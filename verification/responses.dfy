/** The typed replies the decoders produce. */
module Responses {
  import opened Common
  import Numbers

  /** A reply with no body. */
  datatype EmptyResponse = EmptyResponse

  /** Firmware version; each field is a `String<32>`. */
  datatype FirmwareVersion = FirmwareVersion(at_version: string, sdk_version: string, compile_time: string)

  /** Outcome of joining an access point. */
  datatype JoinResponse = JoinResponse(connected: bool, got_ip: bool)

  /** Station address: IPv4 address if one is assigned, MAC as a `String<17>`. */
  datatype LocalAddress = LocalAddress(ip: Option<Numbers.Ipv4Addr>, mac: string)
}
