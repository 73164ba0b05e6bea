/** The shared driver types: WiFi mode, connection identifiers,
    multiplexing, transport protocol and connection status. */
module Types {
  import opened Common
  import Numbers

  /** The WiFi mode. */
  datatype WifiMode = Station | Ap | Both {
    /** `WifiMode::as_at_str`: the one-digit wire code. */
    function AsAtStr(): (r: string)
      ensures |r| == 1 && '1' <= r[0] <= '3'
    {
      match this
      case Station => "1"
      case Ap => "2"
      case Both => "3"
    }
  }

  /** Distinct modes have distinct wire codes. */
  lemma AsAtStrInjective(m: WifiMode, n: WifiMode)
    ensures m.AsAtStr() == n.AsAtStr() ==> m == n
  {
  }

  /** A link identifier in multiplexed mode: 0 to 4, the module's limit. */
  type ConnectionId = n: int | 0 <= n <= 4

  /** `ConnectionId::as_at_str`: the identifier as one digit. */
  function ConnectionIdAsAtStr(id: ConnectionId): (r: string)
    ensures |r| == 1 && Numbers.AllDigits(r) && Numbers.DigitValue(r[0]) == id
  {
    [Numbers.DigitChar(id)]
  }

  /** `ConnectionId::try_from(&str)`: exactly one digit from 0 to 4. */
  function ConnectionIdTryFrom(s: string): (r: Result<ConnectionId>)
    ensures r.Ok? <==> |s| == 1 && '0' <= s[0] <= '4'
    ensures r.Ok? ==> ConnectionIdAsAtStr(r.value) == s
    ensures r.Err? ==> r.error == ParseString
  {
    if |s| == 1 && '0' <= s[0] <= '4' then Ok(Numbers.DigitValue(s[0])) else Err(ParseString)
  }

  lemma ConnectionIdRoundTrip(id: ConnectionId)
    ensures ConnectionIdTryFrom(ConnectionIdAsAtStr(id)) == Ok(id)
  {
  }

  /** Single connection, or one of several links named by an identifier. */
  datatype MultiplexingType = NonMultiplexed | Multiplexed(id: ConnectionId)

  /** Transport protocol of a link. */
  datatype Protocol = Tcp | Udp {
    /** `Protocol::as_at_str`. */
    function AsAtStr(): (r: string)
      ensures |r| == 3
    {
      match this
      case Tcp => "TCP"
      case Udp => "UDP"
    }
  }

  /** Reply of the connection-status query; unknown codes are kept. */
  datatype ConnectionStatus =
    | ConnectedToAccessPoint
    | InTransmission
    | TransmissionEnded
    | Disconnected
    | Other(code: byte)
}
