/** The AT commands: the text each one puts on the wire, the capacity of the
    buffer it is built in, how long the driver waits for its reply, and how
    its reply body is decoded. */
module Requests {
  import opened Common
  import Utf8
  import Str
  import opened Numbers
  import opened Types
  import opened Responses
  import Heapless

  /** Whether a setting is read from / written to the running configuration
      (`_CUR`) or the one stored in flash (`_DEF`). */
  datatype Scope = Current | Default

  /** An IPv4 socket address. */
  datatype SocketAddrV4 = SocketAddrV4(ip: Ipv4Addr, port: u16)

  /** The commands, with the parameters each carries. `SendData` carries the
      capacity `L` of its buffer. */
  datatype Command =
    | At
    | GetFirmwareVersion
    | Restart
    | GetWifiMode(scope: Scope)
    | SetWifiMode(mode: WifiMode, persist: bool)
    | ListAccessPoints
    | JoinAccessPoint(ssid: string, psk: string, persist: bool)
    | GetConnectionStatus
    | GetLocalAddress
    | EstablishConnection(mux: MultiplexingType, protocol: Protocol, remote: SocketAddrV4)
    | PrepareSendData(mux: MultiplexingType, length: u16)
    | SendData(data: string, capacity: nat)
    | CloseConnection(mux: MultiplexingType)

  /** What a command value must satisfy to exist: the credentials are held
      in a `String<32>` and a `String<64>`, and the data to send must fit
      its buffer. */
  predicate Constructible(c: Command) {
    match c
    case JoinAccessPoint(ssid, psk, _) => Utf8.Len(ssid) <= 32 && Utf8.Len(psk) <= 64
    case SendData(data, capacity) => Utf8.Len(data) <= capacity
    case _ => true
  }

  /** The `CommandLen` of `EstablishConnection` as declared. */
  const EstablishConnectionLenAsWritten: nat := 42
  /** The `CommandLen` the longest `EstablishConnection` line needs. */
  const EstablishConnectionLen: nat := 45

  /** `CommandLen`: the byte capacity of the buffer a command is built in. */
  function CommandLen(c: Command): nat {
    match c
    case At => 4
    case GetFirmwareVersion => 8
    case Restart => 8
    case GetWifiMode(_) => 16
    case SetWifiMode(_, _) => 17
    case ListAccessPoints => 10
    case JoinAccessPoint(_, _, _) => 116
    case GetConnectionStatus => 14
    case GetLocalAddress => 10
    case EstablishConnection(_, _, _) => EstablishConnectionLen
    case PrepareSendData(_, _) => 20
    case SendData(_, capacity) => capacity
    case CloseConnection(_) => 15
  }

  /** The link field of a multiplexed command: the identifier and a comma. */
  function MuxField(mux: MultiplexingType): string {
    match mux
    case NonMultiplexed => ""
    case Multiplexed(id) => ConnectionIdAsAtStr(id) + ","
  }

  /** The command head of `SetWifiMode`, which names the stored or the
      running configuration. */
  function ModePrefix(persist: bool): (r: string)
    ensures Utf8.Len(r) == |r| == 14
  {
    if persist then
      Utf8.EncodeAllAscii("AT+CWMODE_DEF=");
      "AT+CWMODE_DEF="
    else
      Utf8.EncodeAllAscii("AT+CWMODE_CUR=");
      "AT+CWMODE_CUR="
  }

  /** The command head of `JoinAccessPoint`. */
  function JoinPrefix(persist: bool): (r: string)
    ensures Utf8.Len(r) == |r| == 13
  {
    if persist then
      Utf8.EncodeAllAscii("AT+CWJAP_DEF=");
      "AT+CWJAP_DEF="
    else
      Utf8.EncodeAllAscii("AT+CWJAP_CUR=");
      "AT+CWJAP_CUR="
  }

  /** The line each command sends. */
  function Text(c: Command): string {
    match c
    case At => "AT\r\n"
    case GetFirmwareVersion => "AT+GMR\r\n"
    case Restart => "AT+RST\r\n"
    case GetWifiMode(scope) => if scope == Current then "AT+CWMODE_CUR?\r\n" else "AT+CWMODE_DEF?\r\n"
    case SetWifiMode(mode, persist) =>
      ModePrefix(persist) + mode.AsAtStr() + "\r\n"
    case ListAccessPoints => "AT+CWLAP\r\n"
    case JoinAccessPoint(ssid, psk, persist) =>
      JoinPrefix(persist) + "\"" + ssid + "\",\"" + psk + "\"" + "\r\n"
    case GetConnectionStatus => "AT+CIPSTATUS\r\n"
    case GetLocalAddress => "AT+CIFSR\r\n"
    case EstablishConnection(mux, protocol, remote) => EstablishLine(mux, protocol, remote)
    case PrepareSendData(mux, length) => PrepareLine(mux, length)
    case SendData(data, _) => data
    case CloseConnection(mux) => CloseLine(mux)
  }

  /** The `PrepareSendData` line: link and byte count. */
  function PrepareLine(mux: MultiplexingType, length: u16): string {
    "AT+CIPSEND=" + PrepareFields(mux, length)
  }

  function PrepareFields(mux: MultiplexingType, length: u16): string {
    MuxField(mux) + Decimal(length) + "\r\n"
  }

  /** The `CloseConnection` line: without a link it closes the single connection. */
  function CloseLine(mux: MultiplexingType): string {
    "AT+CIPCLOSE" + CloseFields(mux)
  }

  function CloseFields(mux: MultiplexingType): string {
    CloseTarget(mux) + "\r\n"
  }

  function CloseTarget(mux: MultiplexingType): string {
    match mux
    case NonMultiplexed => ""
    case Multiplexed(id) => "=" + ConnectionIdAsAtStr(id)
  }

  /** The `EstablishConnection` line: link, protocol, address, port. */
  function EstablishLine(mux: MultiplexingType, protocol: Protocol, remote: SocketAddrV4): string {
    EstablishHead(mux, protocol) + DottedQuad(remote.ip) + EstablishTail(remote.port)
  }

  /** `EstablishConnection` up to the quote that opens the address. */
  function EstablishHead(mux: MultiplexingType, protocol: Protocol): string {
    "AT+CIPSTART=" + EstablishFields(mux, protocol)
  }

  /** The link and protocol fields, and the quote that opens the address. */
  function EstablishFields(mux: MultiplexingType, protocol: Protocol): string {
    MuxField(mux) + "\"" + protocol.AsAtStr() + "\"" + "," + "\""
  }

  /** `EstablishConnection` from the quote that closes the address. */
  function EstablishTail(port: u16): string {
    "\"" + "," + Decimal(port) + "\r\n"
  }

  /** `max_timeout_ms`: how long the driver waits for the reply, in
      milliseconds; `None` where the command keeps the framework's default. */
  function MaxTimeoutMs(c: Command): (r: Option<nat>)
    ensures r.Some? <==> c.ListAccessPoints? || c.JoinAccessPoint? || c.EstablishConnection?
                         || c.PrepareSendData? || c.SendData? || c.CloseConnection?
    ensures r.Some? ==> 5_000 <= r.value <= 30_000
    ensures c.JoinAccessPoint? ==> r == Some(25_000)
  {
    match c
    case ListAccessPoints => Some(10_000)
    case JoinAccessPoint(_, _, _) => Some(25_000)
    case EstablishConnection(_, _, _) => Some(30_000)
    case PrepareSendData(_, _) => Some(5_000)
    case SendData(_, _) => Some(30_000)
    case CloseConnection(_) => Some(5_000)
    case _ => None
  }

  // ---------------------------------------------------------------------
  // Encoders (`as_string`). Every `unwrap` of a push is an `assert ok`.
  // ---------------------------------------------------------------------

  predicate IsFixed(c: Command) {
    c.At? || c.GetFirmwareVersion? || c.Restart? || c.GetWifiMode? || c.ListAccessPoints?
    || c.GetConnectionStatus? || c.GetLocalAddress?
  }

  lemma FixedLength(c: Command)
    requires IsFixed(c)
    ensures Utf8.Len(Text(c)) == CommandLen(c)
  {
    if c.At? || c.GetFirmwareVersion? || c.Restart? || c.GetWifiMode? {
      ShortLiteralLength(c);
    } else {
      LongLiteralLength(c);
    }
  }

  lemma ShortLiteralLength(c: Command)
    requires c.At? || c.GetFirmwareVersion? || c.Restart? || c.GetWifiMode?
    ensures Utf8.Len(Text(c)) == CommandLen(c)
  {
    LiteralLen(Text(c));
  }

  lemma LongLiteralLength(c: Command)
    requires c.ListAccessPoints? || c.GetConnectionStatus? || c.GetLocalAddress?
    ensures Utf8.Len(Text(c)) == CommandLen(c)
  {
    LiteralLen(Text(c));
  }

  /** The byte length of a command literal is its character count. */
  lemma LiteralLen(t: string)
    requires Utf8.AllAscii(t)
    ensures Utf8.Len(t) == |t|
  {
    Utf8.EncodeAllAscii(t);
  }

  /** A parameterless command: `String::from` of its literal line. */
  method EncodeFixed(c: Command) returns (wire: seq<byte>)
    requires IsFixed(c)
    ensures wire == Utf8.Encode(Text(c))
    ensures |wire| == CommandLen(c)
  {
    FixedLength(c);
    var s := new Heapless.HString.From(CommandLen(c), Text(c));
    wire := s.Bytes();
  }

  method EncodeSetWifiMode(mode: WifiMode, persist: bool) returns (wire: seq<byte>)
    ensures wire == Utf8.Encode(Text(SetWifiMode(mode, persist)))
    ensures |wire| == CommandLen(SetWifiMode(mode, persist))
  {
    var s := new Heapless.HString.From(17, ModePrefix(persist));
    var ok := s.PushStr(mode.AsAtStr());
    assert ok;
    ok := s.PushStr("\r\n");
    assert ok;
    wire := s.Bytes();
  }

  method EncodeJoinAccessPoint(ssid: string, psk: string, persist: bool) returns (wire: seq<byte>)
    requires Constructible(JoinAccessPoint(ssid, psk, persist))
    ensures wire == Utf8.Encode(Text(JoinAccessPoint(ssid, psk, persist)))
    ensures |wire| == 20 + Utf8.Len(ssid) + Utf8.Len(psk) <= CommandLen(JoinAccessPoint(ssid, psk, persist))
  {
    var s := new Heapless.HString.From(116, JoinPrefix(persist));
    var ok := s.Push('"');
    assert ok;
    ok := s.PushStr(ssid);
    assert ok;
    ok := s.PushStr("\",\"");
    assert ok;
    ok := s.PushStr(psk);
    assert ok;
    ok := s.Push('"');
    assert ok;
    ok := s.PushStr("\r\n");
    assert ok;
    wire := s.Bytes();
  }

  /** The first `i` octets in dotted form, every octet but the fourth
      followed by a '.'. */
  function DottedUpTo(octets: seq<byte>, i: nat): string
    requires i <= |octets|
  {
    if i == 0 then "" else DottedUpTo(octets, i - 1) + Decimal(octets[i - 1]) + (if i - 1 != 3 then "." else "")
  }

  lemma {:induction false} DottedUpToGrows(octets: seq<byte>, i: nat, j: nat)
    requires i <= j <= |octets|
    ensures |DottedUpTo(octets, i)| <= |DottedUpTo(octets, j)|
    decreases j
  {
    if i < j {
      DottedUpToGrows(octets, i, j - 1);
    }
  }

  lemma DottedUpToAll(ip: Ipv4Addr)
    ensures DottedUpTo(ip.Octets(), 4) == DottedQuad(ip)
  {
    var o := ip.Octets();
    var a, b, c, d := Decimal(ip.a), Decimal(ip.b), Decimal(ip.c), Decimal(ip.d);
    assert DottedUpTo(o, 1) == a + "." by {
      assert DottedUpTo(o, 1) == "" + a + ".";
    }
    assert DottedUpTo(o, 2) == a + "." + b + ".";
    assert DottedUpTo(o, 3) == a + "." + b + "." + c + ".";
    assert DottedUpTo(o, 4) == a + "." + b + "." + c + "." + d by {
      assert DottedUpTo(o, 4) == DottedUpTo(o, 3) + d + "";
    }
  }

  lemma MuxFieldAscii(mux: MultiplexingType)
    ensures Utf8.AllAscii(MuxField(mux)) && |MuxField(mux)| <= 2
    ensures mux.Multiplexed? ==> |MuxField(mux)| == 2
  {
    if mux.Multiplexed? {
      DigitsAreAscii(ConnectionIdAsAtStr(mux.id));
    }
  }

  /** The `EstablishConnection` line is ASCII, one byte per character. */
  lemma EstablishConnectionAscii(mux: MultiplexingType, protocol: Protocol, remote: SocketAddrV4)
    ensures Utf8.AllAscii(EstablishLine(mux, protocol, remote))
  {
    MuxFieldAscii(mux);
    var ip := remote.ip;
    DecimalBytes(ip.a);
    DecimalBytes(ip.b);
    DecimalBytes(ip.c);
    DecimalBytes(ip.d);
    DecimalBytes(remote.port);
    var head, quad, tail := EstablishHead(mux, protocol), DottedQuad(ip), EstablishTail(remote.port);
    HeadAscii(mux, protocol);
    QuadAscii(ip);
    Utf8.AllAsciiAppend("\"" + ",", Decimal(remote.port));
    Utf8.AllAsciiAppend("\"" + "," + Decimal(remote.port), "\r\n");
    Utf8.AllAsciiAppend(head, quad);
    Utf8.AllAsciiAppend(head + quad, tail);
  }

  lemma HeadAscii(mux: MultiplexingType, protocol: Protocol)
    ensures Utf8.AllAscii(EstablishHead(mux, protocol))
  {
    MuxFieldAscii(mux);
    Utf8.AllAsciiAppend("AT+CIPSTART=", MuxField(mux));
    Utf8.AllAsciiAppend("AT+CIPSTART=" + MuxField(mux), "\"");
    Utf8.AllAsciiAppend("AT+CIPSTART=" + MuxField(mux) + "\"", protocol.AsAtStr());
    Utf8.AllAsciiAppend("AT+CIPSTART=" + MuxField(mux) + "\"" + protocol.AsAtStr(), "\"" + "," + "\"");
    assert EstablishHead(mux, protocol) == "AT+CIPSTART=" + MuxField(mux) + "\"" + protocol.AsAtStr() + ("\"" + "," + "\"");
  }

  lemma QuadAscii(ip: Ipv4Addr)
    ensures Utf8.AllAscii(DottedQuad(ip))
  {
    DecimalBytes(ip.a);
    DecimalBytes(ip.b);
    DecimalBytes(ip.c);
    DecimalBytes(ip.d);
    var a, b, c, d := Decimal(ip.a), Decimal(ip.b), Decimal(ip.c), Decimal(ip.d);
    Utf8.AllAsciiAppend(a, ".");
    Utf8.AllAsciiAppend(a + ".", b);
    Utf8.AllAsciiAppend(a + "." + b, ".");
    Utf8.AllAsciiAppend(a + "." + b + ".", c);
    Utf8.AllAsciiAppend(a + "." + b + "." + c, ".");
    Utf8.AllAsciiAppend(a + "." + b + "." + c + ".", d);
  }

  /** The length of the `EstablishConnection` line, field by field. */
  lemma EstablishLength(mux: MultiplexingType, protocol: Protocol, remote: SocketAddrV4)
    ensures |EstablishLine(mux, protocol, remote)|
            == 12 + |EstablishFields(mux, protocol)| + |DottedQuad(remote.ip)| + |EstablishTail(remote.port)|
    ensures |EstablishLine(mux, protocol, remote)|
            == 23 + |MuxField(mux)| + |DottedQuad(remote.ip)| + |Decimal(remote.port)|
  {
  }

  /** The `EstablishConnection` line takes one byte per character. */
  lemma EstablishBytes(mux: MultiplexingType, protocol: Protocol, remote: SocketAddrV4)
    ensures Utf8.Len(EstablishLine(mux, protocol, remote)) == |EstablishLine(mux, protocol, remote)|
  {
    EstablishConnectionAscii(mux, protocol, remote);
    Utf8.EncodeAllAscii(EstablishLine(mux, protocol, remote));
  }

  /** A push of ASCII text that the caller has shown to fit, `unwrap`ped. */
  method PushFitting(s: Heapless.HString, piece: string)
    requires s.Valid() && Utf8.AllAscii(piece) && s.len + |piece| <= s.buf.Length
    modifies s, s.buf
    ensures s.Valid()
    ensures s.text == old(s.text) + piece && s.len == old(s.len) + |piece|
  {
    Utf8.EncodeAllAscii(piece);
    var ok := s.PushStr(piece);
    assert ok;
  }

  /** The loop over `octets()`: each octet in decimal, a '.' after all
      but the last. */
  method PushDottedQuad(s: Heapless.HString, ip: Ipv4Addr)
    requires s.Valid() && s.len + |DottedQuad(ip)| <= s.buf.Length
    modifies s, s.buf
    ensures s.Valid()
    ensures s.text == old(s.text) + DottedQuad(ip) && s.len == old(s.len) + |DottedQuad(ip)|
  {
    var octets := ip.Octets();
    DottedUpToAll(ip);
    var i := 0;
    while i < 4
      invariant 0 <= i <= 4
      invariant s.Valid()
      invariant s.text == old(s.text) + DottedUpTo(octets, i)
      invariant s.len == old(s.len) + |DottedUpTo(octets, i)|
    {
      DottedUpToGrows(octets, i + 1, 4);
      DecimalBytes(octets[i]);
      PushFitting(s, Decimal(octets[i]));
      if i != 3 {
        PushFitting(s, ".");
      }
      ghost var dot := if i != 3 then "." else "";
      assert s.text == old(s.text) + DottedUpTo(octets, i) + (Decimal(octets[i]) + dot) by {
        Str.AppendAssoc(old(s.text) + DottedUpTo(octets, i), Decimal(octets[i]), dot);
      }
      Str.AppendAssoc(old(s.text), DottedUpTo(octets, i), Decimal(octets[i]) + dot);
      i := i + 1;
    }
  }

  /** The link field of a multiplexed command: the identifier, then ','. */
  method PushMuxField(s: Heapless.HString, mux: MultiplexingType)
    requires s.Valid() && s.len + |MuxField(mux)| <= s.buf.Length
    modifies s, s.buf
    ensures s.Valid()
    ensures s.text == old(s.text) + MuxField(mux) && s.len == old(s.len) + |MuxField(mux)|
  {
    MuxFieldAscii(mux);
    match mux {
      case NonMultiplexed =>
      case Multiplexed(id) =>
        PushFitting(s, ConnectionIdAsAtStr(id));
        PushFitting(s, ",");
        Str.AppendAssoc(old(s.text), ConnectionIdAsAtStr(id), ",");
    }
  }

  /** The pushes from the link field up to the quote that opens the address. */
  method PushEstablishFields(s: Heapless.HString, mux: MultiplexingType, protocol: Protocol)
    requires s.Valid() && s.len + |EstablishFields(mux, protocol)| <= s.buf.Length
    modifies s, s.buf
    ensures s.Valid()
    ensures s.text == old(s.text) + EstablishFields(mux, protocol)
    ensures s.len == old(s.len) + |EstablishFields(mux, protocol)|
  {
    MuxFieldAscii(mux);
    ghost var start := s.text;
    PushMuxField(s, mux);
    PushFitting(s, "\"");
    PushFitting(s, protocol.AsAtStr());
    PushFitting(s, "\"");
    PushFitting(s, ",");
    PushFitting(s, "\"");
    ghost var m := MuxField(mux);
    Str.AppendAssoc(start, m, "\"");
    Str.AppendAssoc(start, m + "\"", protocol.AsAtStr());
    Str.AppendAssoc(start, m + "\"" + protocol.AsAtStr(), "\"");
    Str.AppendAssoc(start, m + "\"" + protocol.AsAtStr() + "\"", ",");
    Str.AppendAssoc(start, m + "\"" + protocol.AsAtStr() + "\"" + ",", "\"");
  }

  /** The pushes from the quote that closes the address. */
  method PushEstablishTail(s: Heapless.HString, port: u16)
    requires s.Valid() && s.len + |EstablishTail(port)| <= s.buf.Length
    modifies s, s.buf
    ensures s.Valid()
    ensures s.text == old(s.text) + EstablishTail(port) && s.len == old(s.len) + |EstablishTail(port)|
  {
    ghost var line := s.text;
    PushFitting(s, "\"");
    PushFitting(s, ",");
    DecimalBytes(port);
    PushFitting(s, Decimal(port));
    PushFitting(s, "\r\n");
    Str.AppendAssoc(line, "\"", ",");
    Str.AppendAssoc(line, "\"" + ",", Decimal(port));
    Str.AppendAssoc(line, "\"" + "," + Decimal(port), "\r\n");
  }

  /** `EstablishConnection::as_string` over a buffer of `capacity` bytes; the
      source panics unless the line fits. */
  method BuildEstablishConnection(mux: MultiplexingType, protocol: Protocol, remote: SocketAddrV4, capacity: nat)
    returns (wire: seq<byte>)
    requires Utf8.Len(EstablishLine(mux, protocol, remote)) <= capacity
    ensures wire == Utf8.Encode(EstablishLine(mux, protocol, remote))
  {
    EstablishBytes(mux, protocol, remote);
    EstablishLength(mux, protocol, remote);
    HeadAscii(mux, protocol);
    var head := "AT+CIPSTART=";
    assert Utf8.AllAscii(head) by {
      assert head == EstablishHead(mux, protocol)[..12];
    }
    wire := PushEstablishLine(head, mux, protocol, remote, capacity);
  }

  /** The pushes of `EstablishConnection::as_string` after the command head. */
  method PushEstablishLine(head: string, mux: MultiplexingType, protocol: Protocol, remote: SocketAddrV4, capacity: nat)
    returns (wire: seq<byte>)
    requires Utf8.AllAscii(head)
    requires |head| + |EstablishFields(mux, protocol)| + |DottedQuad(remote.ip)| + |EstablishTail(remote.port)| <= capacity
    ensures wire == Utf8.Encode(head + EstablishFields(mux, protocol) + DottedQuad(remote.ip) + EstablishTail(remote.port))
  {
    Utf8.EncodeAllAscii(head);
    var s := new Heapless.HString.From(capacity, head);
    PushEstablishFields(s, mux, protocol);
    PushDottedQuad(s, remote.ip);
    PushEstablishTail(s, remote.port);
    wire := s.Bytes();
  }

  /** `EstablishConnection::as_string` with the capacity the line needs. */
  method EncodeEstablishConnection(mux: MultiplexingType, protocol: Protocol, remote: SocketAddrV4)
    returns (wire: seq<byte>)
    ensures wire == Utf8.Encode(EstablishLine(mux, protocol, remote))
    ensures |wire| <= EstablishConnectionLen
  {
    EstablishConnectionFits(mux, protocol, remote);
    wire := BuildEstablishConnection(mux, protocol, remote, EstablishConnectionLen);
  }

  /** `EstablishConnection::as_string` with the declared capacity of 42
      bytes: it panics on every line longer than that. */
  method EncodeEstablishConnectionAsWritten(mux: MultiplexingType, protocol: Protocol, remote: SocketAddrV4)
    returns (wire: seq<byte>)
    requires Utf8.Len(EstablishLine(mux, protocol, remote)) <= EstablishConnectionLenAsWritten
    ensures wire == Utf8.Encode(EstablishLine(mux, protocol, remote))
    ensures |wire| <= EstablishConnectionLenAsWritten
  {
    wire := BuildEstablishConnection(mux, protocol, remote, EstablishConnectionLenAsWritten);
  }

  lemma QuadLength(ip: Ipv4Addr)
    ensures |DottedQuad(ip)| == |Decimal(ip.a)| + |Decimal(ip.b)| + |Decimal(ip.c)| + |Decimal(ip.d)| + 3
    ensures 7 <= |DottedQuad(ip)| <= 15
  {
    DecimalWidths(ip.a);
    DecimalWidths(ip.b);
    DecimalWidths(ip.c);
    DecimalWidths(ip.d);
  }

  /** Every `EstablishConnection` line fits in 45 bytes. */
  lemma EstablishConnectionFits(mux: MultiplexingType, protocol: Protocol, remote: SocketAddrV4)
    ensures Utf8.Len(EstablishLine(mux, protocol, remote)) <= EstablishConnectionLen
  {
    EstablishBytes(mux, protocol, remote);
    EstablishLength(mux, protocol, remote);
    MuxFieldAscii(mux);
    QuadLength(remote.ip);
    DecimalWidths(remote.port);
  }

  const Broadcast := Ipv4Addr(255, 255, 255, 255)

  /** The longest line: a multiplexed link to 255.255.255.255:65535 takes
      all 45 bytes, so no smaller capacity is enough. */
  lemma EstablishConnectionWorstCase(id: ConnectionId, protocol: Protocol)
    ensures Utf8.Len(EstablishLine(Multiplexed(id), protocol, SocketAddrV4(Broadcast, 65535))) == EstablishConnectionLen
  {
    var mux := Multiplexed(id);
    var remote := SocketAddrV4(Broadcast, 65535);
    EstablishBytes(mux, protocol, remote);
    EstablishLength(mux, protocol, remote);
    MuxFieldAscii(mux);
    QuadLength(Broadcast);
    DecimalWidths(255);
    DecimalWidths(65535);
  }

  /** The declared capacity of 42 bytes is too small even without a link
      field: a connection to 255.255.255.255:65535 is a 43-byte line, so
      the 42-byte encoder cannot build it (its precondition fails), and a
      multiplexed one is 45 bytes. */
  lemma EstablishConnectionOverflowsAsWritten(protocol: Protocol)
    ensures Utf8.Len(EstablishLine(NonMultiplexed, protocol, SocketAddrV4(Broadcast, 65535))) == 43
    ensures Utf8.Len(EstablishLine(NonMultiplexed, protocol, SocketAddrV4(Broadcast, 65535))) > EstablishConnectionLenAsWritten
  {
    var remote := SocketAddrV4(Broadcast, 65535);
    EstablishBytes(NonMultiplexed, protocol, remote);
    EstablishLength(NonMultiplexed, protocol, remote);
    QuadLength(Broadcast);
    DecimalWidths(255);
    DecimalWidths(65535);
  }

  method EncodePrepareSendData(mux: MultiplexingType, length: u16) returns (wire: seq<byte>)
    ensures wire == Utf8.Encode(PrepareLine(mux, length))
    ensures |wire| == 13 + |MuxField(mux)| + |Decimal(length)| <= 20
  {
    MuxFieldAscii(mux);
    DecimalWidths(length);
    var head := "AT+CIPSEND=";
    assert Utf8.AllAscii(head) && |head| == 11;
    wire := PushPrepareLine(head, mux, length, 20);
  }

  /** The pushes of `PrepareSendData::as_string` after the command head. */
  method PushPrepareLine(head: string, mux: MultiplexingType, length: u16, capacity: nat) returns (wire: seq<byte>)
    requires Utf8.AllAscii(head) && |head| + |PrepareFields(mux, length)| <= capacity
    ensures wire == Utf8.Encode(head + PrepareFields(mux, length))
    ensures |wire| == |head| + |PrepareFields(mux, length)|
  {
    Utf8.EncodeAllAscii(head);
    var s := new Heapless.HString.From(capacity, head);
    PushPrepareFields(s, mux, length);
    wire := s.Bytes();
  }

  /** The link field, the byte count and the line end. */
  method PushPrepareFields(s: Heapless.HString, mux: MultiplexingType, length: u16)
    requires s.Valid() && s.len + |PrepareFields(mux, length)| <= s.buf.Length
    modifies s, s.buf
    ensures s.Valid()
    ensures s.text == old(s.text) + PrepareFields(mux, length)
    ensures s.len == old(s.len) + |PrepareFields(mux, length)|
  {
    DecimalBytes(length);
    PushMuxField(s, mux);
    PushFitting(s, Decimal(length));
    PushFitting(s, "\r\n");
    Str.AppendAssoc(old(s.text), MuxField(mux), Decimal(length));
    Str.AppendAssoc(old(s.text), MuxField(mux) + Decimal(length), "\r\n");
  }

  /** The longest `PrepareSendData` line fills its 20 bytes. */
  lemma PrepareSendDataWorstCase(id: ConnectionId)
    ensures Utf8.Len(PrepareLine(Multiplexed(id), 65535)) == CommandLen(PrepareSendData(Multiplexed(id), 65535))
  {
    MuxFieldAscii(Multiplexed(id));
    DecimalWidths(65535);
    DecimalBytes(65535);
    var fields := PrepareFields(Multiplexed(id), 65535);
    Utf8.AllAsciiAppend(MuxField(Multiplexed(id)), Decimal(65535));
    Utf8.AllAsciiAppend(MuxField(Multiplexed(id)) + Decimal(65535), "\r\n");
    Utf8.AllAsciiAppend("AT+CIPSEND=", fields);
    Utf8.EncodeAllAscii("AT+CIPSEND=" + fields);
  }

  method EncodeCloseConnection(mux: MultiplexingType) returns (wire: seq<byte>)
    ensures wire == Utf8.Encode(CloseLine(mux))
    ensures |wire| == (if mux.Multiplexed? then 15 else 13) <= 15
  {
    var head := "AT+CIPCLOSE";
    assert Utf8.AllAscii(head) && |head| == 11;
    wire := PushCloseLine(head, mux, 15);
  }

  /** The pushes of `CloseConnection::as_string` after the command head. */
  method PushCloseLine(head: string, mux: MultiplexingType, capacity: nat) returns (wire: seq<byte>)
    requires Utf8.AllAscii(head) && |head| + (if mux.Multiplexed? then 4 else 2) <= capacity
    ensures wire == Utf8.Encode(head + CloseFields(mux))
    ensures |wire| == |head| + (if mux.Multiplexed? then 4 else 2)
  {
    Utf8.EncodeAllAscii(head);
    var s := new Heapless.HString.From(capacity, head);
    PushCloseFields(s, mux);
    wire := s.Bytes();
  }

  /** '=' and the link when there is one, then the line end. */
  method PushCloseFields(s: Heapless.HString, mux: MultiplexingType)
    requires s.Valid() && s.len + |CloseFields(mux)| <= s.buf.Length
    modifies s, s.buf
    ensures s.Valid()
    ensures s.text == old(s.text) + CloseFields(mux) && s.len == old(s.len) + |CloseFields(mux)|
    ensures |CloseFields(mux)| == if mux.Multiplexed? then 4 else 2
  {
    match mux {
      case NonMultiplexed =>
      case Multiplexed(id) =>
        DigitsAreAscii(ConnectionIdAsAtStr(id));
        PushFitting(s, "=");
        PushFitting(s, ConnectionIdAsAtStr(id));
        Str.AppendAssoc(old(s.text), "=", ConnectionIdAsAtStr(id));
    }
    PushFitting(s, "\r\n");
    Str.AppendAssoc(old(s.text), CloseTarget(mux), "\r\n");
  }

  /** `SendData::as_string`: the data itself, in a buffer of `L` bytes. */
  method EncodeSendData(data: string, capacity: nat) returns (wire: seq<byte>)
    requires Constructible(SendData(data, capacity))
    ensures wire == Utf8.Encode(data) && |wire| <= capacity
  {
    var s := new Heapless.HString.From(capacity, data);
    wire := s.Bytes();
  }

  /** `as_string`: every command that can be constructed is encoded, as
      its line, within its declared capacity — no `unwrap` panics. */
  method AsString(c: Command) returns (wire: seq<byte>)
    requires Constructible(c)
    ensures wire == Utf8.Encode(Text(c))
    ensures |wire| <= CommandLen(c)
  {
    match c {
      case At => wire := EncodeFixed(c);
      case GetFirmwareVersion => wire := EncodeFixed(c);
      case Restart => wire := EncodeFixed(c);
      case GetWifiMode(_) => wire := EncodeFixed(c);
      case SetWifiMode(mode, persist) => wire := EncodeSetWifiMode(mode, persist);
      case ListAccessPoints => wire := EncodeFixed(c);
      case JoinAccessPoint(ssid, psk, persist) => wire := EncodeJoinAccessPoint(ssid, psk, persist);
      case GetConnectionStatus => wire := EncodeFixed(c);
      case GetLocalAddress => wire := EncodeFixed(c);
      case EstablishConnection(mux, protocol, remote) => wire := EncodeEstablishConnection(mux, protocol, remote);
      case PrepareSendData(mux, length) => wire := EncodePrepareSendData(mux, length);
      case SendData(data, capacity) => wire := EncodeSendData(data, capacity);
      case CloseConnection(mux) => wire := EncodeCloseConnection(mux);
    }
  }

  // ---------------------------------------------------------------------
  // Decoders (`parse`), applied to the reply body the framework hands over.
  // ---------------------------------------------------------------------

  /** `parse` of `At`, `Restart` and `SetWifiMode`: the body must be blank. */
  function ParseEmptyBody(resp: string): (r: Result<EmptyResponse>)
    ensures r.Ok? <==> Str.AllWhitespace(resp)
    ensures r.Err? ==> r.error == InvalidResponse
  {
    Str.TrimEmptyIff(resp);
    if Str.Trim(resp) != [] then Err(InvalidResponse) else Ok(EmptyResponse)
  }

  /** `parse` of `ListAccessPoints`, `EstablishConnection`, `PrepareSendData`,
      `SendData` and `CloseConnection`: the body is not looked at. */
  function ParseIgnoringBody(resp: string): (r: Result<EmptyResponse>)
    ensures r.Ok?
  {
    Ok(EmptyResponse)
  }

  const AtVersionTag := "AT version:"
  const SdkVersionTag := "SDK version:"
  const CompileTimeTag := "compile time:"

  /** The first three lines carry the three tags, in order. */
  predicate FirmwareShaped(lines: seq<string>) {
    |lines| >= 3
    && Str.StartsWith(lines[0], AtVersionTag)
    && Str.StartsWith(lines[1], SdkVersionTag)
    && Str.StartsWith(lines[2], CompileTimeTag)
  }

  /** What the decoder demands: once the three tags match, each field must
      fit the `String<32>` it is copied into (`String::from` panics
      otherwise). The tags are ASCII, so the byte offsets 11, 12 and 13
      are the character offsets too. */
  predicate FirmwareFieldsFit(lines: seq<string>) {
    FirmwareShaped(lines) ==>
      Utf8.Len(lines[0][11..]) <= 32 && Utf8.Len(lines[1][12..]) <= 32 && Utf8.Len(lines[2][13..]) <= 32
  }

  /** `GetFirmwareVersion::parse` over the lines of the body: the text after
      each tag on the first three lines; any missing line or tag is a
      `ParseString` error. */
  function ParseFirmwareLines(lines: seq<string>): (r: Result<FirmwareVersion>)
    requires FirmwareFieldsFit(lines)
    ensures r.Ok? <==> FirmwareShaped(lines)
    ensures r.Err? ==> r.error == ParseString
    ensures r.Ok? ==>
      && lines[0] == AtVersionTag + r.value.at_version
      && lines[1] == SdkVersionTag + r.value.sdk_version
      && lines[2] == CompileTimeTag + r.value.compile_time
    ensures r.Ok? ==>
      Utf8.Len(r.value.at_version) <= 32 && Utf8.Len(r.value.sdk_version) <= 32 && Utf8.Len(r.value.compile_time) <= 32
  {
    if |lines| < 1 || !Str.StartsWith(lines[0], AtVersionTag) then Err(ParseString)
    else if |lines| < 2 || !Str.StartsWith(lines[1], SdkVersionTag) then Err(ParseString)
    else if |lines| < 3 || !Str.StartsWith(lines[2], CompileTimeTag) then Err(ParseString)
    else
      assert lines[0] == lines[0][..11] + lines[0][11..];
      assert lines[1] == lines[1][..12] + lines[1][12..];
      assert lines[2] == lines[2][..13] + lines[2][13..];
      Ok(FirmwareVersion(lines[0][11..], lines[1][12..], lines[2][13..]))
  }

  /** `GetFirmwareVersion::parse`: the body is read line by line. */
  function ParseFirmwareVersion(resp: string): (r: Result<FirmwareVersion>)
    requires FirmwareFieldsFit(Str.Lines(resp))
    ensures r.Ok? <==> FirmwareShaped(Str.Lines(resp))
    ensures r.Err? ==> r.error == ParseString
    ensures r.Ok? ==>
      var lines := Str.Lines(resp);
      && lines[0] == AtVersionTag + r.value.at_version
      && lines[1] == SdkVersionTag + r.value.sdk_version
      && lines[2] == CompileTimeTag + r.value.compile_time
  {
    ParseFirmwareLines(Str.Lines(resp))
  }

  /** A firmware reply: the three tagged lines, each ended by "\r\n". */
  function FirmwareReply(v: FirmwareVersion, rest: string): string {
    (AtVersionTag + v.at_version + "\r") + "\n"
    + ((SdkVersionTag + v.sdk_version + "\r") + "\n"
    + ((CompileTimeTag + v.compile_time + "\r") + "\n" + rest))
  }

  predicate FirmwareFieldOk(field: string) {
    '\n' !in field && Utf8.Len(field) <= 32
  }

  /** Decoding a firmware reply gives back the three fields, whatever
      lines follow them. */
  lemma FirmwareVersionRoundTrip(v: FirmwareVersion, rest: string)
    requires FirmwareFieldOk(v.at_version) && FirmwareFieldOk(v.sdk_version) && FirmwareFieldOk(v.compile_time)
    ensures FirmwareFieldsFit(Str.Lines(FirmwareReply(v, rest)))
    ensures ParseFirmwareVersion(FirmwareReply(v, rest)) == Ok(v)
  {
    FirmwareReplyLines(v, rest);
    FirmwareOfLines(Str.Lines(FirmwareReply(v, rest)), v);
  }

  /** The first three lines of a firmware reply are the tagged fields. */
  lemma FirmwareReplyLines(v: FirmwareVersion, rest: string)
    requires '\n' !in v.at_version && '\n' !in v.sdk_version && '\n' !in v.compile_time
    ensures Str.Lines(FirmwareReply(v, rest))
      == [AtVersionTag + v.at_version, SdkVersionTag + v.sdk_version, CompileTimeTag + v.compile_time]
         + Str.Lines(rest)
  {
    var a, b, c := AtVersionTag + v.at_version, SdkVersionTag + v.sdk_version, CompileTimeTag + v.compile_time;
    Str.LinesThree(a + "\r", b + "\r", c + "\r", rest);
    assert Str.StripCR(a + "\r") == a;
    assert Str.StripCR(b + "\r") == b;
    assert Str.StripCR(c + "\r") == c;
  }

  /** Lines that start with the three tagged fields decode to those fields. */
  lemma FirmwareOfLines(lines: seq<string>, v: FirmwareVersion)
    requires |lines| >= 3
    requires lines[0] == AtVersionTag + v.at_version
    requires lines[1] == SdkVersionTag + v.sdk_version
    requires lines[2] == CompileTimeTag + v.compile_time
    requires Utf8.Len(v.at_version) <= 32 && Utf8.Len(v.sdk_version) <= 32 && Utf8.Len(v.compile_time) <= 32
    ensures FirmwareFieldsFit(lines)
    ensures ParseFirmwareLines(lines) == Ok(v)
  {
    assert lines[0][11..] == v.at_version;
    assert lines[1][12..] == v.sdk_version;
    assert lines[2][13..] == v.compile_time;
  }

  /** The tag a WiFi-mode reply starts with. */
  function ModeReplyTag(scope: Scope): (r: string)
    ensures |r| == 12 && Utf8.AllAscii(r)
  {
    if scope == Current then "+CWMODE_CUR:" else "+CWMODE_DEF:"
  }

  /** `Get{Current,Default}WifiMode::parse`: the tag, then the mode digit at
      byte 12; anything else is `InvalidResponse`. */
  function ParseWifiMode(scope: Scope, resp: string): (r: Result<WifiMode>)
    ensures r.Ok? <==> Str.StartsWith(resp, ModeReplyTag(scope)) && |resp| > 12 && '1' <= resp[12] <= '3'
    ensures r.Ok? ==> r.value.AsAtStr() == [resp[12]]
    ensures r.Err? ==> r.error == InvalidResponse
  {
    if !Str.StartsWith(resp, ModeReplyTag(scope)) then Err(InvalidResponse)
    else
      ModeCodeSlice(scope, resp);
      var code := Utf8.Get(resp, 12, 13);
      if code == Some("1") then Ok(Station)
      else if code == Some("2") then Ok(Ap)
      else if code == Some("3") then Ok(Both)
      else Err(InvalidResponse)
  }

  /** After the ASCII tag, `get(12..13)` is the next character when it is
      ASCII. */
  lemma ModeCodeSlice(scope: Scope, resp: string)
    requires Str.StartsWith(resp, ModeReplyTag(scope))
    ensures Utf8.Get(resp, 12, 13) == if |resp| > 12 && Utf8.IsAscii(resp[12]) then Some([resp[12]]) else None
  {
    assert resp[..12] == ModeReplyTag(scope);
    Utf8.GetAfterAsciiPrefix(resp, 12);
  }

  /** The reply to a mode query decodes to the mode it names. */
  lemma WifiModeRoundTrip(scope: Scope, m: WifiMode, rest: string)
    ensures ParseWifiMode(scope, ModeReplyTag(scope) + m.AsAtStr() + rest) == Ok(m)
  {
    var resp := ModeReplyTag(scope) + m.AsAtStr() + rest;
    assert resp[..12] == ModeReplyTag(scope);
    assert resp[12] == m.AsAtStr()[0];
    AsAtStrInjective(ParseWifiMode(scope, resp).value, m);
  }

  const StatusTag := "STATUS:"

  /** `code.parse::<u8>()` of a one-character code. */
  lemma ParseU8OneChar(c: char)
    ensures ParseU8([c]) == if IsDigit(c) then Some(DigitValue(c)) else None
  {
    if IsDigit(c) {
      assert AllDigits([c]);
      assert [c][..0] == [];
      assert DigitsValue([c]) == DigitValue(c);
    }
  }

  /** The status a one-character code stands for. */
  function StatusOfCode(code: string): (r: Result<ConnectionStatus>)
    requires |code| == 1
    ensures r.Ok? <==> IsDigit(code[0])
    ensures r.Err? ==> r.error == ParseString
    ensures r.Ok? ==>
      && (r.value == ConnectedToAccessPoint <==> code[0] == '2')
      && (r.value == InTransmission <==> code[0] == '3')
      && (r.value == TransmissionEnded <==> code[0] == '4')
      && (r.value == Disconnected <==> code[0] == '5')
      && (r.value.Other? ==> r.value.code == DigitValue(code[0]))
  {
    ParseU8OneChar(code[0]);
    assert code == [code[0]];
    if code == "2" then Ok(ConnectedToAccessPoint)
    else if code == "3" then Ok(InTransmission)
    else if code == "4" then Ok(TransmissionEnded)
    else if code == "5" then Ok(Disconnected)
    else
      match ParseU8(code)
      case None => Err(ParseString)
      case Some(n) => Ok(Other(n))
  }

  /** `GetConnectionStatus::parse`: the code at byte 7. Codes 2 to 5 are
      named; any other digit is kept as `Other`; another ASCII character is
      a `ParseString` error; a missing or multi-byte character, or a missing
      tag, is `InvalidResponse`. */
  function ParseConnectionStatus(resp: string): (r: Result<ConnectionStatus>)
    ensures !Str.StartsWith(resp, StatusTag) ==> r == Err(InvalidResponse)
    ensures r.Ok? <==> Str.StartsWith(resp, StatusTag) && |resp| > 7 && IsDigit(resp[7])
    ensures r == Err(ParseString) <==>
              Str.StartsWith(resp, StatusTag) && |resp| > 7 && Utf8.IsAscii(resp[7]) && !IsDigit(resp[7])
    ensures r.Ok? ==>
      && (r.value == ConnectedToAccessPoint <==> resp[7] == '2')
      && (r.value == InTransmission <==> resp[7] == '3')
      && (r.value == TransmissionEnded <==> resp[7] == '4')
      && (r.value == Disconnected <==> resp[7] == '5')
      && (r.value.Other? ==> r.value.code == DigitValue(resp[7]))
  {
    if !Str.StartsWith(resp, StatusTag) then Err(InvalidResponse)
    else
      Utf8.GetAfterAsciiPrefix(resp, 7);
      match Utf8.Get(resp, 7, 8)
      case None => Err(InvalidResponse)
      case Some(code) => StatusOfCode(code)
  }

  const WifiConnectedLine := "WIFI CONNECTED"
  const WifiDisconnectedLine := "WIFI DISCONNECTED"
  const WifiGotIpLine := "WIFI GOT IP"

  /** Line `i` reports a connection that no later line withdraws. */
  predicate ConnectedAt(lines: seq<string>, i: int)
    requires 0 <= i < |lines|
  {
    lines[i] == WifiConnectedLine && forall j | i < j < |lines| :: lines[j] != WifiDisconnectedLine
  }

  /** The verdict of the last "WIFI CONNECTED" / "WIFI DISCONNECTED" line. */
  function LastVerdict(lines: seq<string>): Option<bool> {
    if lines == [] then None
    else if lines[|lines| - 1] == WifiDisconnectedLine then Some(false)
    else if lines[|lines| - 1] == WifiConnectedLine then Some(true)
    else LastVerdict(lines[..|lines| - 1])
  }

  /** The last verdict is "connected" exactly when some connection report
      is not withdrawn later. */
  lemma {:induction false} LastVerdictConnected(lines: seq<string>)
    ensures LastVerdict(lines) == Some(true) <==> exists i | 0 <= i < |lines| :: ConnectedAt(lines, i)
  {
    if lines != [] {
      var n := |lines| - 1;
      var prefix := lines[..n];
      if lines[n] == WifiDisconnectedLine {
        forall i | 0 <= i < |lines|
          ensures !ConnectedAt(lines, i)
        {
          if i < n {
            assert lines[n] == WifiDisconnectedLine;
          }
        }
      } else if lines[n] == WifiConnectedLine {
        assert ConnectedAt(lines, n);
      } else {
        LastVerdictConnected(prefix);
        if exists i | 0 <= i < |prefix| :: ConnectedAt(prefix, i) {
          var i :| 0 <= i < |prefix| && ConnectedAt(prefix, i);
          assert ConnectedAt(lines, i);
        }
        if exists i | 0 <= i < |lines| :: ConnectedAt(lines, i) {
          var i :| 0 <= i < |lines| && ConnectedAt(lines, i);
          assert i < n;
          assert ConnectedAt(prefix, i);
        }
      }
    }
  }

  /** `JoinAccessPoint::parse`: scans the lines; "WIFI CONNECTED" and
      "WIFI DISCONNECTED" set the connection flag, "WIFI GOT IP" sets the
      address flag, other lines are skipped. It never fails. */
  method ParseJoinAccessPoint(resp: string) returns (r: Result<JoinResponse>)
    ensures r.Ok?
    ensures r.value.got_ip <==> WifiGotIpLine in Str.Lines(resp)
    ensures r.value.connected <==> exists i | 0 <= i < |Str.Lines(resp)| :: ConnectedAt(Str.Lines(resp), i)
  {
    var lines := Str.Lines(resp);
    var response := JoinResponse(false, false);
    var i := 0;
    while i < |lines|
      invariant 0 <= i <= |lines|
      invariant response.got_ip <==> WifiGotIpLine in lines[..i]
      invariant response.connected <==> LastVerdict(lines[..i]) == Some(true)
    {
      var line := lines[i];
      if line == WifiDisconnectedLine {
        response := response.(connected := false);
      } else if line == WifiConnectedLine {
        response := response.(connected := true);
      } else if line == WifiGotIpLine {
        response := response.(got_ip := true);
      }
      assert lines[..i + 1][..i] == lines[..i];
      assert lines[..i + 1] == lines[..i] + [line];
      i := i + 1;
    }
    assert lines[..i] == lines;
    LastVerdictConnected(lines);
    r := Ok(response);
  }

  const StaIpTag := "+CIFSR:STAIP,"
  const StaMacTag := "+CIFSR:STAMAC,"

  predicate IsIpLine(line: string) {
    Str.StartsWith(line, StaIpTag)
  }

  /** A MAC line is tested only when the line is not an address line. */
  predicate IsMacLine(line: string) {
    !IsIpLine(line) && Str.StartsWith(line, StaMacTag)
  }

  /** `&line[14..line.len() - 1]`: the address inside the quotes; `None`
      where the slice panics. */
  function IpField(line: string): (r: Option<string>)
    requires IsIpLine(line)
    ensures r.Some? ==> Utf8.Len(r.value) == Utf8.Len(line) - 15
  {
    Utf8.Get(line, 14, Utf8.Len(line) - 1)
  }

  /** `&line[15..32]`: the 17 characters of the MAC address inside the
      quotes; `None` where the slice panics. */
  function MacField(line: string): (r: Option<string>)
    ensures r.Some? ==> Utf8.Len(r.value) == 17 && 32 <= Utf8.Len(line)
  {
    Utf8.Get(line, 15, 32)
  }

  /** On an ASCII address line the slice exists exactly when the line has
      at least 15 characters, and it is the text between the tag's quote
      and the last character. */
  lemma IpFieldAscii(line: string)
    requires IsIpLine(line) && Utf8.AllAscii(line)
    ensures IpField(line) == if |line| >= 15 then Some(line[14..|line| - 1]) else None
  {
    Utf8.EncodeAllAscii(line);
    if |line| >= 15 {
      Utf8.GetAscii(line, 14, |line| - 1);
    }
  }

  /** On an ASCII line the MAC slice exists exactly when the line has at
      least 32 characters, and it is characters 15 to 31. */
  lemma MacFieldAscii(line: string)
    requires Utf8.AllAscii(line)
    ensures MacField(line) == if |line| >= 32 then Some(line[15..32]) else None
  {
    Utf8.EncodeAllAscii(line);
    if |line| >= 32 {
      Utf8.GetAscii(line, 15, 32);
    }
  }

  /** What an address field means: "0.0.0.0" is no address, anything else
      must parse as a dotted quad. */
  function IpValue(raw: string): (r: Result<Option<Ipv4Addr>>)
    ensures r.Err? ==> r.error == ParseString
    ensures r.Err? <==> raw != "0.0.0.0" && ParseIpv4(raw).None?
    ensures r == Ok(None) <==> raw == "0.0.0.0"
    ensures r.Ok? && r.value.Some? ==> ParseIpv4(raw) == r.value
  {
    if raw == "0.0.0.0" then Ok(None)
    else
      match ParseIpv4(raw)
      case Some(ip) => Ok(Some(ip))
      case None => Err(ParseString)
  }

  /** What the decoder demands of the lines it reaches: the slices it takes
      exist (otherwise it panics). It stops at the first address line whose
      address does not parse, so nothing is demanded after that one. */
  predicate Sliceable(lines: seq<string>) {
    lines == [] ||
      var line := lines[0];
      if IsIpLine(line) then
        IpField(line).Some? && (IpValue(IpField(line).value).Err? || Sliceable(lines[1..]))
      else (IsMacLine(line) ==> MacField(line).Some?) && Sliceable(lines[1..])
  }

  /** The decoder's state after `lines`, starting from `ip` and `mac`: the
      latest address line sets or clears the address, the latest MAC line
      sets the MAC address, and an address that does not parse is an error. */
  function Scan(lines: seq<string>, ip: Option<Ipv4Addr>, mac: Option<string>)
    : (r: Result<(Option<Ipv4Addr>, Option<string>)>)
    requires Sliceable(lines)
    requires mac.Some? ==> Utf8.Len(mac.value) == 17
    ensures r.Err? ==> r.error == ParseString
    ensures r.Ok? && r.value.1.Some? ==> Utf8.Len(r.value.1.value) == 17
    ensures r.Ok? && r.value.1.None? ==> mac.None?
    decreases |lines|
  {
    if lines == [] then Ok((ip, mac))
    else
      var line := lines[0];
      if IsIpLine(line) then
        match IpValue(IpField(line).value)
        case Err(e) => Err(e)
        case Ok(v) => Scan(lines[1..], v, mac)
      else if IsMacLine(line) then Scan(lines[1..], ip, MacField(line))
      else Scan(lines[1..], ip, mac)
  }

  /** The reply a `GetLocalAddress` body decodes to: an error if an address
      line does not parse or there is no MAC line; otherwise the last
      address and the last MAC address. */
  function LocalAddressOf(lines: seq<string>): (r: Result<LocalAddress>)
    requires Sliceable(lines)
    ensures r.Err? ==> r.error == ParseString
    ensures r.Ok? ==> Utf8.Len(r.value.mac) == 17
  {
    match Scan(lines, None, None)
    case Err(e) => Err(e)
    case Ok((ip, mac)) =>
      if mac.None? then Err(ParseString) else Ok(LocalAddress(ip, mac.value))
  }

  /** Scanning two runs of lines is scanning the first and carrying its
      state into the second. */
  lemma {:induction false} ScanAppend(a: seq<string>, b: seq<string>, ip: Option<Ipv4Addr>, mac: Option<string>)
    requires Sliceable(a + b)
    requires mac.Some? ==> Utf8.Len(mac.value) == 17
    ensures Sliceable(a)
    ensures Scan(a, ip, mac).Ok? ==> Sliceable(b)
    ensures Scan(a + b, ip, mac) ==
      match Scan(a, ip, mac)
      case Err(e) => Err(e)
      case Ok((ip', mac')) => Scan(b, ip', mac')
    decreases |a|
  {
    if a == [] {
      assert a + b == b;
    } else {
      assert (a + b)[0] == a[0];
      assert (a + b)[1..] == a[1..] + b;
      var line := a[0];
      if IsIpLine(line) {
        if IpValue(IpField(line).value).Ok? {
          ScanAppend(a[1..], b, IpValue(IpField(line).value).value, mac);
        }
      } else if IsMacLine(line) {
        ScanAppend(a[1..], b, ip, MacField(line));
      } else {
        ScanAppend(a[1..], b, ip, mac);
      }
    }
  }

  /** ASCII lines are sliceable when every address line has at least 15
      characters and every MAC line at least 32. */
  lemma {:induction false} SliceableAscii(lines: seq<string>)
    requires forall l <- lines ::
      Utf8.AllAscii(l) && (IsIpLine(l) ==> |l| >= 15) && (IsMacLine(l) ==> |l| >= 32)
    ensures Sliceable(lines)
    decreases |lines|
  {
    if lines != [] {
      var line := lines[0];
      assert line in lines;
      MacFieldAscii(line);
      if IsIpLine(line) {
        IpFieldAscii(line);
      }
      SliceableAscii(lines[1..]);
    }
  }

  /** Without MAC lines the scan keeps the MAC address it started with. */
  lemma {:induction false} ScanWithoutMac(lines: seq<string>, ip: Option<Ipv4Addr>, mac: Option<string>)
    requires Sliceable(lines)
    requires mac.Some? ==> Utf8.Len(mac.value) == 17
    requires forall l <- lines :: !IsMacLine(l)
    ensures Scan(lines, ip, mac).Ok? ==> Scan(lines, ip, mac).value.1 == mac
    decreases |lines|
  {
    if lines != [] {
      var line := lines[0];
      assert line in lines;
      if IsIpLine(line) {
        if IpValue(IpField(line).value).Ok? {
          ScanWithoutMac(lines[1..], IpValue(IpField(line).value).value, mac);
        }
      } else {
        ScanWithoutMac(lines[1..], ip, mac);
      }
    }
  }

  /** Without address lines the scan cannot fail and keeps the address it
      started with. */
  lemma {:induction false} ScanWithoutAddress(lines: seq<string>, ip: Option<Ipv4Addr>, mac: Option<string>)
    requires Sliceable(lines)
    requires mac.Some? ==> Utf8.Len(mac.value) == 17
    requires forall l <- lines :: !IsIpLine(l)
    ensures Scan(lines, ip, mac).Ok? && Scan(lines, ip, mac).value.0 == ip
    decreases |lines|
  {
    if lines != [] {
      var line := lines[0];
      assert line in lines;
      if IsMacLine(line) {
        ScanWithoutAddress(lines[1..], ip, MacField(line));
      } else {
        ScanWithoutAddress(lines[1..], ip, mac);
      }
    }
  }

  /** A reply without a MAC line is a `ParseString` error. */
  lemma LocalAddressWithoutMac(lines: seq<string>)
    requires Sliceable(lines)
    requires forall l <- lines :: !IsMacLine(l)
    ensures LocalAddressOf(lines) == Err(ParseString)
  {
    ScanWithoutMac(lines, None, None);
  }

  /** A reply without an address line has no address. */
  lemma LocalAddressWithoutAddress(lines: seq<string>)
    requires Sliceable(lines)
    requires forall l <- lines :: !IsIpLine(l)
    ensures LocalAddressOf(lines).Ok? ==> LocalAddressOf(lines).value.ip == None
  {
    ScanWithoutAddress(lines, None, None);
  }

  /** An address that does not parse makes the reply a `ParseString` error,
      whatever surrounds it. */
  lemma LocalAddressBadAddress(before: seq<string>, line: string, after: seq<string>)
    requires Sliceable(before + [line] + after)
    requires IsIpLine(line) && IpField(line).Some? && IpValue(IpField(line).value).Err?
    ensures LocalAddressOf(before + [line] + after) == Err(ParseString)
  {
    ScanAppend(before + [line], after, None, None);
    ScanAppend(before, [line], None, None);
  }

  /** The last MAC line gives the MAC address. */
  lemma LocalAddressLastMac(before: seq<string>, line: string, after: seq<string>)
    requires Sliceable(before + [line] + after)
    requires IsMacLine(line)
    requires forall l <- after :: !IsMacLine(l)
    ensures LocalAddressOf(before + [line] + after).Ok? <==> Scan(before + [line] + after, None, None).Ok?
    ensures LocalAddressOf(before + [line] + after).Ok? ==>
      MacField(line) == Some(LocalAddressOf(before + [line] + after).value.mac)
  {
    ScanAppend(before + [line], after, None, None);
    ScanAppend(before, [line], None, None);
    var s := Scan(before + [line], None, None);
    if s.Ok? {
      ScanWithoutMac(after, s.value.0, s.value.1);
    }
  }

  /** The last address line gives the address: none for 0.0.0.0, otherwise
      the parsed address. */
  lemma LocalAddressLastAddress(before: seq<string>, line: string, after: seq<string>)
    requires Sliceable(before + [line] + after)
    requires IsIpLine(line)
    requires forall l <- after :: !IsIpLine(l)
    ensures LocalAddressOf(before + [line] + after).Ok? ==>
      IpField(line).Some? && IpValue(IpField(line).value) == Ok(LocalAddressOf(before + [line] + after).value.ip)
  {
    ScanAppend(before + [line], after, None, None);
    ScanAppend(before, [line], None, None);
    var s := Scan(before + [line], None, None);
    if s.Ok? {
      ScanWithoutAddress(after, s.value.0, s.value.1);
    }
  }

  /** `GetLocalAddress::parse`, line by line, keeping the latest address and
      MAC address. */
  method ParseLocalAddress(resp: string) returns (r: Result<LocalAddress>)
    requires Sliceable(Str.Lines(resp))
    ensures r == LocalAddressOf(Str.Lines(resp))
  {
    var lines := Str.Lines(resp);
    var mac: Option<string> := None;
    var ip: Option<Ipv4Addr> := None;
    var i := 0;
    while i < |lines|
      invariant 0 <= i <= |lines|
      invariant Sliceable(lines[i..])
      invariant mac.Some? ==> Utf8.Len(mac.value) == 17
      invariant Scan(lines, None, None) == Scan(lines[i..], ip, mac)
    {
      var line := lines[i];
      assert lines[i..][0] == line;
      assert lines[i..][1..] == lines[i + 1..];
      if IsIpLine(line) {
        var raw := IpField(line).value;
        if raw == "0.0.0.0" {
          ip := None;
        } else {
          match ParseIpv4(raw) {
            case None =>
              return Err(ParseString);
            case Some(addr) =>
              ip := Some(addr);
          }
        }
      } else if IsMacLine(line) {
        mac := Some(MacField(line).value);
      }
      i := i + 1;
    }
    match mac {
      case None => r := Err(ParseString);
      case Some(m) => r := Ok(LocalAddress(ip, m));
    }
  }

  /** An address line as the module writes it: the tag, then the address in
      double quotes. */
  function IpReplyLine(quad: string): string {
    StaIpTag + ("\"" + quad + "\"")
  }

  /** A MAC line as the module writes it: the tag, then the address in
      double quotes. */
  function MacReplyLine(mac: string): string {
    StaMacTag + ("\"" + mac + "\"")
  }

  lemma IpReplyLineField(quad: string)
    requires Utf8.AllAscii(quad)
    ensures IsIpLine(IpReplyLine(quad)) && IpField(IpReplyLine(quad)) == Some(quad)
  {
    var line := IpReplyLine(quad);
    Utf8.AllAsciiAppend("\"", quad);
    Utf8.AllAsciiAppend("\"" + quad, "\"");
    Utf8.AllAsciiAppend(StaIpTag, "\"" + quad + "\"");
    assert line[..|StaIpTag|] == StaIpTag;
    IpFieldAscii(line);
    assert line[14..|line| - 1] == quad;
  }

  lemma MacReplyLineField(mac: string)
    requires Utf8.AllAscii(mac) && |mac| == 17
    ensures IsMacLine(MacReplyLine(mac)) && MacField(MacReplyLine(mac)) == Some(mac)
  {
    var line := MacReplyLine(mac);
    assert line[10] != StaIpTag[10];
    Utf8.AllAsciiAppend("\"", mac);
    Utf8.AllAsciiAppend("\"" + mac, "\"");
    Utf8.AllAsciiAppend(StaMacTag, "\"" + mac + "\"");
    MacFieldAscii(line);
    assert line[15..32] == mac;
  }

  /** What the address field of an address line decodes to. */
  lemma IpValueDottedQuad(ip: Ipv4Addr)
    ensures IpValue(DottedQuad(ip)) == Ok(if ip == Unspecified then None else Some(ip))
  {
    UnspecifiedText();
    ParseIpv4DottedQuad(ip);
    ParseIpv4DottedQuad(Unspecified);
  }

  lemma ReplyLinesOneLine(ip: Ipv4Addr, mac: string)
    requires '\n' !in mac
    ensures '\n' !in IpReplyLine(DottedQuad(ip)) + "\r" && '\n' !in MacReplyLine(mac)
  {
    DigitsAreAscii(Decimal(ip.a));
    DigitsAreAscii(Decimal(ip.b));
    DigitsAreAscii(Decimal(ip.c));
    DigitsAreAscii(Decimal(ip.d));
  }

  lemma ScanMacLine(macLine: string, ip: Option<Ipv4Addr>)
    requires IsMacLine(macLine) && MacField(macLine).Some?
    ensures Sliceable([macLine])
    ensures Scan([macLine], ip, None) == Ok((ip, MacField(macLine)))
  {
    assert [macLine][1..] == [];
  }

  /** An address line followed by a MAC line decode to that address and
      that MAC address. */
  lemma LocalAddressOfTwoLines(ipLine: string, macLine: string)
    requires IsIpLine(ipLine) && IpField(ipLine).Some? && IpValue(IpField(ipLine).value).Ok?
    requires IsMacLine(macLine) && MacField(macLine).Some?
    ensures Sliceable([ipLine, macLine])
    ensures LocalAddressOf([ipLine, macLine])
      == Ok(LocalAddress(IpValue(IpField(ipLine).value).value, MacField(macLine).value))
  {
    var lines := [ipLine, macLine];
    ScanMacLine(macLine, IpValue(IpField(ipLine).value).value);
    assert lines[1..] == [macLine];
  }

  /** The reply to `AT+CIFSR` for station address `ip` and MAC address `mac`
      decodes to those addresses, "0.0.0.0" standing for no address. */
  lemma LocalAddressRoundTrip(ip: Ipv4Addr, mac: string)
    requires Utf8.AllAscii(mac) && |mac| == 17 && '\n' !in mac
    ensures Sliceable(Str.Lines(IpReplyLine(DottedQuad(ip)) + "\r\n" + MacReplyLine(mac)))
    ensures LocalAddressOf(Str.Lines(IpReplyLine(DottedQuad(ip)) + "\r\n" + MacReplyLine(mac)))
      == Ok(LocalAddress(if ip == Unspecified then None else Some(ip), mac))
  {
    var ipLine, macLine := IpReplyLine(DottedQuad(ip)), MacReplyLine(mac);
    ReplyLinesOneLine(ip, mac);
    assert ipLine + "\r\n" + macLine == (ipLine + "\r") + "\n" + macLine;
    Str.LinesTwo(ipLine + "\r", macLine);
    assert Str.StripCR(ipLine + "\r") == ipLine;
    assert Str.StripCR(macLine) == macLine;
    QuadAscii(ip);
    IpReplyLineField(DottedQuad(ip));
    MacReplyLineField(mac);
    IpValueDottedQuad(ip);
    LocalAddressOfTwoLines(ipLine, macLine);
  }
}
