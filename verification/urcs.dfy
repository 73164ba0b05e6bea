/** Unsolicited result codes: lines the module sends on its own. Incoming
    network data arrives as `+IPD,<params>:<data>`; anything else is kept as
    raw bytes. Both payloads live in 2048-byte buffers (`Vec<u8, U2048>`). */
module Urcs {
  import opened Common
  import opened Types
  import Utf8
  import Str
  import Numbers

  /** Capacity of the byte buffers that hold URC payloads. */
  const BufferCapacity := 2048

  /** `NetworkData::PREFIX`. */
  const Prefix := "+IPD,"

  /** Incoming data from the network. The connection identifier is present
      only in multiplexed mode. */
  datatype NetworkData = NetworkData(connection_id: Option<ConnectionId>, data: seq<byte>)

  datatype EspUrc = NetworkDataUrc(network: NetworkData) | Other(bytes: seq<byte>)

  /** `trim_start_matches(PREFIX)`: the notification without its prefix
      (every leading copy of it). */
  function Body(urc: string): (r: string)
    ensures !Str.StartsWith(r, Prefix)
    ensures !Str.StartsWith(urc, Prefix) ==> r == urc
  {
    Str.TrimStartMatches(urc, Prefix)
  }

  /** `split_at(find(':'))`: the parameters before the first ':' and the
      text from that ':' on. */
  function Header(urc: string): (r: Option<(string, string)>)
    ensures r.None? <==> ':' !in Body(urc)
    ensures r.Some? ==> r.value.0 + r.value.1 == Body(urc)
    ensures r.Some? ==> ':' !in r.value.0 && r.value.1 != [] && r.value.1[0] == ':'
  {
    var body := Body(urc);
    match Str.IndexOf(body, ':')
    case None => None
    case Some(i) => Some((body[..i], body[i..]))
  }

  /** The connection identifier the parameters carry, decided by how many
      commas they hold: none or two (no identifier), one or three (the
      identifier is the text before the first comma), anything else is an
      error. */
  function ConnectionIdOf(params: string): (r: Result<Option<ConnectionId>>)
    ensures r.Err? ==> r.error == ParseString
    ensures r.Ok? && r.value.None? <==> Str.CountChar(params, ',') in {0, 2}
    ensures r.Ok? && r.value.Some? <==>
      Str.CountChar(params, ',') in {1, 3} && ConnectionIdTryFrom(Str.Split(params, ',')[0]).Ok?
    ensures r.Ok? && r.value.Some? ==>
      Str.StartsWith(params, ConnectionIdAsAtStr(r.value.value) + ",")
  {
    Str.CountAsciiByte(params, ',');
    var commas := Str.CountByte(Utf8.Encode(params), ',' as int);
    if commas == 0 || commas == 2 then Ok(None)
    else if commas == 1 || commas == 3 then
      var raw := Str.Split(params, ',')[0];
      match ConnectionIdTryFrom(raw)
      case Err(e) => Err(e)
      case Ok(id) =>
        FirstPiece(params, ',');
        assert params[..|raw|] == raw;
        assert params[..|raw| + 1] == raw + ",";
        Ok(Some(id))
    else Err(ParseString)
  }

  /** When `c` occurs, the first piece of the split is what precedes its
      first occurrence. */
  lemma FirstPiece(s: string, c: char)
    requires Str.CountChar(s, c) > 0
    ensures var piece := Str.Split(s, c)[0];
      |piece| < |s| && s[..|piece|] == piece && s[|piece|] == c
  {
    CountCharIn(s, c);
  }

  lemma {:induction false} CountCharIn(s: string, c: char)
    requires Str.CountChar(s, c) > 0
    ensures c in s
  {
    if s[0] != c {
      CountCharIn(s[1..], c);
    }
  }

  /** The decoder reaches the copy of the data into the buffer. */
  predicate ReachesCopy(urc: string) {
    Str.StartsWith(urc, Prefix) && Header(urc).Some? && ConnectionIdOf(Header(urc).value.0).Ok?
  }

  /** The copy as written does not overflow the buffer (it panics otherwise). */
  predicate FitsAsWritten(urc: string) {
    ReachesCopy(urc) ==> Utf8.Len(Header(urc).value.1) <= BufferCapacity
  }

  /** The corrected copy, which leaves out the ':', does not overflow the
      buffer. */
  predicate Fits(urc: string) {
    ReachesCopy(urc) ==> Utf8.Len(Header(urc).value.1[1..]) <= BufferCapacity
  }

  /** `NetworkData::from_urc` as written: the data is everything from the
      first ':' on, the ':' included. */
  function FromUrcAsWritten(urc: string): (r: Result<NetworkData>)
    requires FitsAsWritten(urc)
    ensures r.Ok? <==> ReachesCopy(urc)
    ensures r.Err? ==> r.error == ParseString
    ensures r.Ok? ==> ConnectionIdOf(Header(urc).value.0) == Ok(r.value.connection_id)
    ensures r.Ok? ==> |r.value.data| <= BufferCapacity
    ensures r.Ok? ==> r.value.data == [':' as int] + Utf8.Encode(Header(urc).value.1[1..])
  {
    if !Str.StartsWith(urc, Prefix) then Err(ParseString)
    else
      match Header(urc)
      case None => Err(ParseString)
      case Some((params, data)) =>
        match ConnectionIdOf(params)
        case Err(e) => Err(e)
        case Ok(id) =>
          assert data == [':'] + data[1..];
          Utf8.EncodeAppend([':'], data[1..]);
          assert Utf8.Encode([':']) == [':' as int] by {
            assert [':'][1..] == [];
          }
          Ok(NetworkData(id, Utf8.Encode(data)))
  }

  /** `NetworkData::from_urc` corrected: the data is what follows the first
      ':'. */
  function FromUrc(urc: string): (r: Result<NetworkData>)
    requires Fits(urc)
    ensures r.Ok? <==> ReachesCopy(urc)
    ensures r.Err? ==> r.error == ParseString
    ensures r.Ok? ==> ConnectionIdOf(Header(urc).value.0) == Ok(r.value.connection_id)
    ensures r.Ok? ==> |r.value.data| <= BufferCapacity
    ensures r.Ok? ==> r.value.data == Utf8.Encode(Header(urc).value.1[1..])
  {
    if !Str.StartsWith(urc, Prefix) then Err(ParseString)
    else
      match Header(urc)
      case None => Err(ParseString)
      case Some((params, data)) =>
        match ConnectionIdOf(params)
        case Err(e) => Err(e)
        case Ok(id) => Ok(NetworkData(id, Utf8.Encode(data[1..])))
  }

  /** What a URC demands of its length: a `+IPD` notification's data fits the
      buffer, and any other URC fits it whole. */
  predicate UrcFits(urc: string) {
    if Str.StartsWith(urc, Prefix) then Fits(urc) else Utf8.Len(urc) <= BufferCapacity
  }

  /** `EspUrc::parse`: a `+IPD` notification is decoded, anything else is
      kept as its bytes. */
  function ParseUrc(urc: string): (r: Result<EspUrc>)
    requires UrcFits(urc)
    ensures r.Ok? && r.value.Other? <==> !Str.StartsWith(urc, Prefix)
    ensures r.Ok? && r.value.Other? ==> r.value.bytes == Utf8.Encode(urc)
    ensures Str.StartsWith(urc, Prefix) ==>
      (r.Ok? <==> ReachesCopy(urc)) && (r.Ok? ==> r.value == NetworkDataUrc(FromUrc(urc).value))
    ensures r.Err? ==> r.error == ParseString
  {
    if Str.StartsWith(urc, Prefix) then
      match FromUrc(urc)
      case Err(e) => Err(e)
      case Ok(nd) => Ok(NetworkDataUrc(nd))
    else Ok(EspUrc.Other(Utf8.Encode(urc)))
  }

  /** What `EspUrc::parse` as written demands of its input: a `+IPD`
      notification's data, with its ':', fits the buffer, and any other URC
      fits it whole. */
  predicate UrcFitsAsWritten(urc: string) {
    if Str.StartsWith(urc, Prefix) then FitsAsWritten(urc) else Utf8.Len(urc) <= BufferCapacity
  }

  /** `EspUrc::parse` as written, on top of `from_urc` as written: network
      data keeps the ':' in front of the payload. */
  function ParseUrcAsWritten(urc: string): (r: Result<EspUrc>)
    requires UrcFitsAsWritten(urc)
    ensures r.Ok? && r.value.Other? <==> !Str.StartsWith(urc, Prefix)
    ensures r.Ok? && r.value.Other? ==> r.value.bytes == Utf8.Encode(urc)
    ensures Str.StartsWith(urc, Prefix) ==>
      (r.Ok? <==> ReachesCopy(urc)) && (r.Ok? ==> r.value == NetworkDataUrc(FromUrcAsWritten(urc).value))
    ensures r.Err? ==> r.error == ParseString
  {
    if Str.StartsWith(urc, Prefix) then
      match FromUrcAsWritten(urc)
      case Err(e) => Err(e)
      case Ok(nd) => Ok(NetworkDataUrc(nd))
    else Ok(EspUrc.Other(Utf8.Encode(urc)))
  }

  /** The parameters the module sends before the data: the connection
      identifier in multiplexed mode, then the data length in bytes. */
  function NotificationParams(id: Option<ConnectionId>, length: nat): string {
    match id
    case None => Numbers.Decimal(length)
    case Some(i) => ConnectionIdAsAtStr(i) + "," + Numbers.Decimal(length)
  }

  /** A `+IPD` notification carrying `payload`. */
  function Notification(id: Option<ConnectionId>, payload: string): string {
    Prefix + (NotificationParams(id, Utf8.Len(payload)) + (":" + payload))
  }

  lemma CountCharAbsent(s: string, c: char)
    requires c !in s
    ensures Str.CountChar(s, c) == 0
  {
    if s != [] {
      CountCharAbsent(s[1..], c);
    }
  }

  /** The parameters hold no ':' and at most one comma, which follows the
      identifier. */
  lemma NotificationParamsShape(id: Option<ConnectionId>, length: nat)
    ensures var params := NotificationParams(id, length);
      && params != [] && Numbers.IsDigit(params[0]) && ':' !in params
      && ConnectionIdOf(params) == Ok(id)
  {
    var digits := Numbers.Decimal(length);
    Numbers.DigitsAreAscii(digits);
    CountCharAbsent(digits, ',');
    match id
    case None =>
    case Some(i) =>
      var params := NotificationParams(id, length);
      var tag := ConnectionIdAsAtStr(i);
      assert params == tag + [','] + digits;
      assert params[0] != ',' && params[1..][0] == ',' && params[1..][1..] == digits;
      assert Str.CountChar(params, ',') == 1;
      Str.SplitCons(tag, ',', digits);
      ConnectionIdRoundTrip(i);
  }

  /** How the decoder cuts a notification: the parameters, then the data
      with its leading ':'. */
  lemma NotificationHeader(id: Option<ConnectionId>, payload: string)
    ensures var urc := Notification(id, payload);
      && ReachesCopy(urc)
      && Header(urc) == Some((NotificationParams(id, Utf8.Len(payload)), ":" + payload))
  {
    var params := NotificationParams(id, Utf8.Len(payload));
    NotificationParamsShape(id, Utf8.Len(payload));
    HeaderOf(params, payload);
  }

  /** Text after the prefix that does not itself start with '+' is cut at
      its first ':'. */
  lemma HeaderOf(params: string, rest: string)
    requires params != [] && params[0] != '+' && ':' !in params
    ensures Str.StartsWith(Prefix + (params + (":" + rest)), Prefix)
    ensures Header(Prefix + (params + (":" + rest))) == Some((params, ":" + rest))
  {
    var body := params + (":" + rest);
    var urc := Prefix + body;
    assert urc[..|Prefix|] == Prefix;
    assert !Str.StartsWith(body, Prefix) by {
      assert body[0] == params[0];
    }
    Str.TrimStartMatchesOnce(Prefix, body);
    Str.IndexOfAfter(params, ':', rest);
    assert params + [':'] + rest == body;
  }

  /** A notification decodes to its connection identifier and payload. */
  lemma FromUrcRoundTrip(id: Option<ConnectionId>, payload: string)
    requires Utf8.Len(payload) <= BufferCapacity
    ensures Fits(Notification(id, payload))
    ensures FromUrc(Notification(id, payload)) == Ok(NetworkData(id, Utf8.Encode(payload)))
  {
    var urc := Notification(id, payload);
    NotificationHeader(id, payload);
    NotificationParamsShape(id, Utf8.Len(payload));
    assert Header(urc).value.1[1..] == payload;
  }

  /** As written, the decoded data of every notification starts with the
      ':' that separates it from the parameters; `"+IPD,5:hello"` yields
      `":hello"`, not `"hello"`. */
  lemma FromUrcAsWrittenKeepsColon(id: Option<ConnectionId>, payload: string)
    requires Utf8.Len(payload) < BufferCapacity
    ensures FitsAsWritten(Notification(id, payload))
    ensures FromUrcAsWritten(Notification(id, payload))
      == Ok(NetworkData(id, [':' as int] + Utf8.Encode(payload)))
    ensures FromUrcAsWritten(Notification(id, payload)).value.data != Utf8.Encode(payload)
  {
    var urc := Notification(id, payload);
    NotificationHeader(id, payload);
    NotificationParamsShape(id, Utf8.Len(payload));
    ColonBytes(payload);
    assert FromUrcAsWritten(urc).value.data == Utf8.Encode(":" + payload);
    var wire := Utf8.Encode(payload);
    assert |[':' as int] + wire| != |wire|;
  }

  /** The bytes of ':' followed by a payload. */
  lemma ColonBytes(payload: string)
    ensures Utf8.Encode(":" + payload) == [':' as int] + Utf8.Encode(payload)
    ensures Utf8.Len(":" + payload) == 1 + Utf8.Len(payload)
  {
    Utf8.EncodeAppend(":", payload);
    Utf8.EncodeAllAscii(":");
  }

  /** A notification is recognised as network data and decoded. */
  lemma ParseUrcRoundTrip(id: Option<ConnectionId>, payload: string)
    requires Utf8.Len(payload) <= BufferCapacity
    ensures UrcFits(Notification(id, payload))
    ensures ParseUrc(Notification(id, payload))
      == Ok(NetworkDataUrc(NetworkData(id, Utf8.Encode(payload))))
  {
    FromUrcRoundTrip(id, payload);
  }

  /** As written, a notification is recognised as network data whose data
      starts with the ':'. */
  lemma ParseUrcAsWrittenKeepsColon(id: Option<ConnectionId>, payload: string)
    requires Utf8.Len(payload) < BufferCapacity
    ensures UrcFitsAsWritten(Notification(id, payload))
    ensures ParseUrcAsWritten(Notification(id, payload))
      == Ok(NetworkDataUrc(NetworkData(id, [':' as int] + Utf8.Encode(payload))))
  {
    FromUrcAsWrittenKeepsColon(id, payload);
  }
}
