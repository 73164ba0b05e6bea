# espresso AT commands, modelled in Dafny

espresso is a driver for the ESP8266 Wi-Fi module, which is controlled over
a serial line with text AT commands. This project models the command layer
of the driver:

- how each AT command is rendered as the line sent to the module
  (`as_string`), inside a fixed-capacity `heapless::String` (`CommandLen`);
- how long the driver waits for the reply (`max_timeout_ms`);
- how each reply body is decoded (`parse`);
- how the unsolicited result codes (URCs) the module sends on its own are
  decoded: `+IPD` network-data notifications and everything else.

Modules:

- `Common`: `Option`, `Result` and the two errors the parsers return
  (`InvalidResponse`, `ParseString`).
- `Utf8`: Rust `&str` byte offsets over Dafny strings. It provides the UTF-8
  encoding, byte length and `str::get(a..b)`, so byte-offset slicing is
  exact for any text. `&s[a..b]` panics exactly when `Get` is `None`; those
  panics become preconditions.
- `Str`: `lines()`, `trim()`, `starts_with`, `find`, `split`,
  `trim_start_matches` and byte counting.
- `Numbers`: decimal rendering (`numtoa`), `u8` parsing, and IPv4 addresses
  in dotted-quad form.
- `Types`: `WifiMode`, `ConnectionId`, `MultiplexingType`, `Protocol`,
  `ConnectionStatus`.
- `Heapless`: class `HString`, a byte buffer of fixed capacity standing for
  `heapless::String<N>`. `push`/`push_str` fail when the text does not fit;
  each `.unwrap()` in the driver is an `assert ok`, so the proofs show that
  no encoder panics.
- `Responses`: the reply records.
- `Requests`: the thirteen commands.
- `Urcs`: `NetworkData::from_urc` and `EspUrc::parse`.

The encoders are methods that build the line in an `HString` step by step,
as the driver does. Each is proved to produce the UTF-8 bytes of a
specification function `Text(c)` and to stay within the command's capacity.
Each decoder is a function whose contract says which replies succeed and
what they decode to. The two decoders that loop over the reply's lines
(`JoinAccessPoint` and `GetLocalAddress`) are methods proved equal to such
a function, and lemmas state what that function promises. Round-trip lemmas show that a reply written the way the
module writes it decodes to the value it carries.

## Model

| member | source | states |
|---|---|---|
| Types.WifiMode.AsAtStr | src/types.rs:15-21 | the mode code is one character from '1' to '3' |
| Types.AsAtStrInjective | src/types.rs:15-21 | different modes have different codes, so the code determines the mode |
| Types.ConnectionIdAsAtStr | src/commands/requests.rs:385-387 | a link identifier is written as one decimal digit whose value is the identifier |
| Types.ConnectionIdTryFrom | src/commands/urcs.rs:49-50 | accepts exactly one digit from 0 to 4 (else `ParseString`), and is the inverse of `ConnectionIdAsAtStr` on what it accepts |
| Types.ConnectionIdRoundTrip | src/commands/urcs.rs:49-50 | parsing a written identifier gives it back |
| Types.Protocol.AsAtStr | src/commands/requests.rs:390-392 | the protocol name is three characters |
| Heapless.HString.From | src/commands/requests.rs:382 | `String::from` copies the text into a fresh buffer of the given capacity, and needs it to fit |
| Heapless.HString.PushStr | src/commands/requests.rs:386 | succeeds exactly when the text fits the remaining capacity; on success text and length grow by the pushed text, on failure nothing changes |
| Heapless.HString.Push | src/commands/requests.rs:387 | the same for one character, of width 1 to 4 bytes |
| Heapless.HString.Bytes | src/commands/requests.rs:416 | the buffer's used bytes are the UTF-8 encoding of the text |
| Numbers.Decimal | src/commands/requests.rs:400 | `numtoa_str(10, ..)` writes one or more decimal digits with no leading zero |
| Numbers.DigitsValueDecimal | src/commands/requests.rs:400 | the digits written denote the number |
| Numbers.DecimalWidths | src/commands/requests.rs:457-461 | an octet takes at most 3 digits and a port or length at most 5; 255 takes exactly 3 and 65535 exactly 5 |
| Numbers.ParseU8 | src/commands/requests.rs:306-308 | `str::parse::<u8>`: an optional '+', then digits whose value is below 256 |
| Numbers.Ipv4Addr.Octets | src/commands/requests.rs:396 | an address has four octets |
| Numbers.ParseIpv4 | src/commands/requests.rs:336 | accepted text splits at '.' into four octets of 1 to 3 digits each, whose values are the address |
| Numbers.ParseIpv4DottedQuad | src/commands/requests.rs:336 | parsing the dotted quad of an address gives the address back |
| Str.TrimEmptyIff | src/commands/requests.rs:29 | `trim()` leaves nothing exactly when every character is Unicode white space |
| Str.Lines | src/commands/requests.rs:50 | `lines()` gives no lines for empty text, and no line holds a '\n' |
| Str.Trim | src/commands/requests.rs:29 | what `trim()` leaves neither starts nor ends with Unicode white space |
| Str.LinesCons | src/commands/requests.rs:50 | `lines()` splits at the first '\n' and drops one '\r' before it |
| Str.IndexOf | src/commands/urcs.rs:36 | `find` gives the first occurrence, and `None` exactly when there is none |
| Str.Split | src/commands/urcs.rs:49 | `split` gives at least one piece, and no piece holds the separator |
| Str.SplitCons | src/commands/urcs.rs:49 | the first piece of `split` is the text before the first separator |
| Str.TrimStartMatches | src/commands/urcs.rs:35 | after `trim_start_matches` the text no longer starts with the pattern |
| Str.TrimStartMatchesShape | src/commands/urcs.rs:35 | what `trim_start_matches` drops is a whole number of copies of the pattern |
| Str.TrimStartMatchesOnce | src/commands/urcs.rs:35 | one copy of the pattern in front of text that does not start with it is exactly what is dropped |
| Str.CountAsciiByte | src/commands/urcs.rs:40 | counting an ASCII byte in the UTF-8 bytes of a text counts that character in the text |
| Utf8.Get | src/commands/requests.rs:118 | `str::get(a..b)` is `None` exactly when `a > b` or an offset is not a char boundary (past the end included); otherwise its bytes are bytes `a` to `b` of the text |
| Utf8.GetAfterAsciiPrefix | src/commands/requests.rs:118 | after an ASCII prefix of n characters, `get(n..n+1)` is the next character exactly when that character is ASCII |
| Utf8.GetAscii | src/commands/requests.rs:330 | on ASCII text byte slicing is character slicing |
| Requests.MaxTimeoutMs | src/commands/requests.rs:213-556 | exactly ListAccessPoints, JoinAccessPoint, EstablishConnection, PrepareSendData, SendData and CloseConnection set a timeout, each between 5 and 30 seconds; joining an access point waits 25 seconds |
| Requests.ModePrefix | src/commands/requests.rs:175-179 | the `SetWifiMode` head is 14 ASCII bytes |
| Requests.JoinPrefix | src/commands/requests.rs:248-252 | the `JoinAccessPoint` head is 13 ASCII bytes |
| Requests.CommandLen | src/commands/requests.rs:21-533 | the buffer capacity of each command: the declared sizes, except 45 bytes for `EstablishConnection` (see Findings); no contract of its own, its meaning is stated by `FixedLength` and `AsString` |
| Requests.FixedLength | src/commands/requests.rs:20-26 | each parameterless command line is exactly as long as its `CommandLen` |
| Requests.EncodeFixed | src/commands/requests.rs:24-26 | a parameterless command is built without overflow and fills its buffer exactly |
| Requests.EncodeSetWifiMode | src/commands/requests.rs:174-183 | `SetWifiMode` builds its line, which is always 17 bytes, its full capacity |
| Requests.EncodeJoinAccessPoint | src/commands/requests.rs:247-261 | `JoinAccessPoint` builds its line of 20 bytes plus the credentials; with a 32-byte SSID and a 64-byte key it stays within 116 bytes |
| Requests.PushDottedQuad | src/commands/requests.rs:396-404 | the octet loop appends the address's dotted quad |
| Requests.PushMuxField | src/commands/requests.rs:383-389 | a multiplexed command appends its link identifier and a comma, a single connection appends nothing |
| Requests.PushEstablishFields | src/commands/requests.rs:383-393 | appends the link field, the quoted protocol and a comma |
| Requests.PushEstablishTail | src/commands/requests.rs:405-415 | appends the closing quote, a comma, the port and the line end |
| Requests.BuildEstablishConnection | src/commands/requests.rs:379-417 | in a buffer the line fits, `EstablishConnection` builds exactly its line |
| Requests.PushEstablishLine | src/commands/requests.rs:382-416 | after the command head, the pushes append the fields, the address and the tail, giving exactly the bytes of the whole line |
| Requests.EncodeEstablishConnection | src/commands/requests.rs:375-417 | with a 45-byte buffer every `EstablishConnection` line is built without overflow |
| Requests.EncodeEstablishConnectionAsWritten | src/commands/requests.rs:376-417 | with the declared 42-byte buffer the line is built only when it is at most 42 bytes |
| Requests.QuadLength | src/commands/requests.rs:396-404 | a dotted quad is 7 to 15 characters |
| Requests.EstablishConnectionFits | src/commands/requests.rs:376 | every `EstablishConnection` line is at most 45 bytes |
| Requests.EstablishConnectionWorstCase | src/commands/requests.rs:376 | a multiplexed connection to 255.255.255.255:65535 takes all 45 bytes |
| Requests.EstablishConnectionOverflowsAsWritten | src/commands/requests.rs:376 | a single connection to 255.255.255.255:65535 is 43 bytes, more than the declared 42 |
| Requests.EncodePrepareSendData | src/commands/requests.rs:447-465 | `PrepareSendData` builds its line of 13 bytes plus the link field and the digits of the length, at most 20 |
| Requests.PushPrepareFields | src/commands/requests.rs:449-463 | appends the link field, the length in decimal and the line end |
| Requests.PushPrepareLine | src/commands/requests.rs:448-464 | after the command head, the pushes give exactly the bytes of the whole line and its length |
| Requests.PrepareSendDataWorstCase | src/commands/requests.rs:444 | the longest `PrepareSendData` line fills its 20 bytes |
| Requests.EncodeCloseConnection | src/commands/requests.rs:536-548 | `CloseConnection` builds its line of 13 bytes, or 15 with a link identifier |
| Requests.PushCloseFields | src/commands/requests.rs:538-546 | appends "=" and the identifier when multiplexed, then the line end |
| Requests.PushCloseLine | src/commands/requests.rs:537-547 | after the command head, the pushes give exactly the bytes of the whole line, 2 bytes longer than the head, or 4 with a link |
| Requests.EncodeSendData | src/commands/requests.rs:506-508 | `SendData` sends the data unchanged, within its capacity `L` |
| Requests.AsString | src/commands/requests.rs:20-557 | every command that can be constructed builds exactly its line, within its `CommandLen` |
| Requests.ParseEmptyBody | src/commands/requests.rs:28-34 | success exactly when the body is all white space, else `InvalidResponse` |
| Requests.ParseIgnoringBody | src/commands/requests.rs:419-421 | always succeeds |
| Requests.ParseFirmwareVersion | src/commands/requests.rs:49-78 | success exactly when the first three lines carry the three tags; each field is its line after the tag; anything else is `ParseString` |
| Requests.ParseFirmwareLines | src/commands/requests.rs:53-77 | over the lines of the body: success exactly when the first three lines carry the three tags, each field then being its line after the tag and at most 32 characters; otherwise `ParseString` |
| Requests.FirmwareVersionRoundTrip | src/commands/requests.rs:49-78 | a reply of the three tagged lines decodes to its three fields, whatever follows |
| Requests.FirmwareReplyLines | src/commands/requests.rs:50 | the first three lines of a firmware reply are its tagged fields, without the '\r' |
| Requests.FirmwareOfLines | src/commands/requests.rs:53-77 | lines that start with the three tagged fields decode to exactly those fields |
| Requests.ModeReplyTag | src/commands/requests.rs:115 | the reply tag is 12 ASCII characters |
| Requests.ParseWifiMode | src/commands/requests.rs:114-124 | success exactly when the tag is followed by a code from '1' to '3', which names the mode; else `InvalidResponse` |
| Requests.WifiModeRoundTrip | src/commands/requests.rs:114-124 | the reply for a mode decodes to that mode |
| Requests.ParseU8OneChar | src/commands/requests.rs:306-308 | one character parses as a `u8` exactly when it is a digit, to that digit's value |
| Requests.StatusOfCode | src/commands/requests.rs:301-308 | codes 2 to 5 are the named statuses, any other digit is `Other` with its value, and anything else is `ParseString` |
| Requests.ParseConnectionStatus | src/commands/requests.rs:297-311 | no tag, or no ASCII character at byte 7, is `InvalidResponse`; an ASCII non-digit is `ParseString`; a digit decodes as `StatusOfCode` says |
| Requests.LastVerdictConnected | src/commands/requests.rs:268-275 | the last connect or disconnect line says "connected" exactly when some "WIFI CONNECTED" line is not followed by "WIFI DISCONNECTED" |
| Requests.ParseJoinAccessPoint | src/commands/requests.rs:263-277 | never fails; `got_ip` exactly when a "WIFI GOT IP" line occurs; `connected` exactly when a "WIFI CONNECTED" line is not withdrawn later |
| Requests.IpField | src/commands/requests.rs:332 | the address slice, where it exists, is the line's byte length less 15 bytes |
| Requests.IpFieldAscii | src/commands/requests.rs:332 | on an ASCII address line the slice exists exactly when the line has at least 15 characters, and is the text between the opening quote and the last character |
| Requests.MacField | src/commands/requests.rs:339 | the MAC slice, where it exists, is 17 bytes of a line of at least 32 bytes |
| Requests.MacFieldAscii | src/commands/requests.rs:339 | on an ASCII line the MAC slice exists exactly when the line has at least 32 characters, and is characters 15 to 31 |
| Requests.IpValue | src/commands/requests.rs:332-336 | "0.0.0.0" and only it means no address; decoding fails, with `ParseString`, exactly when other text does not parse as an address; otherwise it is the parsed address |
| Requests.Scan | src/commands/requests.rs:328-341 | scanning the lines fails only with `ParseString`; a MAC address it keeps is 17 bytes |
| Requests.LocalAddressOf | src/commands/requests.rs:326-346 | a decoded MAC address is 17 bytes; every failure is `ParseString` |
| Requests.Sliceable | src/commands/requests.rs:330-340 | the slices the decoder takes exist on every line it reaches (it panics otherwise), up to the first address that does not parse; its meaning on ASCII replies is `SliceableAscii` |
| Requests.SliceableAscii | src/commands/requests.rs:332-339 | ASCII replies whose address lines have at least 15 characters and whose MAC lines have at least 32 never make the decoder panic |
| Requests.ScanWithoutMac | src/commands/requests.rs:338-340 | lines without a MAC line leave the MAC address as it was |
| Requests.ScanWithoutAddress | src/commands/requests.rs:331-337 | lines without an address line cannot fail and leave the address as it was |
| Requests.LocalAddressWithoutMac | src/commands/requests.rs:343-345 | a reply without a MAC line is a `ParseString` error |
| Requests.LocalAddressWithoutAddress | src/commands/requests.rs:329-345 | a reply without an address line decodes, if at all, to no address |
| Requests.LocalAddressBadAddress | src/commands/requests.rs:336 | an address that does not parse makes the reply a `ParseString` error, wherever it stands |
| Requests.LocalAddressLastMac | src/commands/requests.rs:339 | the last MAC line gives the decoded MAC address, and decoding then fails only on a bad address |
| Requests.LocalAddressLastAddress | src/commands/requests.rs:332-336 | the last address line gives the decoded address: none for 0.0.0.0, otherwise the parsed one |
| Requests.ScanAppend | src/commands/requests.rs:328-341 | scanning two runs of lines is scanning the first and carrying its state into the second |
| Requests.ParseLocalAddress | src/commands/requests.rs:326-346 | the line loop keeps the latest address and MAC address and yields exactly `LocalAddressOf`, whose promises are the `LocalAddressWithout*`, `LocalAddressBadAddress` and `LocalAddressLast*` lemmas |
| Requests.IpReplyLineField | src/commands/requests.rs:330-331 | the address field of an address line is the text between its quotes |
| Requests.MacReplyLineField | src/commands/requests.rs:338-339 | the MAC field of a MAC line is the 17 characters between its quotes |
| Requests.IpValueDottedQuad | src/commands/requests.rs:332-336 | an address's dotted quad decodes to the address, or to no address for 0.0.0.0 |
| Requests.LocalAddressOfTwoLines | src/commands/requests.rs:326-346 | an address line followed by a MAC line decodes to that address and that MAC address |
| Requests.LocalAddressRoundTrip | src/commands/requests.rs:326-346 | the module's reply for an address and a MAC address decodes to them, 0.0.0.0 standing for no address |
| Urcs.Header | src/commands/urcs.rs:35-39 | the parameters are the text before the first ':' and hold none; the rest starts with that ':' |
| Urcs.ConnectionIdOf | src/commands/urcs.rs:40-53 | 0 or 2 commas mean no identifier; 1 or 3 commas need an identifier before the first comma; any other count is `ParseString` |
| Urcs.FirstPiece | src/commands/urcs.rs:49 | when a comma occurs, the first piece is the text before it |
| Urcs.Body | src/commands/urcs.rs:35 | the text left after `trim_start_matches` does not start with the prefix, and text without the prefix is left as it is |
| Urcs.FromUrcAsWritten | src/commands/urcs.rs:31-58 | succeeds exactly when the prefix, a ':' and a valid comma count are present; the connection identifier is the one the comma count decides; the data is the ':' followed by the payload |
| Urcs.FromUrc | src/commands/urcs.rs:31-58 | the same acceptance and connection identifier, with the data being the payload after the ':' |
| Urcs.ParseUrcAsWritten | src/commands/urcs.rs:64-70 | a URC without the prefix is kept whole as `Other`; one with it decodes as `from_urc` as written, or fails with `ParseString` |
| Urcs.ParseUrc | src/commands/urcs.rs:64-70 | the same, on top of the corrected `FromUrc` |
| Urcs.NotificationParamsShape | src/commands/urcs.rs:40-53 | the parameters the module sends give back their connection identifier |
| Urcs.NotificationHeader | src/commands/urcs.rs:32-39 | a notification splits into its parameters and ':' + payload |
| Urcs.FromUrcRoundTrip | src/commands/urcs.rs:31-58 | a notification decodes to its connection identifier and payload bytes |
| Urcs.FromUrcAsWrittenKeepsColon | src/commands/urcs.rs:36-56 | as written, the data of every notification is ':' followed by the payload, never the payload alone |
| Urcs.ColonBytes | src/commands/urcs.rs:56 | the bytes copied as written are the ':' byte followed by the payload's bytes |
| Urcs.ParseUrcRoundTrip | src/commands/urcs.rs:64-70 | with the corrected `FromUrc`, a notification is recognised as network data and decoded to its identifier and payload |
| Urcs.ParseUrcAsWrittenKeepsColon | src/commands/urcs.rs:64-70 | as written, a notification is recognised as network data whose data is ':' followed by the payload |

## Left out

- The atat framework around the commands is not part of this model. That
  covers the client, the digester that splits the serial stream into
  replies and URCs, its `+IPD` framer and the default timeout. Commands
  that keep the framework's default timeout return `None` from
  `MaxTimeoutMs`.
- `src/lib.rs`, the driver object that sends the commands, is not part of
  this model.
- The IPv6 branch of `EstablishConnection::as_string` panics
  (`unimplemented!`). The model has IPv4 socket addresses only.
- The `println!` in the `ListAccessPoints` and `SendData` parsers is I/O
  and is left out. Those parsers, like the ones of `EstablishConnection`,
  `PrepareSendData` and `CloseConnection`, do not look at the body.
- The definitions of `ConnectionId`, `MultiplexingType`, `Protocol` and
  `ConnectionStatus` are not part of this model's source files. They are
  modelled from their uses in requests.rs and urcs.rs. A `ConnectionId` is
  one of 0 to 4, written as one digit, and `try_from` accepts exactly that
  digit.
- `no_std_net`'s IPv4 parser and `numtoa` are not part of this model. They
  are modelled by `Numbers.ParseIpv4` and `Numbers.Decimal`. The parser
  takes four parts of 1 to 3 digits with values up to 255, and accepts
  leading zeros.
- The command constructors (`SetWifiMode::to`, `JoinAccessPoint::new`,
  `EstablishConnection::tcp`/`udp`, `PrepareSendData::new`,
  `SendData::new`, `CloseConnection::new`) are datatype values.
  `Requests.Constructible` holds their capacity limits: an SSID of at most
  32 bytes, a key of at most 64 bytes, and data no longer than `L`.
- Panics are preconditions:
  - `String::from` of text too long for its buffer;
  - slicing outside the text or inside a character;
  - `Vec::from_iter` of more than 2048 bytes.

  The preconditions cover only the inputs that reach the panicking
  statement.
- Urcs.ParseUrc: composes the corrected `FromUrc`, so its data has no
  leading ':' (see Findings). `Urcs.ParseUrcAsWritten` is the composition
  with `from_urc` as written.
- Requests.CommandLen uses 45 for `EstablishConnection`, the corrected
  capacity (see Findings). The declared 42 is `EstablishConnectionLenAsWritten`.

## Findings

| source | as written | input that shows it | evidently intended | confidence | as-written member | corrected member |
|---|---|---|---|---|---|---|
| src/commands/requests.rs:376 | `EstablishConnection` builds its line in a 42-byte `String`, and every push is unwrapped | a single connection to 255.255.255.255:65535 needs 43 bytes; a multiplexed one needs 45; the last push panics | a capacity of 45 bytes, the longest line | high, not executed | Requests.EstablishConnectionOverflowsAsWritten | Requests.EncodeEstablishConnection |
| src/commands/urcs.rs:37 | `split_at(index)` of the ':' position leaves the ':' at the start of `data`, which is copied into `NetworkData.data` | "+IPD,5:hello" gives data ":hello" | data "hello", the bytes after the ':' | high, not executed | Urcs.FromUrcAsWrittenKeepsColon | Urcs.FromUrcRoundTrip |
