# x32app: the OSC codec and the fade engine, in Dafny

x32app is a desktop remote control for Behringer X32/M32 digital mixers. The mixer is driven
over UDP with Open Sound Control (OSC) messages. This project models the core of the program
and proves properties of that model:

- **the OSC codec of package `osc`** (modules `OscUtil`, `OscMessage`, `Osc` and `OscPrint`):
  - the padding and big-endian helpers;
  - the `Message` record with its `Add…` builders, `MakePacket` and the cursor-based
    `ParseMessage`;
  - `DecodeArgument`;
  - `SendString`, `Send`, `Listen` and `Inquire`, with the socket turned into parameters;
  - the `~`-for-NUL debug rendering `String`.
- **the helpers of package main** (module `Util`): the OSC address of each of the 80 channel ids
  (channels, aux ins, fx returns, buses, matrices, the two mains and the DCAs), the name and
  fader paths, `isValidIP`, `getDist` and the fader's level message.
- **the fade engine** (modules `Fade` and `Comm`):
  - the conversion of unit values (0 to 1) to fader steps;
  - one float message per step;
  - the send loop that gives up after ten failures in a row or when the fader is deactivated;
  - the `mixer` and `fader` objects, with `newX32`, `setFaderResolution`, `makeFade` and
    `fadeTo`;
  - the older `makeFade` of comm.go;
  - `establishConnection`.

The support modules:

- `Wrappers` holds `Option` and `Result`.
- `GoTypes` holds the byte and integer types of Go.
- `GoText` holds the parts of `fmt`, `strconv`, `strings` and `unicode/utf8` that the core uses:
  `%d` and `%02d`, `Atoi`, `TrimSpace`, `Count`, `Split` at one colon, and UTF-8 encoding and rune
  widths.

Modelling choices:

- **Values and state.** Go's `Message` is a record whose methods update it in place. It is a
  `class` here, and its methods state their whole new state. The mixer and the faders are
  classes too. Pure Go functions are Dafny functions, and Go loops are `while` loops with their
  invariants.
- **Floats.** A `float32` is a real where only its order and its truncation matter: unit values,
  `u * faderResolution`, and `int(...)`. Where bits go on the wire, a float32 is its 32-bit
  pattern, `Float32Bits`. The pattern of `float32(i) / faderResolution` is a parameter
  `levelBits`.
- **The outside world** becomes parameters. Each write or read of a connection is a boolean
  (`writeOk`, `readOk`, or `sendOk(i)` for the i-th send). A datagram received is a byte
  sequence. `net.ParseIP` is a predicate `parseIP`. A successful dial on try i is `dialOk(i)`. A
  concurrent `deactivate` of a fading fader before send i is `cleared(i)`.

## Model

| member | source | states |
|---|---|---|
| OscUtil.PrependByte | osc/util.go:9-14 | the new array holds `b` followed by the old bytes |
| OscUtil.TrimZeroBytesRight | osc/util.go:25-27 | the input is the result followed only by NULs, and the result does not end in NUL |
| OscUtil.TrimZeroBytesLeft | osc/util.go:22-24 | the input is NULs followed by the result, and the result does not start with NUL |
| OscUtil.TrimZeroBytes | osc/util.go:22-24 | the input is leading NULs, the result and trailing NULs; the result has NUL at neither end; it is empty exactly when the input is all NULs |
| OscUtil.ZeroBytesToAdd | osc/util.go:40-42 | for n >= 0, between 1 and 4 bytes that bring n to a multiple of 4; 4 to 7 for negative n (Go's truncating `%`) |
| OscUtil.AppendZeroBytes | osc/util.go:29-38 | keeps the input as a prefix and pads it with 1 to 4 NULs to a multiple of 4 |
| OscUtil.FixZeroBytes | osc/util.go:16-20 | the result is a non-empty multiple of 4 bytes |
| OscUtil.TrimOfPadded | osc/util.go:22-24 | trimming undoes padding for bytes with no NUL at either end |
| OscUtil.FixZeroBytesIdempotent | osc/util.go:16-20 | fixing the padding twice is the same as fixing it once |
| OscUtil.PutUint32BE | osc/util.go:52-56 | a 32-bit pattern is written as exactly four bytes |
| OscUtil.Uint32RoundTrip | osc/util.go:48-56 | reading back the four bytes written gives the same 32-bit pattern |
| OscUtil.BytesRoundTrip | osc/util.go:48-56 | writing back the pattern read from four bytes gives the same bytes |
| OscUtil.Uint32Of | osc/util.go:58-62 | `uint32(i)` agrees with the int32 modulo 2^32 |
| OscUtil.Int32Of | osc/util.go:44-46 | `int32(u)` agrees with the uint32 modulo 2^32 |
| OscUtil.Int32ToBytes | osc/util.go:58-62 | an int32 is written as exactly four bytes |
| OscUtil.Int32RoundTrip | osc/util.go:44-62 | `bytesToInt32(int32ToBytes(i)) == i` |
| OscUtil.Int32BytesRoundTrip | osc/util.go:44-62 | `int32ToBytes(bytesToInt32(b)) == b` for four bytes |
| OscUtil.AllElementsZero | osc/util.go:74-81 | true exactly when every byte is NUL |
| OscMessage.ZeroBytesToAdd | osc/message.go:40-48 | for l >= 0, between 1 and 4 bytes that bring l to a multiple of 4, and 4 when l already is one |
| OscMessage.ZeroBytesToAddAgree | osc/message.go:40-48 | the package's two `zeroBytesToAdd` give the same count for every int |
| OscMessage.AddZeros | osc/message.go:50-53 | keeps the bytes as a prefix and pads them with 1 to 4 NULs to a multiple of 4 |
| OscMessage.AddressBlock | osc/message.go:66-69 | the address padded with NULs to the next multiple of 4, with at least one NUL |
| OscMessage.TagBlock | osc/message.go:77-86 | a comma (only when there are tags), the tags, then NUL padding to a multiple of 4; four NULs for no tags |
| OscMessage.Encode | osc/message.go:62-110 | the packet fails exactly when some argument is empty, with "could not write ArgBytes"; otherwise it starts with the address block and then the tag block |
| OscMessage.Find | osc/message.go:172-175 | a found position holds the delimiter |
| OscMessage.FindIsFirst | osc/message.go:172-175 | no earlier position from the start holds the delimiter |
| OscMessage.ReadArgument | osc/message.go:219-269 | one argument read never moves the cursor back or past the end |
| OscMessage.ReadArgumentOutcomes | osc/message.go:219-269 | per tag: `i`/`f` take the 4 bytes at the cursor and move it past up to 4 more, give EOF with no byte left and "invalid data length" (cursor at the end) with one to three; `s` stores exactly the bytes before the first NUL and moves past up to its padding, with "invalid string length" when the packet ends first, and with no NUL stores nothing and drains the buffer; `b` gives the placeholder; other tags read nothing |
| OscMessage.ReadArguments | osc/message.go:218-270 | at most one argument per type tag |
| OscMessage.ParseHeader | osc/message.go:171-215 | the arguments start inside the packet |
| OscMessage.Parse | osc/message.go:166-273 | a parsed message has no more arguments than tags |
| OscMessage.DecodeValue | osc/message.go:275-297 | an int32 or float32 exactly for tag `i` or `f` with 4 bytes, the bytes being its big-endian form; a string exactly for tag `s`; otherwise nil |
| OscMessage.Wrap32 | osc/message.go:114-119 | Go's `int32(x)`: x modulo 2^32, and x itself when it fits |
| OscMessage.TagBytes | osc/message.go:78-85 | the loop fills the comma and the tags into a fresh buffer of tag count + 1 bytes |
| OscMessage.ReadArgumentFrom | osc/message.go:219-269 | the byte-reading step for one tag agrees with the argument reader |
| OscMessage.Message.constructor | osc/message.go:55-60 | `NewMessage`: only the address is set |
| OscMessage.Message.FromPacket | osc/osc.go:84-86 | a message holding only a received packet |
| OscMessage.Message.Copy | osc/osc.go:56 | the copy Go makes when passing a message by value |
| OscMessage.Message.MakePacket | osc/message.go:62-110 | on success the packet is address block, tag block and arguments; an empty argument fails with "could not write ArgBytes" and leaves the packet unchanged; no other field changes |
| OscMessage.Message.AddString | osc/message.go:132-139 | appends tag `s` and the string's bytes |
| OscMessage.Message.AddInt | osc/message.go:141-151 | appends tag `i` and the four big-endian bytes plus four NULs |
| OscMessage.Message.AddFloat | osc/message.go:153-164 | appends tag `f` and the float's four bytes plus four NULs |
| OscMessage.Message.Add | osc/message.go:112-130 | dispatches on the dynamic type, truncating `int` and `int64` to int32 and `float64` to float32; any other type fails with nothing appended |
| OscMessage.Message.DecodeArgument | osc/message.go:275-297 | nil exactly when the tag is not `s` and is not `i` or `f` with 4 bytes; an int32 or float32 only for its tag, with the argument its big-endian bytes; a string only for tag `s`, holding the argument's bytes |
| OscMessage.Message.ParseMessage | osc/message.go:166-273 | the new address, tags, appended arguments and error are those of `Parse`; a packet without a comma or without a NUL after it stops with EOF |
| OscMessage.SkipPadding | osc/message.go:205-215 | skips `z` bytes, or up to the end of the packet |
| OscMessage.ReadArgumentsFrom | osc/message.go:218-270 | the loop over the tags gives the arguments and error of `ReadArguments` |
| OscMessage.ParseEncodeNumeric | osc/message.go:62-273 | a message with only int and float arguments and an address with no comma and no trailing NUL is encoded, and parses back (with any trailing bytes) into the same address, tags and payloads with no error |
| OscMessage.NoCommaNoParse | osc/message.go:172-175 | a packet without a comma does not parse |
| OscMessage.ZeroTagsDoNotParse | osc/message.go:77-86 | a message with no arguments encodes to four NUL tag bytes, so its packet does not parse back |
| OscMessage.EncodeFailsOnEmptyArgument | osc/message.go:96-104 | any empty argument makes `MakePacket` fail |
| Osc.TildeToNul | osc/osc.go:46-50 | `~` becomes NUL; every other byte is kept |
| Osc.SendStringBytes | osc/osc.go:42-54 | the bytes written are never more than the string's bytes |
| Osc.SendString | osc/osc.go:42-54 | the loop writes the first byte of each rune, with `~` as NUL, and the error is that of the write |
| Osc.SendStringNoTilde | osc/osc.go:45-51 | no `~` reaches the wire |
| Osc.SendStringAscii | osc/osc.go:45-51 | for ASCII text, byte k on the wire is byte k of the text with `~` as NUL |
| Osc.SendStringTwoByteRune | osc/osc.go:45-51 | a two-byte UTF-8 rune contributes only its first byte |
| Osc.OutgoingPacket | osc/osc.go:59-64 | an existing packet is sent as is; otherwise the one `MakePacket` builds |
| Osc.Send | osc/osc.go:56-71 | the caller's message is not changed; a `MakePacket` error is returned with nothing written; otherwise the packet is written and the write's error is returned |
| Osc.SendNumericParses | osc/osc.go:56-71 | what `Send` writes for an int/float message parses back into that message |
| Osc.ReadBuffer | osc/osc.go:76-78 | the datagram lands in a 256-byte buffer: NUL-padded when shorter, cut when longer |
| Osc.ParseError | osc/osc.go:89 | a parse that stops short reports EOF; otherwise the parse's own error |
| Osc.Listen | osc/osc.go:73-92 | a failed read gives no message; otherwise a fresh message holding the 256-byte buffer, its fields and error those of parsing it |
| Osc.DecodeAll | osc/osc.go:36-38 | one decoded value per argument, each decoded by its tag |
| Osc.Inquire | osc/osc.go:25-40 | a send error, then a listen error, is returned with no values; otherwise the reply's decoded arguments |
| Osc.DecodeReply | osc/osc.go:36-38 | the loop decodes every argument of the reply |
| Osc.ReplyOfNumericPacket | osc/osc.go:25-40 | a reply that is an encoded int/float message of at most 256 bytes is decoded into its own int and float values |
| OscPrint.NulToTilde | osc/print.go:10-14 | NUL becomes `~`; every other byte is kept |
| OscPrint.Render | osc/print.go:7-17 | the rendering has the packet's length and holds no NUL |
| OscPrint.RenderAt | osc/print.go:7-17 | the rendering has the packet's length, maps byte k by NUL-to-tilde, and holds no NUL |
| OscPrint.String | osc/print.go:7-17 | the loop renders the packet byte by byte |
| OscPrint.SendStringOfRender | osc/print.go:7-17 | `SendString` of the rendering sends back the packet itself, for ASCII packets without `~` |
| OscPrint.RenderOfSendString | osc/print.go:7-17 | rendering what `SendString` writes gives back the text, for ASCII text without NUL |
| GoText.ZeroPad2 | util.go:66 | `%02d`: at least two digits, exactly the two digits of n below 100 |
| GoText.AtoiFormatInt | comm.go:136-137 | `Atoi` parses back every int64 that `%d` prints |
| GoText.TrimSpace | comm.go:136 | the result is a slice of the input with only white space before and after it, and it neither starts nor ends with white space |
| GoText.Atoi | comm.go:137 | a value is returned only for non-empty text, only within the int64 range, and is negative only after a leading `-` |
| GoText.Utf8EncodeAscii | osc/message.go:57 | an ASCII string becomes one byte per character, each its code |
| Util.ChannelIDPath | util.go:59-84 | the path is empty exactly for an id outside 0..79 |
| Util.ChannelOfPathInverse | util.go:59-84 | the channel id can be read back from its path (prefix and number), so the path determines the id |
| Util.ChannelIDPathInjective | util.go:59-84 | distinct ids in 0..79 have distinct paths |
| Util.ChannelIDPathLength | util.go:59-84 | DCA paths have 6 characters, the others at least 6 |
| Util.NamePath | util.go:86-89 | `config/name` under the channel's path, or alone for an id out of range |
| Util.NamePathInjective | util.go:86-89 | distinct ids in 0..79 have distinct name paths |
| Util.FaderPath | util.go:91-103 | empty exactly for an id outside 0..79 |
| Util.FaderPathShape | util.go:91-103 | DCAs end in `/fader`, every other id in `/mix/fader` |
| Util.FaderPathInjective | util.go:91-103 | distinct ids in 0..79 have distinct fader paths |
| Util.Dist | util.go:105-111 | non-negative, zero exactly when the two are equal, and the gap between them |
| Util.DistSymmetric | util.go:105-111 | the distance does not depend on the order |
| Util.IsValidIP | util.go:20-57 | valid text is never blank; without exactly one colon, the text is valid exactly when it trims to a non-empty string that parses as an IP |
| Util.IsValidIPBlank | util.go:26-30 | blank text is not valid |
| Util.IsValidIPPortOnly | util.go:20-57 | `":%d"` is valid exactly for a port in 0..65535 |
| Util.IsValidIPSplit | util.go:26-56 | text whose white-space-trimmed form has one colon is valid exactly when the trimmed part before the colon is empty or an IP, and the part after it is empty or a port |
| Util.IsValidIPHostPort | util.go:20-57 | `host:%d` is valid exactly when the host parses as an IP and the port is in 0..65535 |
| Util.LevelMessage | util.go:12-18 | `name channel : ` followed by `??` for a negative level, otherwise the level as `%.2f` formats it |
| Fade.Trunc | fade.go:137 | Go's `int(x)`: the integer toward zero within 1 of x |
| Fade.TruncScaled | fade.go:137 | scaling by a non-negative resolution keeps the order of truncated values, and a negative one reverses it |
| Fade.UnitToFaderValue | fade.go:132-138 | an error with -1 exactly outside [0, 1]; otherwise the truncated product |
| Fade.UnitToFaderValueOrdered | fade.go:132-138 | for a non-negative resolution, ordered unit values give ordered steps between 0 and the truncated resolution |
| Fade.FadeUnitsAt | fade.go:76-84 | the loop visits `getDist(startI, stopI)` values, value k being startI plus k steps toward stopI |
| Fade.FadeUnitsEnds | fade.go:84 | stopI is never visited, and startI is visited first when the two differ |
| Fade.FadeArgument | fade.go:90 | the float's four bytes plus four NULs |
| Fade.FadeBits | fade.go:88-90 | one float pattern per visited value, that of `float32(i) / faderResolution` |
| Fade.GetFadeMessages | fade.go:74-101 | no error; one fresh message per visited value, in order, each addressed to the fader path, with one float argument and its packet made |
| Fade.FadeMessages | fade.go:84-98 | the loop builds those messages for a given address |
| Fade.NewFadeMessage | fade.go:86-91 | one message with address, tag `f`, the argument and the packet made |
| Fade.EncodeFloat | fade.go:91 | `MakePacket` of a one-float message gives address block, `,f` block and argument |
| Fade.FaderPathAddress | fade.go:86 | a fader address has no comma and does not end in NUL |
| Fade.FadePacketParses | fade.go:86-91 | each fade packet parses back into its fader address, tag `f` and float |
| Fade.Deliveries | fade.go:58-65 | whether send i succeeds, message by message |
| Fade.RunFade | fade.go:50-73 | the send loop makes between i and all the sends; a give-up follows a failed send; an interruption happens before the last message, at a cleared index or at once when the flag was already down |
| Fade.RunFadeShape | fade.go:50-73 | the loop sends in index order, at most once per message; it runs to the end exactly when it completes; on every other exit the flag is down, and an interruption happens before the last message |
| Fade.RunFadeGaveUp | fade.go:59-69 | giving up means the last ten sends failed |
| Fade.RunFadeInterrupted | fade.go:52-56 | an interruption means the fader was deactivated before that send |
| Fade.RunFadeCompletes | fade.go:50-73 | with no run of ten failures and no deactivation, every message is sent and the fader stays active |
| Fade.RunFadeAllFail | fade.go:59-69 | when every send fails, the loop gives up after exactly ten |
| Fade.TenInARowGivesUp | fade.go:59-69 | ten failed sends in a row anywhere in the fade, with no clearing before them, make the loop give up, by the tenth of them at the latest |
| Fade.SendResults | fade.go:58 | send i's result is `sendOk(i)` |
| Fade.DeliveriesOfFadeMessages | fade.go:58 | for fade messages (packets made), each send's result is that of its write |
| Fade.MakeFadeSpec | fade.go:11-48 | start is rejected exactly when outside [0, 1], then stop the same way; an untouched fader means an error and no sends; a touched one sends at most `getDist(startI, stopI)` messages; success means exactly that many |
| Fade.MakeFadeSameValue | fade.go:11-48 | valid start and stop values that truncate to the same fader value (startI == stopI) send nothing and return nil |
| Fade.MakeFadeDeadConnection | fade.go:11-48 | a fade over a connection whose every write fails gives up after ten sends |
| Fade.MakeFadeNegativeResolution | fade.go:18-28 | with resolution -1024, a fade from 0 to 1 ends after 1024 sends |
| Comm.GroupStart | comm.go:52-70 | the latest id in the group table at or before i |
| Comm.GroupStep | comm.go:64-70 | the group changes exactly at the ids in the table |
| Comm.GroupNames | comm.go:52-60 | each id's group name: channel, aux, fx, bus, matrix, mains, mono, dca |
| Comm.ChannelNumberInPath | comm.go:62-78 | the channel number `newX32` gives a fader is the number in its id's path |
| Comm.Fader.constructor | comm.go:71-76 | the id, name and channel given, level 0, not active |
| Comm.Fader.Activate | fade.go:37 | the fader becomes active; nothing else changes |
| Comm.Fader.Deactivate | fade.go:46 | the fader becomes inactive; nothing else changes |
| Comm.Fader.TriggerFade | fade.go:50-73 | the error, the number of sends and the new active flag are those of the send loop's outcome |
| Comm.NewFaders | comm.go:61-78 | 80 distinct fresh faders, fader i with id i, its group name, its number in the group and level 0 |
| Comm.Mixer.NewX32 | comm.go:31-80 | named "Behringer M32", channel 0 selected, resolution 1024, not connected, with those 80 faders |
| Comm.Mixer.SetFaderResolution | comm.go:134-143 | trimmed text that `Atoi` parses becomes the resolution; otherwise an error and no change |
| Comm.ResolutionOfFormatted | comm.go:134-143 | any int64 printed with `%d` is accepted as the resolution |
| Comm.Mixer.MakeFade | fade.go:11-48 | the error and number of sends are those of `MakeFadeSpec`: invalid start, then invalid stop, then an out-of-range id, then the send loop; the fader is left inactive whenever it was touched, and its flag is unchanged when it was not; its name, channel, id and level never change |
| Comm.Mixer.FadeTo | fade.go:110-130 | a fader in motion is refused, then an out-of-range id, then a failed level read, with no flag changed; otherwise a fade from the current level to the target, as `MakeFade` states it, flag and other fields included |
| Comm.Mixer.LegacyMakeFade | comm.go:220-285 | comm.go's `makeFade`: invalid start, then stop; otherwise the outcome of `LegacyFadeSpec` |
| Comm.LegacySteps | comm.go:244-285 | the message loop never ends when the step points away from stopI; otherwise every message is sent and nil is returned |
| Comm.LegacyFadeSpec | comm.go:220-285 | with a non-negative resolution the legacy fade always ends; its only errors are the start and stop checks, with no sends; success means `getDist(startI, stopI)` sends |
| Comm.LegacySpecOfSteps | comm.go:233-252 | the step chosen from start and stop agrees with the legacy specification |
| Comm.LegacyStepDirection | comm.go:244-252 | when startI and stopI differ, the step from start and stop points toward stopI exactly when the resolution is non-negative |
| Comm.LegacyFire | comm.go:268-282 | the send loop tests only the stale `err`: nil sends everything; a non-nil one stops after ten |
| Comm.LegacyIgnoresDeadConnection | comm.go:269-280 | the legacy fade reports success over a dead connection, where fade.go's gives up after ten |
| Comm.LegacyDivergesOnNegativeResolution | comm.go:245-252 | with resolution -1024 the legacy loop never ends, where fade.go's ends after 1024 sends |
| Comm.EstablishConnection | comm.go:82-99 | an invalid local port, then an invalid remote address, is refused before any dial; otherwise at most `tries` dials, stopping at the first that succeeds |
| Comm.Dial | comm.go:90-97 | at most `tries` dials; connected exactly when the last dial made succeeded, all earlier ones failing; otherwise all tries were used; an error exactly when dials were made and none succeeded, so no tries means no error |

## Left out

- Float32 arithmetic: unit values and resolutions are reals, and `int(...)` is truncation of the
  exact product. The bit pattern of `float32(i) / faderResolution` is the parameter `levelBits`,
  so rounding is not modelled.
- Fade.UnitToFaderValue: the product is exact, not rounded to float32, so a product that
  float32 rounds across an integer can truncate differently in Go.
- Comm.Mixer.SetFaderResolution: stores the parsed int exactly; the rounding of
  `float32(faderResInt)` above 2^24 is not modelled.
- Blob arguments: `ParseMessage` stores a fixed placeholder for tag `b`, and so does the model;
  the source has no blob decoding.
- `Message.ArgumentsParsed`: the source never sets it, so the model has no such field.
- Byte-level aliasing: `prependByte` may reuse its argument's storage in Go. The model returns
  a fresh array, and elsewhere a byte slice is a value.
- Sockets, deadlines and sleeps:
  - every write and read is a boolean parameter, and a datagram a byte sequence;
  - `osc.Dial`'s address resolution is the `dialOk` parameter;
  - `Listen`'s timeout, `getInterval` and all `time.Sleep` calls are left out, because the
    model has no clock.
- `net.ParseIP` is the parameter `parseIP`, since it is a foreign parser.
- `filepath.Join` (util.go:88, 99, 102) is modelled as it behaves where the path separator is
  `/`: it joins with one `/`, and an empty first part gives the second. `Clean` has nothing to
  do on these paths. On Windows, `filepath.Join` uses `\`, so `getFaderPath(0)` would be
  `\ch\01\mix\fader`, which is not an OSC address. The model does not cover that platform.
- The 256-byte buffer of `Listen` (osc/osc.go:77) is followed.
- The main package's Go strings (`remoteAddr`, `newValue`, the paths) are Dafny `string`s, which are
  sequences of Unicode scalar values. So a Go string that is not valid UTF-8 cannot be passed in.
- A channel id outside the fader table panics in Go (fade.go:37 and 120). The model returns the
  error value `IndexOutOfRange` instead, with no send and no fader changed.
- `String` in osc/print.go calls `msg.Packet.Bytes()`, which a `[]byte` does not have. The model
  renders the packet's bytes, which is what was evidently meant.
- Duplicate definitions in one package: `makeFade`/`fadeTo` in comm.go and fade.go, and
  `byteToInt32`/`allElementsZero` in osc/osc.go and osc/util.go. The fade.go versions are the
  model's `makeFade`/`fadeTo`; comm.go's `makeFade` is `LegacyMakeFade`; the byte helpers are
  modelled once.
- The `fader` struct has no `active` field, and `activate`, `deactivate`, `isInMotion` and
  `getLevel` are not declared anywhere:
  - the model gives `Fader` an `active` flag and the two methods;
  - `isInMotion` and `getLevel` become the parameters `inMotion` and `level`.
- `establishConnection` passes an int `localPort` to `osc.Dial(string, string)`. The model
  treats the dial as the `dialOk` oracle.
- Comm.LegacySteps: a message loop whose step points away from stopI is the outcome `Diverges`.
  In Go, `i += step` would wrap around int after about 2^64 steps, appending a message each
  time, long after memory is exhausted.
- The error branch after `MakePacket` in `getFadeMessages` (fade.go:91-94) cannot be taken,
  because a float argument is never empty. `GetFadeMessages` proves the error is nil.
- `GetFadeMessages` computes the fader path once and passes it to the loop `FadeMessages`.
  The path is a pure function of the id, so this is the same as computing it per message.
- A concurrent `deactivate` during `triggerFade` is the parameter `cleared(i)`: the flag is
  cleared before send i.
- Not part of this model:
  - `levelMonitor`, `getStatus`, `getName`, `setName`, `connect`, `getFader` and comm.go's
    `fadeTo` (socket round trips of the GUI);
  - `loadingAnimation`;
  - the commented-out second `ParseMessage`;
  - send.go, ui.go, home.go, buttons.go and main.go (the GUI and the command-line sender).

## Findings

| source | as written | input that shows it | evidently intended | confidence | as-written member | corrected member |
|---|---|---|---|---|---|---|
| comm.go:269-280 | the send loop discards `osc.Send`'s result and tests the stale `err` of the last `MakePacket`, which is nil, so failures are never counted | start 0, stop 1, resolution 1024, every write failing: 1024 sends and nil | count failed sends and give up after ten in a row, as fade.go's `triggerFade` does | not executed | Comm.LegacyIgnoresDeadConnection | Fade.MakeFadeDeadConnection |
| comm.go:245-252 | the step is chosen by comparing the unit values `start > stop`, not `startI > stopI`; with a negative resolution the loop `i != stopI` steps away from stopI | start 0, stop 1, resolution -1024 (accepted by `setFaderResolution`): startI 0, stopI -1024, step +1 | step toward stopI, as fade.go's `getFadeMessages` does | not executed | Comm.LegacyDivergesOnNegativeResolution | Fade.MakeFadeNegativeResolution |
