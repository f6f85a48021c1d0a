/** The OSC message of package osc (osc/message.go): building a message argument by argument,
    serialising it into a packet, and parsing a received packet back into its parts. */
module OscMessage {
  import opened Wrappers
  import opened GoTypes
  import OscUtil
  import GoText

  const COMMA: byte := 44        // ','
  const TAG_INT: byte := 105     // 'i'
  const TAG_FLOAT: byte := 102   // 'f'
  const TAG_STRING: byte := 115  // 's'
  const TAG_BLOB: byte := 98     // 'b'

  /** What `ParseMessage` stores in place of a blob argument. */
  const BLOB_PLACEHOLDER: Bytes := GoText.Utf8Encode("cannot yet parse blob")

  /** The Go `error` values of package osc. */
  datatype OscError =
    | EndOfBuffer            // io.EOF from a bytes.Buffer read
    | InvalidDataLength      // "invalid data length"
    | InvalidStringLength    // "invalid string length when parsing"
    | CouldNotWriteArgBytes  // "Could not write ArgBytes"
    | CannotDetermineType    // "Cannot determine type of argument"
    | WriteFailed            // an error from conn.Write
    | ReadFailed             // an error from conn.Read

  // ---------------------------------------------------------------- padding

  /** message.go's `zeroBytesToAdd`: 1 to 4 NULs, so a block never ends without a terminator. */
  function ZeroBytesToAdd(l: int): (k: int)
    ensures l >= 0 ==> 1 <= k <= 4 && (l + k) % 4 == 0
    ensures l >= 0 && l % 4 == 0 ==> k == 4
  {
    var zta := 4 - GoRem(l, 4);
    if zta == 0 then 4 else zta
  }

  /** The two copies of `zeroBytesToAdd` in package osc agree on every input. */
  lemma ZeroBytesToAddAgree(n: int)
    ensures ZeroBytesToAdd(n) == OscUtil.ZeroBytesToAdd(n)
  {
  }

  /** `addZeros`: pads to the next multiple of 4, with 4 NULs when already aligned. */
  function AddZeros(b: Bytes): (r: Bytes)
    ensures |b| < |r| <= |b| + 4 && |r| % 4 == 0
    ensures r[..|b|] == b
    ensures forall i :: |b| <= i < |r| ==> r[i] == NUL
  {
    b + Zeros(ZeroBytesToAdd(|b|))
  }

  // ---------------------------------------------------------------- serialisation

  /** The address block of a packet: the address bytes, then 1 to 4 NULs. */
  function AddressBlock(address: Bytes): (r: Bytes)
    ensures |r| % 4 == 0 && |address| < |r| <= |address| + 4
    ensures r == address + Zeros(|r| - |address|)
  {
    var r := AddZeros(address);
    assert r == r[..|address|] + r[|address|..];
    r
  }

  /** The bytes of the tag block before padding: a comma (a NUL when there are no tags) and the tags. */
  function TagHead(tags: Bytes): Bytes
  {
    [if |tags| > 0 then COMMA else NUL] + tags
  }

  /** The tag block: ',' and the tags, NUL-padded to a multiple of 4; exactly four NULs and no
      comma when there are no tags. */
  function TagBlock(tags: Bytes): (r: Bytes)
    ensures |r| % 4 == 0 && |tags| + 1 < |r| <= |tags| + 5
    ensures |r| == |tags| + 1 + ZeroBytesToAdd(|tags| + 1)
    ensures tags == [] ==> r == Zeros(4)
    ensures tags != [] ==> r[0] == COMMA
    ensures forall k :: 0 <= k < |tags| ==> r[k + 1] == tags[k]
    ensures forall i :: |tags| + 1 <= i < |r| ==> r[i] == NUL
  {
    var r := AddZeros(TagHead(tags));
    assert tags == [] ==> r == Zeros(4);
    r
  }

  /** The argument payloads written one after the other. */
  function Concat(args: seq<Bytes>): Bytes
  {
    if args == [] then [] else args[0] + Concat(args[1..])
  }

  lemma {:induction false} ConcatSnoc(args: seq<Bytes>, i: nat)
    requires i < |args|
    ensures Concat(args[..i + 1]) == Concat(args[..i]) + args[i]
    decreases i
  {
    if i > 0 {
      assert args[1..][..i] == args[1..i + 1];
      assert args[..i + 1][1..] == args[1..][..i];
      assert args[..i][1..] == args[1..][..i - 1];
      ConcatSnoc(args[1..], i - 1);
    } else {
      assert args[..1][1..] == [];
    }
  }

  /** What `MakePacket` produces from a message: an error when an argument is empty, otherwise the
      address block, the tag block and the arguments in insertion order. */
  function Encode(address: Bytes, tags: Bytes, args: seq<Bytes>): (r: Result<Bytes, OscError>)
    ensures r.Err? <==> exists i :: 0 <= i < |args| && args[i] == []
    ensures r.Err? ==> r.error == CouldNotWriteArgBytes
    ensures r.Ok? ==> AddressBlock(address) + TagBlock(tags) <= r.value
  {
    if exists i :: 0 <= i < |args| && |args[i]| == 0 then Err(CouldNotWriteArgBytes)
    else Ok(AddressBlock(address) + TagBlock(tags) + Concat(args))
  }

  // ---------------------------------------------------------------- parsing

  /** The first index at or after `from` holding `d`, as `bytes.Buffer.ReadBytes(d)` finds it. */
  function Find(p: Bytes, from: nat, d: byte): (r: Option<nat>)
    requires from <= |p|
    ensures r.Some? ==> from <= r.value < |p| && p[r.value] == d
    decreases |p| - from
  {
    if from == |p| then None else if p[from] == d then Some(from) else Find(p, from + 1, d)
  }

  /** `Find` stops at the first occurrence: no byte before the one it returns (before the end,
      when it finds none) holds `d`. */
  lemma {:induction false} FindIsFirst(p: Bytes, from: nat, d: byte)
    requires from <= |p|
    ensures forall k :: from <= k < (if Find(p, from, d).Some? then Find(p, from, d).value else |p|) ==> p[k] != d
    decreases |p| - from
  {
    if from < |p| && p[from] != d {
      FindIsFirst(p, from + 1, d);
    }
  }

  /** `Find` returns the first index holding `d`, and none when there is no such index. */
  lemma FindAt(p: Bytes, from: nat, d: byte, j: nat)
    requires from <= j <= |p|
    requires j < |p| ==> p[j] == d
    requires forall k :: from <= k < j ==> p[k] != d
    ensures Find(p, from, d) == if j < |p| then Some(j) else None
  {
    FindIsFirst(p, from, d);
  }

  /** The cursor, the argument stored (if any) and the error after reading one tagged argument. */
  datatype ArgStep = ArgStep(off: nat, arg: Option<Bytes>, err: Option<OscError>)

  /** One round of `ParseMessage`'s argument loop, for the tag `tag` and the cursor at `off`. */
  function ReadArgument(p: Bytes, off: nat, tag: byte): (s: ArgStep)
    requires off <= |p|
    ensures off <= s.off <= |p|
  {
    if tag == TAG_INT || tag == TAG_FLOAT then
      if off == |p| then ArgStep(off, None, Some(EndOfBuffer))
      else if |p| - off < 4 then ArgStep(|p|, None, Some(InvalidDataLength))
      else ArgStep(Min(off + 8, |p|), Some(p[off..off + 4]), None)
    else if tag == TAG_STRING then
      match Find(p, off, NUL)
      case None => ArgStep(|p|, None, None)
      case Some(j) =>
        var want := ZeroBytesToAdd(j - off);
        var n := Min(want, |p| - j);
        ArgStep(j + n, Some(p[off..j]), if n != want then Some(InvalidStringLength) else None)
    else if tag == TAG_BLOB then ArgStep(off, Some(BLOB_PLACEHOLDER), None)
    else ArgStep(off, None, None)
  }

  /** What one argument read yields: an int or float needs four bytes after the cursor (none left
      is io.EOF and leaves the cursor, one to three is "invalid data length" and empties the
      buffer), and then skips up to four padding bytes; a string is every byte up to the first NUL,
      after which up to its padding is skipped ("invalid string length" when the packet ends
      first), and with no NUL the loop's `break` leaves only the drained buffer; a blob stores the
      placeholder; any other tag is skipped without moving the cursor. */
  lemma ReadArgumentOutcomes(p: Bytes, off: nat, tag: byte)
    requires off <= |p|
    ensures var s := ReadArgument(p, off, tag);
      && ((tag == TAG_INT || tag == TAG_FLOAT) ==>
        && (s.err == Some(EndOfBuffer) <==> off == |p|)
        && (s.err == Some(InvalidDataLength) <==> 0 < |p| - off < 4)
        && (s.err.None? <==> off + 4 <= |p|)
        && (off + 4 <= |p| ==> s.arg == Some(p[off..off + 4]) && s.off == Min(off + 8, |p|))
        && (off == |p| ==> s.off == off)
        && (0 < |p| - off < 4 ==> s.off == |p|)
        && (s.err.Some? ==> s.arg.None?))
      && (tag == TAG_STRING ==> StringOutcome(p, off, s))
      && (tag == TAG_BLOB ==> s == ArgStep(off, Some(BLOB_PLACEHOLDER), None))
      && (tag != TAG_INT && tag != TAG_FLOAT && tag != TAG_STRING && tag != TAG_BLOB ==> s == ArgStep(off, None, None))
  {
    if tag == TAG_STRING {
      ReadStringOutcome(p, off);
    }
  }

  /** The outcome of reading a string argument at `off`, stated without `Find`: with no NUL after
      the cursor nothing is stored and the buffer is drained; otherwise, for the first NUL at j,
      the bytes before it are stored and the padding after it is skipped. */
  predicate StringOutcome(p: Bytes, off: nat, s: ArgStep)
    requires off <= |p|
  {
    && ((forall k :: off <= k < |p| ==> p[k] != NUL) ==> s == ArgStep(|p|, None, None))
    && (forall j :: off <= j < |p| && p[j] == NUL && (forall k :: off <= k < j ==> p[k] != NUL) ==>
      && s.arg == Some(p[off..j])
      && s.off == j + Min(ZeroBytesToAdd(j - off), |p| - j)
      && (s.err.Some? <==> |p| - j < ZeroBytesToAdd(j - off))
      && (s.err.Some? ==> s.err == Some(InvalidStringLength)))
  }

  lemma ReadStringOutcome(p: Bytes, off: nat)
    requires off <= |p|
    ensures StringOutcome(p, off, ReadArgument(p, off, TAG_STRING))
  {
    var s := ReadArgument(p, off, TAG_STRING);
    if forall k :: off <= k < |p| ==> p[k] != NUL {
      FindAt(p, off, NUL, |p|);
    }
    forall j | off <= j < |p| && p[j] == NUL && (forall k :: off <= k < j ==> p[k] != NUL)
      ensures s.arg == Some(p[off..j]) && s.off == j + Min(ZeroBytesToAdd(j - off), |p| - j)
      ensures (s.err.Some? <==> |p| - j < ZeroBytesToAdd(j - off)) && (s.err.Some? ==> s.err == Some(InvalidStringLength))
    {
      FindAt(p, off, NUL, j);
    }
  }

  /** The arguments appended and the error returned by the loop over all tags. */
  function ReadArguments(p: Bytes, off: nat, tags: Bytes): (r: (seq<Bytes>, Option<OscError>))
    requires off <= |p|
    ensures |r.0| <= |tags|
    decreases |tags|
  {
    if tags == [] then ([], None)
    else
      var s := ReadArgument(p, off, tags[0]);
      var got := if s.arg.Some? then [s.arg.value] else [];
      if s.err.Some? then (got, s.err)
      else
        var rest := ReadArguments(p, s.off, tags[1..]);
        (got + rest.0, rest.1)
  }

  /** What `ParseMessage` does with a packet. */
  datatype ParseOutcome =
    | NoAddress                  // no ',' anywhere: io.EOF, nothing stored
    | NoTypeTags(address: Bytes) // no NUL after the ',': io.EOF, only the address stored
    | Parsed(address: Bytes, typeTags: Bytes, arguments: seq<Bytes>, err: Option<OscError>)

  /** The header of a packet as `ParseMessage` reads it: the address, the type tags and where the
      arguments start. */
  datatype Header = CommaMissing | TagsUnterminated(address: Bytes) | HeaderOk(address: Bytes, typeTags: Bytes, argsAt: nat)

  function ParseHeader(p: Bytes): (h: Header)
    ensures h.HeaderOk? ==> h.argsAt <= |p|
  {
    match Find(p, 0, COMMA)
    case None => CommaMissing
    case Some(c) =>
      var address := OscUtil.TrimZeroBytesRight(p[..c]);
      match Find(p, c + 1, NUL)
      case None => TagsUnterminated(address)
      case Some(z) =>
        var tags := p[c + 1..z];
        HeaderOk(address, tags, Min(z + ZeroBytesToAdd(|tags| + 1), |p|))
  }

  function Parse(p: Bytes): (o: ParseOutcome)
    ensures o.Parsed? ==> |o.arguments| <= |o.typeTags|
  {
    match ParseHeader(p)
    case CommaMissing => NoAddress
    case TagsUnterminated(address) => NoTypeTags(address)
    case HeaderOk(address, tags, at) =>
      var r := ReadArguments(p, at, tags);
      Parsed(address, tags, r.0, r.1)
  }

  // ---------------------------------------------------------------- decoding

  /** A decoded argument: Go's `any` holding nil, an int32, a float32 or a string. */
  datatype Value = Nil | Int32(i: int32) | Float32(bits: Float32Bits) | Str(s: Bytes)

  /** `DecodeArgument` for the tag and the raw bytes of one argument. */
  function DecodeValue(tag: byte, arg: Bytes): (v: Value)
    ensures v.Int32? <==> tag == TAG_INT && |arg| == 4
    ensures v.Int32? ==> OscUtil.Int32ToBytes(v.i) == arg
    ensures v.Float32? <==> tag == TAG_FLOAT && |arg| == 4
    ensures v.Float32? ==> OscUtil.PutUint32BE(v.bits) == arg
    ensures v.Str? <==> tag == TAG_STRING
    ensures v.Str? ==> v.s == arg
  {
    if tag == TAG_INT then
      if |arg| != 4 then Nil
      else OscUtil.Int32BytesRoundTrip(arg); Int32(OscUtil.BytesToInt32(arg))
    else if tag == TAG_FLOAT then
      if |arg| != 4 then Nil
      else OscUtil.BytesRoundTrip(arg); Float32(OscUtil.Uint32BE(arg))
    else if tag == TAG_STRING then Str(arg)
    else Nil
  }

  // ---------------------------------------------------------------- Add

  /** The dynamic type of the value handed to `Add`. A float64 carries the bit pattern of its
      float32 conversion, since floating-point rounding is not modelled. */
  datatype GoValue =
    | GoInt(n: int64)
    | GoInt32(n32: int32)
    | GoInt64(n64: int64)
    | GoFloat32(bits: Float32Bits)
    | GoFloat64(asFloat32: Float32Bits)
    | GoString(s: Bytes)
    | GoOther

  /** Go's `int32(x)` conversion: keeps the low 32 bits, as two's complement. */
  function Wrap32(x: int): (r: int32)
    ensures (r as int - x) % 0x1_0000_0000 == 0
    ensures -0x8000_0000 <= x < 0x8000_0000 ==> r as int == x
  {
    (((x + 0x8000_0000) % 0x1_0000_0000) - 0x8000_0000) as int32
  }

  /** The tag bytes `MakePacket` builds before padding: a comma (when there are tags) and the tags,
      copied one by one. */
  method TagBytes(typeTags: Bytes) returns (tagBytes: array<byte>)
    ensures fresh(tagBytes) && tagBytes[..] == TagHead(typeTags)
  {
    var n := |typeTags|;
    tagBytes := new byte[n + 1](_ => NUL);
    if n > 0 {
      tagBytes[0] := COMMA;
    }
    for i := 0 to n
      invariant tagBytes[0] == if n > 0 then COMMA else NUL
      invariant tagBytes[1..i + 1] == typeTags[..i]
      invariant forall k :: i + 1 <= k <= n ==> tagBytes[k] == NUL
    {
      tagBytes[i + 1] := typeTags[i];
    }
  }

  /** The body of `ParseMessage`'s argument loop: reads one argument through the cursor. */
  method ReadArgumentFrom(p: Bytes, off: nat, tag: byte) returns (next: nat, arg: Option<Bytes>, err: Option<OscError>)
    requires off <= |p|
    ensures ArgStep(next, arg, err) == ReadArgument(p, off, tag)
  {
    next, arg, err := off, None, None;
    if tag == TAG_INT || tag == TAG_FLOAT {
      // buf.Read into a 4-byte slice
      if off == |p| {
        return off, None, Some(EndOfBuffer);
      }
      var n := Min(4, |p| - off);
      var b := p[off..off + n];
      next := off + n;
      if n != 4 {
        return next, None, Some(InvalidDataLength);
      }
      arg := Some(b);
      // skip the 4 padding bytes; the result of this Read is ignored
      next := Min(next + 4, |p|);
    } else if tag == TAG_STRING {
      var nul := Find(p, off, NUL);
      if nul.None? {
        // io.EOF: ReadBytes consumed the rest; `break` leaves only the switch
        next := |p|;
      } else {
        // ReadBytes(0), TrimSuffix and UnreadByte, then a Read of the padding
        var b := p[off..nul.value];
        arg := Some(b);
        var want := ZeroBytesToAdd(|b|);
        var n := Min(want, |p| - nul.value);
        next := nul.value + n;
        if n != want {
          err := Some(InvalidStringLength);
        }
      }
    } else if tag == TAG_BLOB {
      arg := Some(BLOB_PLACEHOLDER);
    }
  }

  // ---------------------------------------------------------------- the message

  class Message {
    var packet: Bytes
    var address: Bytes
    var typeTags: Bytes
    var arguments: seq<Bytes>

    /** `NewMessage(addr)`. */
    constructor (addr: Bytes)
      ensures address == addr && packet == [] && typeTags == [] && arguments == []
    {
      address, packet, typeTags, arguments := addr, [], [], [];
    }

    /** `&Message{Packet: p}`, as `Listen` builds it. */
    constructor FromPacket(p: Bytes)
      ensures packet == p && address == [] && typeTags == [] && arguments == []
    {
      address, packet, typeTags, arguments := [], p, [], [];
    }

    /** A copy of the struct, as Go makes when a Message is passed by value. */
    constructor Copy(m: Message)
      ensures packet == m.packet && address == m.address
      ensures typeTags == m.typeTags && arguments == m.arguments
    {
      address, packet, typeTags, arguments := m.address, m.packet, m.typeTags, m.arguments;
    }

    /** `MakePacket`: serialises the message into `packet`; on error `packet` is left as it was. */
    method MakePacket() returns (err: Option<OscError>)
      modifies this
      ensures address == old(address) && typeTags == old(typeTags) && arguments == old(arguments)
      ensures Encode(address, typeTags, arguments).Ok? ==>
        err.None? && packet == Encode(address, typeTags, arguments).value
      ensures Encode(address, typeTags, arguments).Err? ==>
        err == Some(Encode(address, typeTags, arguments).error) && packet == old(packet)
    {
      var buf := AddZeros(address);
      var tagBytes := TagBytes(typeTags);
      buf := buf + AddZeros(tagBytes[..]);
      var i := 0;
      while i < |arguments|
        invariant address == old(address) && typeTags == old(typeTags) && arguments == old(arguments)
        invariant packet == old(packet)
        invariant 0 <= i <= |arguments|
        invariant forall k :: 0 <= k < i ==> |arguments[k]| > 0
        invariant buf == AddressBlock(address) + TagBlock(typeTags) + Concat(arguments[..i])
      {
        if |arguments[i]| == 0 {
          assert Encode(address, typeTags, arguments) == Err(CouldNotWriteArgBytes);
          return Some(CouldNotWriteArgBytes);
        }
        ConcatSnoc(arguments, i);
        buf := buf + arguments[i];
        i := i + 1;
      }
      assert arguments[..i] == arguments;
      packet := buf;
      return None;
    }

    /** `AddString`: a 's' tag and the raw string bytes, with no terminator and no padding. */
    method AddString(s: Bytes) returns (err: Option<OscError>)
      modifies this
      ensures typeTags == old(typeTags) + [TAG_STRING] && arguments == old(arguments) + [s]
      ensures packet == old(packet) && address == old(address) && err.None?
    {
      typeTags := typeTags + [TAG_STRING];
      arguments := arguments + [s];
      return None;
    }

    /** `AddInt`: an 'i' tag and 8 bytes: the big-endian int32, then 4 more NULs. */
    method AddInt(n: int32) returns (err: Option<OscError>)
      modifies this
      ensures typeTags == old(typeTags) + [TAG_INT]
      ensures arguments == old(arguments) + [OscUtil.Int32ToBytes(n) + Zeros(4)]
      ensures packet == old(packet) && address == old(address) && err.None?
    {
      typeTags := typeTags + [TAG_INT];
      var intBytes := OscUtil.Int32ToBytes(n);
      intBytes := AddZeros(intBytes);
      arguments := arguments + [intBytes];
      return None;
    }

    /** `AddFloat`: an 'f' tag and 8 bytes: the big-endian float32 bits, then 4 more NULs. */
    method AddFloat(data: Float32Bits) returns (err: Option<OscError>)
      modifies this
      ensures typeTags == old(typeTags) + [TAG_FLOAT]
      ensures arguments == old(arguments) + [OscUtil.PutUint32BE(data) + Zeros(4)]
      ensures packet == old(packet) && address == old(address) && err.None?
    {
      typeTags := typeTags + [TAG_FLOAT];
      var floatBytes := OscUtil.PutUint32BE(data);
      floatBytes := AddZeros(floatBytes);
      arguments := arguments + [floatBytes];
      return None;
    }

    /** `Add`: dispatches on the dynamic type; any other type is an error and changes nothing. */
    method Add(l: GoValue) returns (err: Option<OscError>)
      modifies this
      ensures packet == old(packet) && address == old(address)
      ensures l.GoInt? ==> typeTags == old(typeTags) + [TAG_INT] && arguments == old(arguments) + [OscUtil.Int32ToBytes(Wrap32(l.n as int)) + Zeros(4)]
      ensures l.GoInt32? ==> typeTags == old(typeTags) + [TAG_INT] && arguments == old(arguments) + [OscUtil.Int32ToBytes(l.n32) + Zeros(4)]
      ensures l.GoInt64? ==> typeTags == old(typeTags) + [TAG_INT] && arguments == old(arguments) + [OscUtil.Int32ToBytes(Wrap32(l.n64 as int)) + Zeros(4)]
      ensures l.GoFloat32? ==> typeTags == old(typeTags) + [TAG_FLOAT] && arguments == old(arguments) + [OscUtil.PutUint32BE(l.bits) + Zeros(4)]
      ensures l.GoFloat64? ==> typeTags == old(typeTags) + [TAG_FLOAT] && arguments == old(arguments) + [OscUtil.PutUint32BE(l.asFloat32) + Zeros(4)]
      ensures l.GoString? ==> typeTags == old(typeTags) + [TAG_STRING] && arguments == old(arguments) + [l.s]
      ensures l.GoOther? <==> err == Some(CannotDetermineType)
      ensures l.GoOther? ==> typeTags == old(typeTags) && arguments == old(arguments)
      ensures !l.GoOther? ==> err.None?
    {
      err := None;
      match l
      case GoInt(n) => var _ := AddInt(Wrap32(n as int));
      case GoInt32(n) => var _ := AddInt(n);
      case GoInt64(n) => var _ := AddInt(Wrap32(n as int));
      case GoFloat32(f) => var _ := AddFloat(f);
      case GoFloat64(f) => var _ := AddFloat(f);
      case GoString(s) => var _ := AddString(s);
      case GoOther => err := Some(CannotDetermineType);
    }

    /** `DecodeArgument(i)`: the i-th argument decoded by its type tag (Go panics out of range). */
    function DecodeArgument(i: nat): (v: Value)
      reads this
      requires i < |arguments| && i < |typeTags|
      ensures v.Nil? <==>
        !(typeTags[i] == TAG_STRING || ((typeTags[i] == TAG_INT || typeTags[i] == TAG_FLOAT) && |arguments[i]| == 4))
      ensures v.Int32? ==> typeTags[i] == TAG_INT && OscUtil.Int32ToBytes(v.i) == arguments[i]
      ensures v.Float32? ==> typeTags[i] == TAG_FLOAT && OscUtil.PutUint32BE(v.bits) == arguments[i]
      ensures v.Str? ==> typeTags[i] == TAG_STRING && v.s == arguments[i]
    {
      DecodeValue(typeTags[i], arguments[i])
    }

    /** `ParseMessage`: reads the packet through a cursor; the address and the tags are replaced,
        the arguments are appended to those already held. */
    method ParseMessage() returns (err: Option<OscError>)
      modifies this
      ensures packet == old(packet)
      ensures Parse(packet).NoAddress? ==>
        err == Some(EndOfBuffer) && address == old(address) && typeTags == old(typeTags) && arguments == old(arguments)
      ensures Parse(packet).NoTypeTags? ==>
        err == Some(EndOfBuffer) && address == Parse(packet).address && typeTags == old(typeTags) && arguments == old(arguments)
      ensures Parse(packet).Parsed? ==>
        && err == Parse(packet).err && address == Parse(packet).address && typeTags == Parse(packet).typeTags
        && arguments == old(arguments) + Parse(packet).arguments
    {
      var p := packet;
      // buf.ReadBytes(','), then TrimSuffix(",") and the trailing NULs
      var comma := Find(p, 0, COMMA);
      if comma.None? {
        return Some(EndOfBuffer);
      }
      address := OscUtil.TrimZeroBytesRight(p[..comma.value]);
      // buf.ReadBytes(0), then TrimSuffix and UnreadByte: the cursor is left on the NUL
      var zero := Find(p, comma.value + 1, NUL);
      if zero.None? {
        return Some(EndOfBuffer);
      }
      var tags := p[comma.value + 1..zero.value];
      typeTags := tags;
      var off := SkipPadding(p, zero.value, ZeroBytesToAdd(|tags| + 1));
      var args;
      args, err := ReadArgumentsFrom(p, off, tags);
      arguments := arguments + args;
      ParseOfHeader(p, comma.value, zero.value, address, tags, off, (args, err));
    }
  }

  /** `ParseMessage`'s padding loop: up to `z` single-byte reads, stopping early at io.EOF. */
  method SkipPadding(p: Bytes, off: nat, z: int) returns (next: nat)
    requires off <= |p|
    ensures z >= 0 ==> next == Min(off + z, |p|)
    ensures z < 0 ==> next == off
  {
    next := off;
    var i := 0;
    while i < z
      invariant 0 <= i && (z >= 0 ==> i <= z) && (z < 0 ==> i == 0) && next == off + i <= |p|
    {
      if next == |p| {
        return;
      }
      next := next + 1;
      i := i + 1;
    }
  }

  /** `ParseMessage`'s argument loop: the arguments read, in tag order, and the error that ended it. */
  method ReadArgumentsFrom(p: Bytes, off: nat, tags: Bytes) returns (args: seq<Bytes>, err: Option<OscError>)
    requires off <= |p|
    ensures (args, err) == ReadArguments(p, off, tags)
  {
    args := [];
    var cursor: nat := off;
    var k := 0;
    while k < |tags|
      invariant 0 <= k <= |tags| && cursor <= |p|
      invariant args + ReadArguments(p, cursor, tags[k..]).0 == ReadArguments(p, off, tags).0
      invariant ReadArguments(p, cursor, tags[k..]).1 == ReadArguments(p, off, tags).1
    {
      assert tags[k..][0] == tags[k] && tags[k..][1..] == tags[k + 1..];
      var next, arg, e := ReadArgumentFrom(p, cursor, tags[k]);
      var got := if arg.Some? then [arg.value] else [];
      ghost var later := ReadArguments(p, next, tags[k + 1..]);
      AppendAssoc(args, got, later.0);
      args := args + got;
      if e.Some? {
        assert ReadArguments(p, cursor, tags[k..]) == (got, e);
        return args, e;
      }
      cursor := next;
      k := k + 1;
    }
    assert tags[k..] == [] && args + [] == args;
    return args, None;
  }

  // ---------------------------------------------------------------- properties

  /** The arguments `AddInt` and `AddFloat` store for the given 4-byte payloads. */
  function NumericArgs(payloads: seq<Bytes>): (args: seq<Bytes>)
    ensures |args| == |payloads|
    ensures forall k :: 0 <= k < |payloads| ==> args[k] == payloads[k] + Zeros(4)
  {
    seq(|payloads|, k requires 0 <= k < |payloads| => payloads[k] + Zeros(4))
  }

  predicate NumericTags(tags: Bytes)
  {
    forall k :: 0 <= k < |tags| ==> tags[k] == TAG_INT || tags[k] == TAG_FLOAT
  }

  /** Reading numeric arguments laid out one after the other recovers their payloads. */
  lemma {:induction false} ReadNumericArguments(p: Bytes, off: nat, tags: Bytes, payloads: seq<Bytes>)
    requires NumericTags(tags) && |tags| == |payloads|
    requires forall k :: 0 <= k < |payloads| ==> |payloads[k]| == 4
    requires off + |Concat(NumericArgs(payloads))| <= |p|
    requires p[off..off + |Concat(NumericArgs(payloads))|] == Concat(NumericArgs(payloads))
    ensures ReadArguments(p, off, tags) == (payloads, None)
    decreases |tags|
  {
    if tags != [] {
      var c := Concat(NumericArgs(payloads));
      assert NumericArgs(payloads)[1..] == NumericArgs(payloads[1..]);
      var c' := Concat(NumericArgs(payloads[1..]));
      assert c == payloads[0] + Zeros(4) + c';
      assert p[off..off + 4] == c[..4] == payloads[0];
      assert p[off + 8..off + 8 + |c'|] == c[8..] == c';
      ReadNumericArguments(p, off + 8, tags[1..], payloads[1..]);
      assert [payloads[0]] + payloads[1..] == payloads;
    }
  }

  /** `Parse` once the comma and the NUL ending the tags are known. */
  lemma ParseOfHeader(p: Bytes, c: nat, z: nat, address: Bytes, tags: Bytes, off: nat, r: (seq<Bytes>, Option<OscError>))
    requires c < z <= |p|
    requires Find(p, 0, COMMA) == Some(c) && Find(p, c + 1, NUL) == Some(z)
    requires address == OscUtil.TrimZeroBytesRight(p[..c]) && tags == p[c + 1..z]
    requires off == Min(z + ZeroBytesToAdd(|tags| + 1), |p|) && r == ReadArguments(p, off, tags)
    ensures Parse(p) == Parsed(address, tags, r.0, r.1)
  {
    HeaderOfFinds(p, c, z, address, tags);
  }

  /** The header of a packet whose ',' and terminating NUL are found at `c` and `z`. */
  lemma HeaderOfFinds(p: Bytes, c: nat, z: nat, address: Bytes, tags: Bytes)
    requires c < z <= |p|
    requires Find(p, 0, COMMA) == Some(c) && Find(p, c + 1, NUL) == Some(z)
    requires address == OscUtil.TrimZeroBytesRight(p[..c]) && tags == p[c + 1..z]
    ensures ParseHeader(p) == HeaderOk(address, tags, Min(z + ZeroBytesToAdd(|tags| + 1), |p|))
  {
    match Find(p, 0, COMMA)
    case Some(c') =>
      assert c' == c;
      match Find(p, c + 1, NUL)
      case Some(z') =>
        assert z' == z;
  }

  /** A packet laid out as an encoded one: the address padded with NULs (and no comma), a ',' at
      `n`, the tags (no NUL among them), then a NUL. */
  predicate HeaderLayout(p: Bytes, n: nat, address: Bytes, tags: Bytes)
  {
    && |address| <= n && n + 1 + |tags| < |p|
    && (forall k :: 0 <= k < n ==> p[k] != COMMA)
    && p[..n] == address + Zeros(n - |address|) && p[n] == COMMA
    && (address == [] || address[|address| - 1] != NUL)
    && p[n + 1..n + 1 + |tags|] == tags && NUL !in tags && p[n + 1 + |tags|] == NUL
  }

  /** How `Parse` reads a packet with that layout. */
  lemma ParseOfLayout(p: Bytes, n: nat, address: Bytes, tags: Bytes, off: nat, r: (seq<Bytes>, Option<OscError>))
    requires HeaderLayout(p, n, address, tags)
    requires off == Min(n + 1 + |tags| + ZeroBytesToAdd(|tags| + 1), |p|) && r == ReadArguments(p, off, tags)
    ensures Parse(p) == Parsed(address, tags, r.0, r.1)
  {
    FindAt(p, 0, COMMA, n);
    var z := n + 1 + |tags|;
    assert forall k :: n + 1 <= k < z ==> p[k] == tags[k - n - 1];
    FindAt(p, n + 1, NUL, z);
    OscUtil.TrimRightOfPadded(address, n - |address|);
    ParseOfHeader(p, n, z, address, tags, off, r);
  }

  /** Indexing and slicing past the first part of a concatenation. */
  lemma AfterPrefix(a: Bytes, q: Bytes, i: nat, j: nat)
    requires i <= j <= |q|
    ensures (a + q)[|a| + i..|a| + j] == q[i..j]
    ensures j < |q| ==> (a + q)[|a| + j] == q[j]
  {
  }

  /** The address block at the start of a packet: no comma, the address, then NULs. */
  lemma EncodedAddress(address: Bytes, q: Bytes)
    requires forall k :: 0 <= k < |address| ==> address[k] != COMMA
    ensures var ab := AddressBlock(address);
      && (forall k :: 0 <= k < |ab| ==> (ab + q)[k] != COMMA)
      && (ab + q)[..|ab|] == address + Zeros(|ab| - |address|)
  {
    var ab := AddressBlock(address);
    assert (ab + q)[..|ab|] == ab;
  }

  /** The tag block: ',', the tags, then a NUL. */
  lemma EncodedTags(tags: Bytes, r: Bytes)
    requires tags != []
    ensures var q := TagBlock(tags) + r;
      && 1 + |tags| < |q| && q[0] == COMMA
      && q[1..1 + |tags|] == tags && q[1 + |tags|] == NUL
  {
    var tb := TagBlock(tags);
    assert (tb + r)[1..1 + |tags|] == tb[1..1 + |tags|];
  }

  /** The header facts `ParseOfLayout` needs, for a packet made of an address block, a tag block
      and anything after them. */
  lemma EncodedHeader(address: Bytes, tags: Bytes, r: Bytes)
    requires forall k :: 0 <= k < |address| ==> address[k] != COMMA
    requires address == [] || address[|address| - 1] != NUL
    requires tags != [] && NUL !in tags
    ensures HeaderLayout(AddressBlock(address) + (TagBlock(tags) + r), |AddressBlock(address)|, address, tags)
  {
    var ab, q := AddressBlock(address), TagBlock(tags) + r;
    EncodedAddress(address, q);
    EncodedTags(tags, r);
    AfterPrefix(ab, q, 0, 0);
    AfterPrefix(ab, q, 1, 1 + |tags|);
  }

  /** The argument section of such a packet starts right after the tag block. */
  lemma EncodedBody(address: Bytes, tags: Bytes, c: Bytes, rest: Bytes, p: Bytes)
    requires p == AddressBlock(address) + (TagBlock(tags) + (c + rest))
    ensures var off := |AddressBlock(address)| + |TagBlock(tags)|;
      off + |c| <= |p| && p[off..off + |c|] == c
  {
    var n, tb := |AddressBlock(address)|, TagBlock(tags);
    assert forall k :: 0 <= k < |c| ==> p[n + |tb| + k] == (tb + (c + rest))[|tb| + k] == c[k];
  }

  /** Numeric arguments are never empty, so `MakePacket` succeeds. */
  lemma EncodeNumeric(address: Bytes, tags: Bytes, payloads: seq<Bytes>)
    requires forall k :: 0 <= k < |payloads| ==> |payloads[k]| == 4
    ensures Encode(address, tags, NumericArgs(payloads))
      == Ok(AddressBlock(address) + TagBlock(tags) + Concat(NumericArgs(payloads)))
  {
    var args := NumericArgs(payloads);
    assert forall i :: 0 <= i < |args| ==> |args[i]| == 8;
  }

  /** `Parse` on an address block, a tag block, numeric arguments and any trailing bytes. */
  lemma ParseNumericPacket(address: Bytes, tags: Bytes, payloads: seq<Bytes>, rest: Bytes)
    requires forall k :: 0 <= k < |address| ==> address[k] != COMMA
    requires address == [] || address[|address| - 1] != NUL
    requires NumericTags(tags) && |tags| == |payloads| > 0
    requires forall k :: 0 <= k < |payloads| ==> |payloads[k]| == 4
    ensures Parse(AddressBlock(address) + (TagBlock(tags) + (Concat(NumericArgs(payloads)) + rest)))
      == Parsed(address, tags, payloads, None)
  {
    var ab, tb, c := AddressBlock(address), TagBlock(tags), Concat(NumericArgs(payloads));
    var p := ab + (tb + (c + rest));
    assert NUL !in tags;
    EncodedHeader(address, tags, c + rest);
    EncodedBody(address, tags, c, rest, p);
    ParseOfNumericLayout(p, |ab|, address, tags, |ab| + |tb|, payloads);
  }

  /** `Parse` on a packet with that layout whose numeric arguments start at `off`. */
  lemma ParseOfNumericLayout(p: Bytes, n: nat, address: Bytes, tags: Bytes, off: nat, payloads: seq<Bytes>)
    requires HeaderLayout(p, n, address, tags)
    requires NumericTags(tags) && |tags| == |payloads|
    requires forall k :: 0 <= k < |payloads| ==> |payloads[k]| == 4
    requires off == n + 1 + |tags| + ZeroBytesToAdd(|tags| + 1)
    requires off + |Concat(NumericArgs(payloads))| <= |p|
    requires p[off..off + |Concat(NumericArgs(payloads))|] == Concat(NumericArgs(payloads))
    ensures Parse(p) == Parsed(address, tags, payloads, None)
  {
    ReadNumericArguments(p, off, tags, payloads);
    ParseOfLayout(p, n, address, tags, off, (payloads, None));
  }

  /** Round trip: a packet built from an address (no ',' and no trailing NUL) and one or more
      `AddInt`/`AddFloat` arguments parses back into the address, the tags and the payloads,
      whatever bytes follow it in the receive buffer. */
  lemma ParseEncodeNumeric(address: Bytes, tags: Bytes, payloads: seq<Bytes>, rest: Bytes)
    requires forall k :: 0 <= k < |address| ==> address[k] != COMMA
    requires address == [] || address[|address| - 1] != NUL
    requires NumericTags(tags) && |tags| == |payloads| > 0
    requires forall k :: 0 <= k < |payloads| ==> |payloads[k]| == 4
    ensures Encode(address, tags, NumericArgs(payloads)).Ok?
    ensures Parse(Encode(address, tags, NumericArgs(payloads)).value + rest) == Parsed(address, tags, payloads, None)
  {
    var ab, tb, c := AddressBlock(address), TagBlock(tags), Concat(NumericArgs(payloads));
    EncodeNumeric(address, tags, payloads);
    AppendAssoc(ab + tb, c, rest);
    AppendAssoc(ab, tb, c + rest);
    ParseNumericPacket(address, tags, payloads, rest);
  }

  /** A packet without a ',' byte never parses: ParseMessage returns io.EOF and stores nothing. */
  lemma NoCommaNoParse(p: Bytes)
    requires forall k :: 0 <= k < |p| ==> p[k] != COMMA
    ensures Parse(p) == NoAddress
  {
    FindAt(p, 0, COMMA, |p|);
  }

  /** A message with no arguments has a comma-less tag block, so its packet never parses back. */
  lemma ZeroTagsDoNotParse(address: Bytes, rest: Bytes)
    requires forall k :: 0 <= k < |address| ==> address[k] != COMMA
    requires forall k :: 0 <= k < |rest| ==> rest[k] != COMMA
    ensures Encode(address, [], []) == Ok(AddressBlock(address) + Zeros(4))
    ensures Parse(Encode(address, [], []).value + rest) == NoAddress
  {
    var ab := AddressBlock(address);
    assert Concat([]) == [] && TagBlock([]) == Zeros(4);
    assert AddressBlock(address) + TagBlock([]) + Concat([]) == ab + Zeros(4);
    var p := ab + Zeros(4) + rest;
    assert Encode(address, [], []).value + rest == p;
    assert forall k :: 0 <= k < |ab| ==> ab[k] != COMMA;
    assert forall k :: 0 <= k < |p| ==> p[k] != COMMA by {
      forall k | 0 <= k < |p|
        ensures p[k] != COMMA
      {
        if k < |ab| {
        } else if k < |ab| + 4 {
          assert p[k] == NUL;
        } else {
          assert p[k] == rest[k - |ab| - 4];
        }
      }
    }
    NoCommaNoParse(p);
  }

  /** `MakePacket` fails exactly when some argument is empty (`AddString("")`). */
  lemma EncodeFailsOnEmptyArgument(address: Bytes, tags: Bytes, args: seq<Bytes>, i: nat)
    requires i < |args| && args[i] == []
    ensures Encode(address, tags, args) == Err(CouldNotWriteArgBytes)
  {
  }
}
