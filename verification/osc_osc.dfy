/** The connection-level operations of package osc (osc/osc.go): `SendString`, `Send`, `Listen`
    and `Inquire`. The UDP socket is abstracted: a write or read either succeeds or fails as the
    caller's parameter says, and the datagram a read receives is a parameter too. */
module Osc {
  import opened Wrappers
  import opened GoTypes
  import OscUtil
  import GoText
  import opened OscMessage

  const TILDE: byte := 126  // '~'

  /** `Listen` reads into a buffer of this many bytes. */
  const LISTEN_BUFFER: nat := 256

  // ---------------------------------------------------------------- SendString

  /** The byte `SendString` writes for byte `b` of its input: '~' stands for NUL. */
  function TildeToNul(b: byte): (r: byte)
    ensures r != TILDE
    ensures b != TILDE ==> r == b
  {
    if b == TILDE then NUL else b
  }

  /** What `SendString` writes for `s`: `for i := range s` visits the first byte of every rune,
      so one byte is written per rune (per byte of an invalid sequence). */
  function SendStringBytes(s: Bytes): (r: Bytes)
    ensures |r| <= |s|
    decreases |s|
  {
    if s == [] then [] else [TildeToNul(s[0])] + SendStringBytes(s[GoText.RuneWidth(s)..])
  }

  /** `SendString`: the loop over rune starts into a strings.Builder, then one `conn.Write`. */
  method SendString(s: Bytes, writeOk: bool) returns (written: Bytes, err: Option<OscError>)
    ensures written == SendStringBytes(s)
    ensures err == if writeOk then None else Some(WriteFailed)
  {
    var sb: Bytes := [];
    var i := 0;
    while i < |s|
      invariant 0 <= i <= |s|
      invariant sb + SendStringBytes(s[i..]) == SendStringBytes(s)
      decreases |s| - i
    {
      var w := GoText.RuneWidth(s[i..]);
      assert s[i..][w..] == s[i + w..];
      AppendAssoc(sb, [TildeToNul(s[i])], SendStringBytes(s[i + w..]));
      if s[i] == TILDE {
        sb := sb + [NUL];
      } else {
        sb := sb + [s[i]];
      }
      i := i + w;
    }
    assert sb + [] == sb;
    written := sb;
    err := if writeOk then None else Some(WriteFailed);
  }

  /** No '~' survives `SendString`. */
  lemma {:induction false} SendStringNoTilde(s: Bytes)
    ensures forall k :: 0 <= k < |SendStringBytes(s)| ==> SendStringBytes(s)[k] != TILDE
    decreases |s|
  {
    if s != [] {
      SendStringNoTilde(s[GoText.RuneWidth(s)..]);
    }
  }

  /** On ASCII input `SendString` writes exactly `len(s)` bytes, mapping each '~' to NUL and
      leaving every other byte as it is. */
  lemma {:induction false} SendStringAscii(s: Bytes)
    requires forall k :: 0 <= k < |s| ==> s[k] < 0x80
    ensures |SendStringBytes(s)| == |s|
    ensures forall k :: 0 <= k < |s| ==> SendStringBytes(s)[k] == TildeToNul(s[k])
    decreases |s|
  {
    if s != [] {
      SendStringAscii(s[1..]);
    }
  }

  /** Of a two-byte rune only the lead byte is written. */
  lemma SendStringTwoByteRune(s: Bytes)
    requires |s| >= 2 && 0xC2 <= s[0] <= 0xDF && GoText.IsContinuation(s[1])
    ensures SendStringBytes(s) == [s[0]] + SendStringBytes(s[2..])
  {
  }

  // ---------------------------------------------------------------- Send

  /** The bytes `Send` writes: the stored packet, or a freshly made one when it is empty. */
  function OutgoingPacket(packet: Bytes, address: Bytes, typeTags: Bytes, arguments: seq<Bytes>): (r: Result<Bytes, OscError>)
    ensures packet != [] ==> r == Ok(packet)
    ensures packet == [] ==> r == Encode(address, typeTags, arguments)
  {
    if |packet| == 0 then Encode(address, typeTags, arguments) else Ok(packet)
  }

  /** `Send`: works on a copy of the message (Go passes it by value), makes the packet only when
      there is none, returns MakePacket's error before writing, and otherwise writes the packet. */
  method Send(msg: Message, writeOk: bool) returns (written: Option<Bytes>, err: Option<OscError>)
    ensures var out := OutgoingPacket(msg.packet, msg.address, msg.typeTags, msg.arguments);
      && (out.Err? ==> written.None? && err == Some(out.error))
      && (out.Ok? ==> written == Some(out.value) && err == if writeOk then None else Some(WriteFailed))
  {
    var m := new Message.Copy(msg);
    if |m.packet| == 0 {
      var e := m.MakePacket();
      if e.Some? {
        return None, e;
      }
    }
    written := Some(m.packet);
    err := if writeOk then None else Some(WriteFailed);
  }

  /** A message built by `AddInt`/`AddFloat` calls is sent as a packet that parses back into its
      address, its tags and its payloads. */
  lemma SendNumericParses(address: Bytes, tags: Bytes, payloads: seq<Bytes>)
    requires forall k :: 0 <= k < |address| ==> address[k] != COMMA
    requires address == [] || address[|address| - 1] != NUL
    requires NumericTags(tags) && |tags| == |payloads| > 0
    requires forall k :: 0 <= k < |payloads| ==> |payloads[k]| == 4
    ensures OutgoingPacket([], address, tags, NumericArgs(payloads)).Ok?
    ensures Parse(OutgoingPacket([], address, tags, NumericArgs(payloads)).value) == Parsed(address, tags, payloads, None)
  {
    ParseEncodeNumeric(address, tags, payloads, []);
    var p := Encode(address, tags, NumericArgs(payloads)).value;
    assert p + [] == p;
  }

  // ---------------------------------------------------------------- Listen

  /** The 256-byte buffer after `conn.Read`: the datagram (cut to the buffer's size) and the
      NULs `make` left behind it. */
  function ReadBuffer(datagram: Bytes): (b: Bytes)
    ensures |b| == LISTEN_BUFFER
    ensures |datagram| <= LISTEN_BUFFER ==> b == datagram + Zeros(LISTEN_BUFFER - |datagram|)
    ensures |datagram| > LISTEN_BUFFER ==> b == datagram[..LISTEN_BUFFER]
  {
    var n := Min(|datagram|, LISTEN_BUFFER);
    datagram[..n] + Zeros(LISTEN_BUFFER - n)
  }

  /** The error `ParseMessage` returns for a parse outcome. */
  function ParseError(o: ParseOutcome): (e: Option<OscError>)
    ensures !o.Parsed? ==> e == Some(EndOfBuffer)
    ensures o.Parsed? ==> e == o.err
  {
    match o
    case NoAddress => Some(EndOfBuffer)
    case NoTypeTags(_) => Some(EndOfBuffer)
    case Parsed(_, _, _, e) => e
  }

  /** The fields of a fresh message after `ParseMessage` produced outcome `o`. */
  predicate ParsedInto(o: ParseOutcome, address: Bytes, typeTags: Bytes, arguments: seq<Bytes>)
  {
    match o
    case NoAddress => address == [] && typeTags == [] && arguments == []
    case NoTypeTags(a) => address == a && typeTags == [] && arguments == []
    case Parsed(a, t, args, _) => address == a && typeTags == t && arguments == args
  }

  /** `Listen`: one read into a 256-byte buffer, then `ParseMessage` on the whole buffer, NUL
      tail included, however few bytes arrived. A failed read returns no message. */
  method Listen(readOk: bool, datagram: Bytes) returns (msg: Message?, err: Option<OscError>)
    ensures !readOk ==> msg == null && err == Some(ReadFailed)
    ensures readOk ==> msg != null && fresh(msg) && msg.packet == ReadBuffer(datagram)
    ensures readOk ==> err == ParseError(Parse(msg.packet))
    ensures readOk ==> ParsedInto(Parse(msg.packet), msg.address, msg.typeTags, msg.arguments)
  {
    if !readOk {
      return null, Some(ReadFailed);
    }
    var byt := ReadBuffer(datagram);
    msg := new Message.FromPacket(byt);
    err := msg.ParseMessage();
  }

  // ---------------------------------------------------------------- Inquire

  /** The reply arguments decoded one by one, in order. */
  function DecodeAll(typeTags: Bytes, arguments: seq<Bytes>): (vs: seq<Value>)
    requires |arguments| <= |typeTags|
    ensures |vs| == |arguments|
    ensures forall k :: 0 <= k < |arguments| ==> vs[k] == DecodeValue(typeTags[k], arguments[k])
  {
    if arguments == [] then []
    else DecodeAll(typeTags, arguments[..|arguments| - 1]) + [DecodeValue(typeTags[|arguments| - 1], arguments[|arguments| - 1])]
  }

  /** What `Inquire` makes of the reply datagram: the parse error, or the decoded arguments. */
  function Reply(datagram: Bytes): Result<seq<Value>, OscError>
  {
    match Parse(ReadBuffer(datagram))
    case NoAddress => Err(EndOfBuffer)
    case NoTypeTags(_) => Err(EndOfBuffer)
    case Parsed(_, t, args, e) => if e.Some? then Err(e.value) else Ok(DecodeAll(t, args))
  }

  /** What `Inquire` returns, step by step: the `Send` error, the `Listen` error, or the reply. */
  function InquireOutcome(out: Result<Bytes, OscError>, writeOk: bool, readOk: bool, datagram: Bytes): Result<seq<Value>, OscError>
  {
    if out.Err? then Err(out.error)
    else if !writeOk then Err(WriteFailed)
    else if !readOk then Err(ReadFailed)
    else Reply(datagram)
  }

  /** `Inquire`: `Send`, then `Listen`, then one decoded value per reply argument; any error is
      returned at once with no values. */
  method Inquire(msg: Message, writeOk: bool, readOk: bool, datagram: Bytes) returns (a: seq<Value>, err: Option<OscError>)
    ensures var r := InquireOutcome(OutgoingPacket(msg.packet, msg.address, msg.typeTags, msg.arguments), writeOk, readOk, datagram);
      && (r.Err? ==> a == [] && err == Some(r.error))
      && (r.Ok? ==> a == r.value && err.None?)
  {
    var _, e := Send(msg, writeOk);
    if e.Some? {
      return [], e;
    }
    var reply;
    reply, err := Listen(readOk, datagram);
    if err.Some? {
      return [], err;
    }
    assert Parse(reply.packet) == Parsed(reply.address, reply.typeTags, reply.arguments, None);
    a := DecodeReply(reply);
  }

  /** `Inquire`'s loop: `DecodeArgument(i)` for every argument of the reply, in order. */
  method DecodeReply(reply: Message) returns (a: seq<Value>)
    requires |reply.arguments| <= |reply.typeTags|
    ensures a == DecodeAll(reply.typeTags, reply.arguments)
  {
    a := [];
    var i := 0;
    while i < |reply.arguments|
      invariant 0 <= i <= |reply.arguments|
      invariant a == DecodeAll(reply.typeTags, reply.arguments[..i])
    {
      assert reply.arguments[..i + 1][..i] == reply.arguments[..i];
      a := a + [reply.DecodeArgument(i)];
      i := i + 1;
    }
    assert reply.arguments[..i] == reply.arguments;
  }

  /** A reply that is a numeric message of at most 256 bytes decodes into its int32 and float32
      values, in order. */
  lemma ReplyOfNumericPacket(address: Bytes, tags: Bytes, payloads: seq<Bytes>, p: Bytes)
    requires forall k :: 0 <= k < |address| ==> address[k] != COMMA
    requires address == [] || address[|address| - 1] != NUL
    requires NumericTags(tags) && |tags| == |payloads| > 0
    requires forall k :: 0 <= k < |payloads| ==> |payloads[k]| == 4
    requires Encode(address, tags, NumericArgs(payloads)) == Ok(p) && |p| <= LISTEN_BUFFER
    ensures Reply(p).Ok? && |Reply(p).value| == |payloads|
    ensures forall k :: 0 <= k < |payloads| ==>
      Reply(p).value[k] == if tags[k] == TAG_INT then Int32(OscUtil.BytesToInt32(payloads[k])) else Float32(OscUtil.Uint32BE(payloads[k]))
  {
    ParseEncodeNumeric(address, tags, payloads, Zeros(LISTEN_BUFFER - |p|));
    assert ReadBuffer(p) == p + Zeros(LISTEN_BUFFER - |p|);
    assert Parse(ReadBuffer(p)) == Parsed(address, tags, payloads, None);
    var vs := DecodeAll(tags, payloads);
    assert Reply(p) == Ok(vs);
    forall k | 0 <= k < |payloads|
      ensures vs[k] == if tags[k] == TAG_INT then Int32(OscUtil.BytesToInt32(payloads[k])) else Float32(OscUtil.Uint32BE(payloads[k]))
    {
      assert vs[k] == DecodeValue(tags[k], payloads[k]);
    }
  }
}
