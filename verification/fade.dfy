/** The fade planner of package main (fade.go): unit values to fader steps, one OSC message per
    step, and the outcome of the send loop as a function of what each send and the fader's
    `active` flag do. The methods that change a fader or the mixer are in module Comm, with the
    classes they belong to. */
module Fade {
  import opened Wrappers
  import opened GoTypes
  import GoText
  import Util
  import OscUtil
  import opened OscMessage
  import Osc

  /** The errors of the fade functions, and the panic of an out-of-range fader index. */
  datatype FadeError =
    | InvalidUnit         // "invalid unit interval value"
    | InvalidStart        // "invalid start value"
    | InvalidStop         // "invalid stop value"
    | FadeInterrupted     // "fade interrupted"
    | TooManyFailures     // "too many failures sending osc msg"
    | InMotion            // "fader currently in motion"
    | LevelUnavailable    // an error from the fader's getLevel
    | IndexOutOfRange     // m.faders[channelID] with channelID outside the slice: a Go panic

  /** The number of consecutive failed sends after which `triggerFade` gives up. */
  const MAX_FAILURES: nat := 10

  // ---------------------------------------------------------------- unit values

  /** Go's `int(x)` on a float: truncation toward zero. */
  function Trunc(x: real): (n: int)
    ensures x >= 0.0 ==> n >= 0 && n as real <= x < n as real + 1.0
    ensures x < 0.0 ==> n <= 0 && n as real - 1.0 < x <= n as real
  {
    if x >= 0.0 then x.Floor else -((-x).Floor)
  }

  /** Truncation never reverses an order. */
  lemma TruncMonotone(x: real, y: real)
    requires x <= y
    ensures Trunc(x) <= Trunc(y)
  {
  }

  /** Scaling by a non-negative factor keeps the order of two values. */
  lemma ScaleUp(x: real, y: real, r: real)
    requires x <= y && r >= 0.0
    ensures x * r <= y * r
  {
    assert y * r - x * r == (y - x) * r;
  }

  /** Scaling by a negative factor reverses it. */
  lemma ScaleDown(x: real, y: real, r: real)
    requires x <= y && r < 0.0
    ensures y * r <= x * r
  {
    assert x * r - y * r == (y - x) * -r;
  }

  /** The same holds for scaling followed by truncation. */
  lemma TruncScaled(x: real, y: real, r: real)
    requires x <= y
    ensures r >= 0.0 ==> Trunc(x * r) <= Trunc(y * r)
    ensures r < 0.0 ==> Trunc(y * r) <= Trunc(x * r)
  {
    if r >= 0.0 {
      ScaleUp(x, y, r);
      TruncMonotone(x * r, y * r);
    } else {
      ScaleDown(x, y, r);
      TruncMonotone(y * r, x * r);
    }
  }

  /** `unitToFaderValue`: a value of the unit interval scaled to fader steps; anything outside
      [0, 1] is (-1, error). The product is exact: float32 rounding is not modelled. */
  function UnitToFaderValue(u: real, faderResolution: real): (r: (int, Option<FadeError>))
    ensures r.1.Some? <==> u < 0.0 || u > 1.0
    ensures r.1.Some? ==> r == (-1, Some(InvalidUnit))
    ensures r.1.None? ==> r.0 == Trunc(u * faderResolution)
  {
    if u < 0.0 || u > 1.0 then (-1, Some(InvalidUnit)) else (Trunc(u * faderResolution), None)
  }

  /** With a non-negative resolution a unit value maps into 0..Trunc(resolution), in order. */
  lemma UnitToFaderValueOrdered(u: real, v: real, faderResolution: real)
    requires 0.0 <= u <= v <= 1.0 && faderResolution >= 0.0
    ensures 0 <= UnitToFaderValue(u, faderResolution).0 <= UnitToFaderValue(v, faderResolution).0
    ensures UnitToFaderValue(v, faderResolution).0 <= Trunc(faderResolution)
  {
    TruncScaled(u, v, faderResolution);
    TruncScaled(v, 1.0, faderResolution);
    assert 1.0 * faderResolution == faderResolution;
  }

  // ---------------------------------------------------------------- fade steps

  /** `getFadeMessages`' step: down when the start is above the stop, up otherwise. */
  function Step(startI: int, stopI: int): int
  {
    if startI > stopI then -1 else 1
  }

  /** The fader values of a fade, one per message: from startI (included) towards stopI
      (excluded) in steps of one. */
  function FadeUnits(startI: int, stopI: int): seq<int>
    decreases Util.Dist(startI, stopI)
  {
    if startI == stopI then [] else [startI] + FadeUnits(startI + Step(startI, stopI), stopI)
  }

  /** A fade has `getDist(startI, stopI)` steps; step k is startI + k going up, startI - k going
      down. */
  lemma {:induction false} FadeUnitsAt(startI: int, stopI: int)
    ensures |FadeUnits(startI, stopI)| == Util.Dist(startI, stopI)
    ensures forall k :: 0 <= k < |FadeUnits(startI, stopI)| ==>
      FadeUnits(startI, stopI)[k] == if startI > stopI then startI - k else startI + k
    decreases Util.Dist(startI, stopI)
  {
    if startI != stopI {
      FadeUnitsAt(startI + Step(startI, stopI), stopI);
    }
  }

  /** The stop value itself is never sent, and the start value is sent unless it is the stop. */
  lemma FadeUnitsEnds(startI: int, stopI: int)
    ensures stopI !in FadeUnits(startI, stopI)
    ensures startI != stopI ==> FadeUnits(startI, stopI)[0] == startI
  {
    FadeUnitsAt(startI, stopI);
    var us := FadeUnits(startI, stopI);
    assert forall k :: 0 <= k < |us| ==> us[k] != stopI;
  }

  // ---------------------------------------------------------------- fade messages

  /** The address of every message of a fade: the fader path of the channel. */
  function FadeAddress(channelID: int): Bytes
  {
    GoText.Utf8Encode(Util.FaderPath(channelID))
  }

  /** The one argument of a fade message: the float32 bits, then `AddFloat`'s 4 NULs. */
  function FadeArgument(bits: Float32Bits): (a: Bytes)
    ensures a == OscUtil.PutUint32BE(bits) + Zeros(4)
  {
    AddZeros(OscUtil.PutUint32BE(bits))
  }

  /** A message as `getFadeMessages` builds it for address `address` (the channel's
      `FadeAddress`) and value bits `bits`: `NewMessage(address)`, one `AddFloat`, then
      `MakePacket`. */
  predicate IsFadeMessage(m: Message, address: Bytes, bits: Float32Bits)
    reads m
  {
    && m.address == address
    && m.typeTags == [TAG_FLOAT]
    && m.arguments == [FadeArgument(bits)]
    && m.packet == FadePacket(address, bits)
  }

  /** The wire form of a fade message: the address block, the block of the one tag 'f', then the
      argument. */
  function FadePacket(address: Bytes, bits: Float32Bits): Bytes
  {
    AddressBlock(address) + TagBlock([TAG_FLOAT]) + FadeArgument(bits)
  }

  /** The value bits of each step of a fade: `levelBits` of its fader value. */
  function FadeBits(startI: int, stopI: int, levelBits: int -> Float32Bits): (bs: seq<Float32Bits>)
    ensures |bs| == |FadeUnits(startI, stopI)|
    ensures forall k :: 0 <= k < |bs| ==> bs[k] == levelBits(FadeUnits(startI, stopI)[k])
  {
    var us := FadeUnits(startI, stopI);
    seq(|us|, k requires 0 <= k < |us| => levelBits(us[k]))
  }

  /** `getFadeMessages`: one message per fade step, in order, each addressed to the channel's
      fader path. The value of step i is `float32(i) / faderResolution`, whose bit pattern is
      `levelBits(i)`. MakePacket cannot fail on these messages, so the error result is always
      nil. */
  method GetFadeMessages(channelID: int, startI: int, stopI: int, levelBits: int -> Float32Bits)
    returns (messages: seq<Message>, err: Option<OscError>)
    ensures err.None?
    ensures |messages| == |FadeUnits(startI, stopI)|
    ensures forall k :: 0 <= k < |messages| ==> fresh(messages[k])
    ensures forall k :: 0 <= k < |messages| ==>
      IsFadeMessage(messages[k], FadeAddress(channelID), FadeBits(startI, stopI, levelBits)[k])
  {
    messages := FadeMessages(GoText.Utf8Encode(Util.FaderPath(channelID)), startI, stopI, levelBits);
    err := None;
  }

  /** The loop of `getFadeMessages` for the messages' address `address` (the fader path, the same
      on every step). */
  method FadeMessages(address: Bytes, startI: int, stopI: int, levelBits: int -> Float32Bits)
    returns (messages: seq<Message>)
    ensures |messages| == |FadeUnits(startI, stopI)|
    ensures forall k :: 0 <= k < |messages| ==> fresh(messages[k])
    ensures forall k :: 0 <= k < |messages| ==>
      IsFadeMessage(messages[k], address, FadeBits(startI, stopI, levelBits)[k])
  {
    ghost var bits := FadeBits(startI, stopI, levelBits);
    FadeUnitsAt(startI, stopI);
    var step := if startI > stopI then -1 else 1;
    messages := [];
    var i := startI;
    while i != stopI
      invariant step == Step(startI, stopI)
      invariant if step == -1 then stopI <= i <= startI && i == startI - |messages|
        else startI <= i <= stopI && i == startI + |messages|
      invariant forall k :: 0 <= k < |messages| ==> fresh(messages[k])
      invariant forall k :: 0 <= k < |messages| ==> IsFadeMessage(messages[k], address, bits[k])
      decreases Util.Dist(i, stopI)
    {
      assert levelBits(i) == bits[|messages|];
      var msg := NewFadeMessage(address, levelBits(i));
      messages := messages + [msg];
      i := i + step;
    }
  }

  /** One message of `getFadeMessages`' loop: `NewMessage(address)`, `AddFloat` of the step's
      value, `MakePacket`. */
  method NewFadeMessage(address: Bytes, bits: Float32Bits) returns (msg: Message)
    ensures fresh(msg) && IsFadeMessage(msg, address, bits)
  {
    msg := new Message(address);
    var _ := msg.AddFloat(bits);
    EncodeFloat(address, bits);
    var _ := msg.MakePacket();
  }

  /** A one-float message always serialises, into its fade packet. */
  lemma EncodeFloat(address: Bytes, bits: Float32Bits)
    ensures Encode(address, [TAG_FLOAT], [FadeArgument(bits)]) == Ok(FadePacket(address, bits))
  {
    var arg := FadeArgument(bits);
    assert [arg][1..] == [];
    assert Concat([arg]) == arg + Concat([]) == arg;
    assert |arg| == 8;
  }

  /** ASCII text without a ',': its UTF-8 bytes can stand as an OSC address. */
  predicate PlainAscii(s: string)
  {
    forall k :: 0 <= k < |s| ==> s[k] != ',' && s[k] as int < 0x80
  }

  lemma PlainAsciiConcat(a: string, b: string)
    requires PlainAscii(a) && PlainAscii(b)
    ensures PlainAscii(a + b)
  {
    forall k | 0 <= k < |a + b|
      ensures (a + b)[k] != ',' && (a + b)[k] as int < 0x80
    {
      if k >= |a| {
        assert (a + b)[k] == b[k - |a|];
      }
    }
  }

  /** A prefix of plain characters followed by a zero-padded number is plain. */
  lemma PaddedPlain(prefix: string, n: nat)
    requires PlainAscii(prefix) && 1 <= n < 100
    ensures PlainAscii(prefix + GoText.ZeroPad2(n))
  {
    Util.ZeroPad2Value(n);
    PlainAsciiConcat(prefix, GoText.ZeroPad2(n));
  }

  /** The characters of a channel path are '/', letters and digits. */
  lemma PathChars(channelID: int)
    requires 0 <= channelID < Util.CHANNEL_COUNT
    ensures PlainAscii(Util.ChannelIDPath(channelID))
  {
    if channelID < 32 {
      assert PlainAscii("/ch/");
      PaddedPlain("/ch/", channelID + 1);
    } else if channelID < 40 {
      assert PlainAscii("/auxin/");
      PaddedPlain("/auxin/", channelID - 31);
    } else if channelID < 48 {
      assert PlainAscii("/fxrtn/");
      PaddedPlain("/fxrtn/", channelID - 39);
    } else if channelID < 64 {
      assert PlainAscii("/bus/");
      PaddedPlain("/bus/", channelID - 47);
    } else if channelID < 70 {
      assert PlainAscii("/mtx/");
      PaddedPlain("/mtx/", channelID - 63);
    } else if channelID < 72 {
      assert PlainAscii(Util.ChannelIDPath(channelID));
    } else {
      var digits := GoText.NatDigits(channelID - 71);
      assert PlainAscii("/dca/") && PlainAscii(digits);
      PlainAsciiConcat("/dca/", digits);
    }
  }

  /** A fader path is plain ASCII without ',' and ends in 'r'. */
  lemma FaderPathPlain(channelID: int)
    requires 0 <= channelID < Util.CHANNEL_COUNT
    ensures PlainAscii(Util.FaderPath(channelID))
    ensures Util.FaderPath(channelID) != [] && Util.FaderPath(channelID)[|Util.FaderPath(channelID)| - 1] == 'r'
  {
    var path := Util.ChannelIDPath(channelID);
    var p := Util.FaderPath(channelID);
    Util.FaderPathShape(channelID);
    PathChars(channelID);
    PlainFaderPath(path, p, channelID >= 72);
  }

  lemma PlainFaderPath(path: string, p: string, dca: bool)
    requires PlainAscii(path)
    requires p == path + (if dca then "/fader" else "/mix/fader")
    ensures PlainAscii(p) && p != [] && p[|p| - 1] == 'r'
  {
    assert PlainAscii("/fader") && PlainAscii("/mix/fader");
    if dca {
      PlainEndingR(path, "/fader");
    } else {
      PlainEndingR(path, "/mix/fader");
    }
  }

  lemma PlainEndingR(path: string, suffix: string)
    requires PlainAscii(path) && PlainAscii(suffix) && suffix != [] && suffix[|suffix| - 1] == 'r'
    ensures PlainAscii(path + suffix) && (path + suffix)[|path + suffix| - 1] == 'r'
  {
    PlainAsciiConcat(path, suffix);
  }

  /** No fader path holds a ',' and every one ends in 'r', so its bytes are a valid address. */
  lemma FaderPathAddress(channelID: int)
    requires 0 <= channelID < Util.CHANNEL_COUNT
    ensures forall k :: 0 <= k < |FadeAddress(channelID)| ==> FadeAddress(channelID)[k] != COMMA
    ensures FadeAddress(channelID) != [] && FadeAddress(channelID)[|FadeAddress(channelID)| - 1] != NUL
  {
    var p := Util.FaderPath(channelID);
    FaderPathPlain(channelID);
    GoText.Utf8EncodeAscii(p);
    var a := FadeAddress(channelID);
    assert a[|a| - 1] as int == 'r' as int;
    forall k | 0 <= k < |a|
      ensures a[k] != COMMA
    {
      assert a[k] as int == p[k] as int && p[k] != ',';
    }
  }

  /** Every fade message parses back into the channel's fader path, the 'f' tag and the value
      bits. */
  lemma FadePacketParses(channelID: int, bits: Float32Bits)
    requires 0 <= channelID < Util.CHANNEL_COUNT
    ensures Parse(FadePacket(FadeAddress(channelID), bits))
      == Parsed(FadeAddress(channelID), [TAG_FLOAT], [OscUtil.PutUint32BE(bits)], None)
  {
    FaderPathAddress(channelID);
    FloatPacketParses(FadeAddress(channelID), bits);
  }

  /** A one-float packet parses back to its address and float, for any address with no ',' and
      no trailing NUL. */
  lemma FloatPacketParses(address: Bytes, bits: Float32Bits)
    requires forall k :: 0 <= k < |address| ==> address[k] != COMMA
    requires address == [] || address[|address| - 1] != NUL
    ensures Parse(FadePacket(address, bits)) == Parsed(address, [TAG_FLOAT], [OscUtil.PutUint32BE(bits)], None)
  {
    EncodeFloat(address, bits);
    var payloads := [OscUtil.PutUint32BE(bits)];
    assert NumericArgs(payloads) == [FadeArgument(bits)];
    ParseEncodeNumeric(address, [TAG_FLOAT], payloads, []);
    assert FadePacket(address, bits) + [] == FadePacket(address, bits);
  }

  // ---------------------------------------------------------------- the send loop

  /** Whether each `osc.Send` of the loop returns nil: the message serialises and its write
      succeeds (`sendOk`, the connection's answer for the k-th send). */
  function Deliveries(messages: seq<Message>, sendOk: nat -> bool): (d: seq<bool>)
    reads messages
    ensures |d| == |messages|
    ensures forall k :: 0 <= k < |messages| ==>
      d[k] == (Osc.OutgoingPacket(messages[k].packet, messages[k].address, messages[k].typeTags, messages[k].arguments).Ok? && sendOk(k))
  {
    seq(|messages|, k reads messages requires 0 <= k < |messages| =>
      Osc.OutgoingPacket(messages[k].packet, messages[k].address, messages[k].typeTags, messages[k].arguments).Ok? && sendOk(k))
  }

  datatype FadeResult = Completed | Interrupted | GaveUp

  /** How the send loop ends: its result, the number of sends it made, and the fader's flag. */
  datatype FadeRun = FadeRun(result: FadeResult, attempts: nat, active: bool)

  /** `triggerFade` from message i on, with `failures` consecutive failed sends so far.
      `cleared(i)` says whether the flag was cleared from outside before the check of message i;
      `d[i]` whether the send of message i succeeds. */
  function RunFade(d: seq<bool>, i: nat, failures: nat, active: bool, cleared: nat -> bool): (r: FadeRun)
    requires i <= |d|
    ensures i <= r.attempts <= |d|
    ensures r.result == GaveUp ==> i < r.attempts && !d[r.attempts - 1]
    ensures r.result == Interrupted ==> r.attempts < |d| && (cleared(r.attempts) || (r.attempts == i && !active))
    decreases |d| - i
  {
    if i == |d| then FadeRun(Completed, i, active)
    else
      var stillActive := active && !cleared(i);
      if !stillActive then FadeRun(Interrupted, i, false)
      else
        var f := if d[i] then 0 else failures + 1;
        if f >= MAX_FAILURES then FadeRun(GaveUp, i + 1, false)
        else RunFade(d, i + 1, f, true, cleared)
  }

  function ErrorOf(r: FadeResult): Option<FadeError>
  {
    match r
    case Completed => None
    case Interrupted => Some(FadeInterrupted)
    case GaveUp => Some(TooManyFailures)
  }

  /** The loop sends in index order and no more than there are messages; it runs to the end
      only when it completes, and on every other exit the flag is down. */
  lemma {:induction false} RunFadeShape(d: seq<bool>, i: nat, failures: nat, active: bool, cleared: nat -> bool)
    requires i <= |d|
    ensures var r := RunFade(d, i, failures, active, cleared);
      && i <= r.attempts <= |d|
      && (r.result == Completed <==> r.attempts == |d| && (i < |d| ==> r.active))
      && (r.result != Completed ==> !r.active)
      && (r.result == Completed && i < |d| ==> active)
      && (r.result == Interrupted ==> r.attempts < |d|)
    decreases |d| - i
  {
    if i < |d| && active && !cleared(i) {
      var f := if d[i] then 0 else failures + 1;
      if f < MAX_FAILURES {
        RunFadeShape(d, i + 1, f, true, cleared);
      }
    }
  }

  /** The last `failures` sends before index i all failed. */
  predicate TrailingFailures(d: seq<bool>, i: nat, failures: nat)
    requires i <= |d|
  {
    failures <= i && forall k :: i - failures <= k < i ==> !d[k]
  }

  /** The loop gives up only after ten consecutive failed sends: a success resets the count. */
  lemma {:induction false} RunFadeGaveUp(d: seq<bool>, i: nat, failures: nat, active: bool, cleared: nat -> bool)
    requires i <= |d| && failures < MAX_FAILURES && TrailingFailures(d, i, failures)
    ensures var r := RunFade(d, i, failures, active, cleared);
      r.result == GaveUp ==> MAX_FAILURES <= r.attempts <= |d| && forall k :: r.attempts - MAX_FAILURES <= k < r.attempts ==> !d[k]
    decreases |d| - i
  {
    if i < |d| && active && !cleared(i) {
      var f := if d[i] then 0 else failures + 1;
      assert TrailingFailures(d, i + 1, f);
      if f < MAX_FAILURES {
        RunFadeGaveUp(d, i + 1, f, true, cleared);
      }
    }
  }

  /** The loop is interrupted only at a check that finds the flag down, and no check before it
      did. */
  lemma {:induction false} RunFadeInterrupted(d: seq<bool>, i: nat, failures: nat, active: bool, cleared: nat -> bool)
    requires i <= |d|
    ensures var r := RunFade(d, i, failures, active, cleared);
      r.result == Interrupted ==>
        && (cleared(r.attempts) || (!active && r.attempts == i))
        && forall j :: i <= j < r.attempts ==> !cleared(j)
    decreases |d| - i
  {
    if i < |d| && active && !cleared(i) {
      var f := if d[i] then 0 else failures + 1;
      if f < MAX_FAILURES {
        RunFadeInterrupted(d, i + 1, f, true, cleared);
      }
    }
  }

  /** Ten failed sends in a row from index k. */
  predicate FailRun(d: seq<bool>, k: nat)
  {
    k + MAX_FAILURES <= |d| && forall j :: k <= j < k + MAX_FAILURES ==> !d[j]
  }

  /** A fade that starts active, is never cleared and never meets ten failed sends in a row sends
      every message and completes. */
  lemma RunFadeCompletes(d: seq<bool>, cleared: nat -> bool)
    requires forall j :: 0 <= j < |d| ==> !cleared(j)
    requires forall k: nat :: !FailRun(d, k)
    ensures RunFade(d, 0, 0, true, cleared) == FadeRun(Completed, |d|, true)
  {
    var r := RunFade(d, 0, 0, true, cleared);
    RunFadeShape(d, 0, 0, true, cleared);
    RunFadeGaveUp(d, 0, 0, true, cleared);
    RunFadeInterrupted(d, 0, 0, true, cleared);
    if r.result == GaveUp {
      assert FailRun(d, r.attempts - MAX_FAILURES);
    }
  }

  /** Ten failed sends in a row from index k make a fade that is never cleared before them give
      up, by the tenth of them at the latest. */
  lemma TenInARowGivesUp(d: seq<bool>, k: nat, cleared: nat -> bool)
    requires FailRun(d, k)
    requires forall j :: 0 <= j < k + MAX_FAILURES ==> !cleared(j)
    ensures RunFade(d, 0, 0, true, cleared).result == GaveUp
    ensures RunFade(d, 0, 0, true, cleared).attempts <= k + MAX_FAILURES
  {
    FailRunReached(d, k, 0, 0, cleared);
  }

  /** From index i, before the end of the failing run at k, the count of failures covers the part
      of the run already seen. */
  lemma {:induction false} FailRunReached(d: seq<bool>, k: nat, i: nat, failures: nat, cleared: nat -> bool)
    requires FailRun(d, k)
    requires forall j :: 0 <= j < k + MAX_FAILURES ==> !cleared(j)
    requires i < k + MAX_FAILURES && failures < MAX_FAILURES
    requires k <= i ==> failures >= i - k
    ensures RunFade(d, i, failures, true, cleared).result == GaveUp
    ensures RunFade(d, i, failures, true, cleared).attempts <= k + MAX_FAILURES
    decreases k + MAX_FAILURES - i
  {
    var f := if d[i] then 0 else failures + 1;
    if f < MAX_FAILURES {
      FailRunReached(d, k, i + 1, f, cleared);
    }
  }

  /** When every send fails, a fade of ten or more steps gives up after exactly ten sends. */
  lemma RunFadeAllFail(d: seq<bool>, cleared: nat -> bool)
    requires |d| >= MAX_FAILURES && forall k :: 0 <= k < |d| ==> !d[k]
    requires forall j :: 0 <= j < MAX_FAILURES ==> !cleared(j)
    ensures RunFade(d, 0, 0, true, cleared) == FadeRun(GaveUp, MAX_FAILURES, false)
  {
    AllFailFrom(d, 0, cleared);
  }

  lemma {:induction false} AllFailFrom(d: seq<bool>, i: nat, cleared: nat -> bool)
    requires |d| >= MAX_FAILURES && forall k :: 0 <= k < |d| ==> !d[k]
    requires forall j :: 0 <= j < MAX_FAILURES ==> !cleared(j)
    requires i < MAX_FAILURES
    ensures RunFade(d, i, i, true, cleared) == FadeRun(GaveUp, MAX_FAILURES, false)
    decreases MAX_FAILURES - i
  {
    if i + 1 < MAX_FAILURES {
      AllFailFrom(d, i + 1, cleared);
    }
  }

  /** The send results of a fade whose messages all serialise: the connection's answers. */
  function SendResults(n: nat, sendOk: nat -> bool): (d: seq<bool>)
    ensures |d| == n && forall k :: 0 <= k < n ==> d[k] == sendOk(k)
  {
    seq(n, k requires 0 <= k < n => sendOk(k))
  }

  /** Fade messages always serialise, so their sends succeed exactly when the writes do. */
  lemma DeliveriesOfFadeMessages(messages: seq<Message>, address: Bytes, bits: seq<Float32Bits>, sendOk: nat -> bool)
    requires |messages| == |bits|
    requires forall k :: 0 <= k < |messages| ==> IsFadeMessage(messages[k], address, bits[k])
    ensures Deliveries(messages, sendOk) == SendResults(|messages|, sendOk)
  {
  }

  // ---------------------------------------------------------------- makeFade as a whole

  /** What `makeFade` reports: its error, the number of sends, and whether it raised the fader's
      flag (from then on the flag is down again on every exit). */
  datatype FadeReport = FadeReport(err: Option<FadeError>, sent: nat, touched: bool)

  /** `makeFade`: start, then stop, are validated before anything else; an index outside the
      fader table panics when the flag is raised; otherwise the messages are sent by the loop. */
  function MakeFadeSpec(start: real, stop: real, faderResolution: real, inRange: bool, sendOk: nat -> bool, cleared: nat -> bool): (rep: FadeReport)
    ensures rep.err == Some(InvalidStart) <==> start < 0.0 || start > 1.0
    ensures rep.err == Some(InvalidStop) <==> 0.0 <= start <= 1.0 && (stop < 0.0 || stop > 1.0)
    ensures !rep.touched ==> rep.sent == 0 && rep.err.Some?
    ensures rep.touched ==> rep.sent <= Util.Dist(Trunc(start * faderResolution), Trunc(stop * faderResolution))
    ensures rep.err.None? ==> rep.touched && rep.sent == Util.Dist(Trunc(start * faderResolution), Trunc(stop * faderResolution))
  {
    var s := UnitToFaderValue(start, faderResolution);
    var t := UnitToFaderValue(stop, faderResolution);
    if s.1.Some? then FadeReport(Some(InvalidStart), 0, false)
    else if t.1.Some? then FadeReport(Some(InvalidStop), 0, false)
    else if !inRange then FadeReport(Some(IndexOutOfRange), 0, false)
    else
      var d := SendResults(Util.Dist(s.0, t.0), sendOk);
      var r := RunFade(d, 0, 0, true, cleared);
      RunFadeShape(d, 0, 0, true, cleared);
      FadeReport(ErrorOf(r.result), r.attempts, true)
  }

  /** A fade between two unit values that truncate to the same fader value sends nothing and
      succeeds. */
  lemma MakeFadeSameValue(start: real, stop: real, faderResolution: real, sendOk: nat -> bool, cleared: nat -> bool)
    requires 0.0 <= start <= 1.0 && 0.0 <= stop <= 1.0
    requires Trunc(start * faderResolution) == Trunc(stop * faderResolution)
    ensures MakeFadeSpec(start, stop, faderResolution, true, sendOk, cleared) == FadeReport(None, 0, true)
  {
  }

  /** At the default resolution a full fade up with a dead connection gives up after ten sends. */
  lemma MakeFadeDeadConnection(cleared: nat -> bool)
    requires forall j :: 0 <= j < MAX_FAILURES ==> !cleared(j)
    ensures MakeFadeSpec(0.0, 1.0, 1024.0, true, _ => false, cleared) == FadeReport(Some(TooManyFailures), MAX_FAILURES, true)
  {
    RunFadeAllFail(SendResults(1024, _ => false), cleared);
  }

  /** With a negative resolution (which `setFaderResolution` accepts) the fade still ends: it
      steps down through the negative fader values. */
  lemma MakeFadeNegativeResolution(cleared: nat -> bool)
    requires forall j :: 0 <= j < 1024 ==> !cleared(j)
    ensures MakeFadeSpec(0.0, 1.0, -1024.0, true, _ => true, cleared) == FadeReport(None, 1024, true)
  {
    var d := SendResults(1024, _ => true);
    forall k: nat
      ensures !FailRun(d, k)
    {
      if k + MAX_FAILURES <= |d| {
        assert d[k];
      }
    }
    RunFadeCompletes(d, cleared);
  }
}
