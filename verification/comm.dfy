/** The mixer and its faders (comm.go, with the fade entry points of fade.go): the 80-entry
    fader table, the fader resolution, the connection set-up, and the fade methods that raise and
    lower a fader's `active` flag around the send loop. Sockets are replaced by oracles: `dialOk(i)`
    for the i-th dial, `sendOk(k)` for the write of the k-th message, `cleared(k)` for a clear of
    the flag by another goroutine before the k-th check. */
module Comm {
  import opened Wrappers
  import opened GoTypes
  import GoText
  import Util
  import opened OscMessage
  import Osc
  import opened Fade

  /** The errors of the mixer methods that are not fade errors. */
  datatype CommError =
    | UnparsableResolution   // "cannot parse fader resolution into int: fader resolution unchanged"
    | InvalidLocalPort       // "invalid local port"
    | InvalidRemoteAddress   // "invalide remote address"
    | DialFailed             // the error of the last osc.Dial

  const FADER_COUNT: int := 80
  const MIXER_NAME: string := "Behringer M32"
  const DEFAULT_RESOLUTION: real := 1024.0

  /** `newX32`'s `channelIDMap`: the first channel id of each group and the group's name. */
  const CHANNEL_ID_MAP: map<int, string> :=
    map[0 := "channel", 32 := "aux", 40 := "fx", 48 := "bus", 64 := "matrix", 70 := "mains", 71 := "mono", 72 := "dca"]

  /** The first id of the group that channel id i belongs to: the last key of the map at or before i. */
  function GroupStart(i: int): (s: int)
    requires 0 <= i < FADER_COUNT
    ensures s in CHANNEL_ID_MAP && s <= i
    ensures forall k :: s < k <= i ==> k !in CHANNEL_ID_MAP
  {
    if i < 32 then 0 else if i < 40 then 32 else if i < 48 then 40 else if i < 64 then 48
    else if i < 70 then 64 else if i < 72 then i else 72
  }

  function GroupName(i: int): string
    requires 0 <= i < FADER_COUNT
  {
    CHANNEL_ID_MAP[GroupStart(i)]
  }

  /** The group of a channel id: a key of the map starts a group, any other id continues the
      group of the id before it. */
  lemma GroupStep(i: int)
    requires 0 <= i < FADER_COUNT
    ensures i in CHANNEL_ID_MAP ==> GroupStart(i) == i
    ensures i !in CHANNEL_ID_MAP ==> i > 0 && GroupStart(i) == GroupStart(i - 1)
  {
  }

  /** The group names, id range by id range. */
  lemma GroupNames(i: int)
    requires 0 <= i < FADER_COUNT
    ensures 0 <= i < 32 ==> GroupName(i) == "channel"
    ensures 32 <= i < 40 ==> GroupName(i) == "aux"
    ensures 40 <= i < 48 ==> GroupName(i) == "fx"
    ensures 48 <= i < 64 ==> GroupName(i) == "bus"
    ensures 64 <= i < 70 ==> GroupName(i) == "matrix"
    ensures i == 70 ==> GroupName(i) == "mains"
    ensures i == 71 ==> GroupName(i) == "mono"
    ensures 72 <= i < 80 ==> GroupName(i) == "dca"
  {
  }

  /** The OSC path prefix of a group with numbered members. */
  function GroupPrefix(i: int): string
    requires 0 <= i < FADER_COUNT
  {
    if i < 32 then "/ch/" else if i < 40 then "/auxin/" else if i < 48 then "/fxrtn/"
    else if i < 64 then "/bus/" else if i < 70 then "/mtx/" else "/dca/"
  }

  /** The table and the paths agree: a fader's number within its group is the number its OSC
      path carries (the mains and the mono bus carry none). */
  lemma ChannelNumberInPath(i: int)
    requires 0 <= i < FADER_COUNT && i != 70 && i != 71
    ensures Util.NumberAfter(Util.ChannelIDPath(i), GroupPrefix(i)) == Some(i - GroupStart(i) + 1)
  {
    var n := i - GroupStart(i) + 1;
    if i < 70 {
      assert Util.ChannelIDPath(i) == GroupPrefix(i) + GoText.ZeroPad2(n);
      Util.NumberAfterPadded(GroupPrefix(i), n);
    } else {
      var p := Util.ChannelIDPath(i);
      var d := GoText.NatDigits(n);
      assert p == "/dca/" + d;
      assert p[..5] == "/dca/" && p[5..] == d;
      GoText.DigitsValueOfNatDigits(n);
    }
  }

  // ---------------------------------------------------------------- fader

  /** A fader: its group name, its number in the group, its channel id, the last level read and
      whether a fade is running on it. */
  class Fader {
    var name: string
    var channel: int
    var channelID: int
    var level: real
    var active: bool

    /** `&fader{channelID: .., name: .., channel: .., level: 0}`. */
    constructor (channelID: int, name: string, channel: int)
      ensures this.channelID == channelID && this.name == name && this.channel == channel
      ensures level == 0.0 && !active
    {
      this.channelID, this.name, this.channel := channelID, name, channel;
      level, active := 0.0, false;
    }

    /** `activate`: raises the flag. */
    method Activate()
      modifies this
      ensures active
      ensures name == old(name) && channel == old(channel) && channelID == old(channelID) && level == old(level)
    {
      active := true;
    }

    /** `deactivate`: lowers the flag. */
    method Deactivate()
      modifies this
      ensures !active
      ensures name == old(name) && channel == old(channel) && channelID == old(channelID) && level == old(level)
    {
      active := false;
    }

    /** `triggerFade`: before each message the flag is checked (a clear from outside lands just
        before the check), then the message is sent; a success resets the failure count and the
        tenth failure in a row lowers the flag and ends the loop. */
    method TriggerFade(messages: seq<Message>, sendOk: nat -> bool, cleared: nat -> bool)
      returns (err: Option<FadeError>, sent: nat)
      modifies this
      ensures var r := RunFade(old(Deliveries(messages, sendOk)), 0, 0, old(active), cleared);
        err == ErrorOf(r.result) && sent == r.attempts && active == r.active
      ensures name == old(name) && channel == old(channel) && channelID == old(channelID) && level == old(level)
    {
      ghost var d := Deliveries(messages, sendOk);
      var failureCount: nat := 0;
      var i := 0;
      while i < |messages|
        invariant 0 <= i <= |messages| && failureCount < MAX_FAILURES
        invariant RunFade(d, 0, 0, old(active), cleared) == RunFade(d, i, failureCount, active, cleared)
        invariant name == old(name) && channel == old(channel) && channelID == old(channelID) && level == old(level)
      {
        ghost var run := RunFade(d, i, failureCount, active, cleared);
        if cleared(i) {
          active := false;
        }
        if !active {
          assert run == FadeRun(Interrupted, i, false);
          return Some(FadeInterrupted), i;
        }
        var _, e := Osc.Send(messages[i], sendOk(i));
        assert e.None? == d[i];
        if e.None? {
          failureCount := 0;
        } else {
          failureCount := failureCount + 1;
        }
        if failureCount > MAX_FAILURES - 1 {
          assert run == FadeRun(GaveUp, i + 1, false);
          Deactivate();
          return Some(TooManyFailures), i + 1;
        }
        i := i + 1;
      }
      assert RunFade(d, i, failureCount, active, cleared) == FadeRun(Completed, |messages|, active);
      return None, |messages|;
    }
  }

  /** A fader whose name, channel number, channel id and level are the given ones. */
  predicate FaderKept(f: Fader, name: string, channel: int, channelID: int, level: real)
    reads f
  {
    f.name == name && f.channel == channel && f.channelID == channelID && f.level == level
  }

  /** The initial state of fader i of `newX32`. */
  predicate InitialFader(f: Fader, i: int)
    requires 0 <= i < FADER_COUNT
    reads f
  {
    && f.channelID == i && f.name == GroupName(i) && f.channel == i - GroupStart(i) + 1
    && f.level == 0.0 && !f.active
  }

  /** `newX32`'s loop: the running group name and number are reset at each key of the map and
      the number goes up by one per fader. */
  method NewFaders() returns (faders: seq<Fader>)
    ensures |faders| == FADER_COUNT
    ensures forall i :: 0 <= i < |faders| ==> fresh(faders[i]) && InitialFader(faders[i], i)
    ensures forall i, j :: 0 <= i < j < |faders| ==> faders[i] != faders[j]
  {
    var name := "channel";
    var channel := 1;
    faders := [];
    var i := 0;
    while i < FADER_COUNT
      invariant 0 <= i <= FADER_COUNT && |faders| == i
      invariant i == 0 ==> name == "channel" && channel == 1
      invariant i > 0 ==> name == GroupName(i - 1) && channel == i - GroupStart(i - 1) + 1
      invariant forall k :: 0 <= k < i ==> fresh(faders[k]) && InitialFader(faders[k], k)
      invariant forall k, j :: 0 <= k < j < i ==> faders[k] != faders[j]
    {
      GroupStep(i);
      if i in CHANNEL_ID_MAP {
        name := CHANNEL_ID_MAP[i];
        channel := 1;
      }
      var f := new Fader(i, name, channel);
      faders := faders + [f];
      channel := channel + 1;
      i := i + 1;
    }
  }

  // ---------------------------------------------------------------- mixer

  /** The mixer: its name, its faders, the selected channel, the number of fader steps of the unit
      interval, and whether a connection is open. */
  class Mixer {
    var name: string
    var faders: seq<Fader>
    var selectedCh: int
    var faderResolution: real
    var connected: bool

    /** `newX32`: 80 new faders, fader i with channel id i, its group's name, its number within
        the group and level 0; channel 0 selected, resolution 1024, no connection. */
    constructor NewX32()
      ensures name == MIXER_NAME && selectedCh == 0 && faderResolution == DEFAULT_RESOLUTION && !connected
      ensures |faders| == FADER_COUNT
      ensures forall i :: 0 <= i < |faders| ==> fresh(faders[i]) && InitialFader(faders[i], i)
      ensures forall i, j :: 0 <= i < j < |faders| ==> faders[i] != faders[j]
    {
      var fs := NewFaders();
      name, faders, selectedCh, faderResolution, connected := MIXER_NAME, fs, 0, DEFAULT_RESOLUTION, false;
    }

    /** `setFaderResolution`: the trimmed text must parse as an int; on failure nothing changes.
        Zero and negative values are stored like any other. */
    method SetFaderResolution(newValue: string) returns (err: Option<CommError>)
      modifies this
      ensures var v := GoText.Atoi(GoText.TrimSpace(newValue));
        && (v.None? ==> err == Some(UnparsableResolution) && faderResolution == old(faderResolution))
        && (v.Some? ==> err.None? && faderResolution == v.value as real)
      ensures name == old(name) && faders == old(faders) && selectedCh == old(selectedCh) && connected == old(connected)
    {
      var faderResText := GoText.TrimSpace(newValue);
      var faderResInt := GoText.Atoi(faderResText);
      if faderResInt.None? {
        return Some(UnparsableResolution);
      }
      faderResolution := faderResInt.value as real;
      return None;
    }

    /** fade.go's `makeFade`: start, then stop, must be unit values; the fader's flag is raised
        (an id outside the table panics there), the messages are sent, and the flag is lowered
        again on every way out. */
    method MakeFade(channelID: int, start: real, stop: real, levelBits: int -> Float32Bits, sendOk: nat -> bool, cleared: nat -> bool)
      returns (err: Option<FadeError>, sent: nat)
      modifies if 0 <= channelID < |faders| then {faders[channelID]} else {}
      ensures var rep := MakeFadeSpec(start, stop, faderResolution, 0 <= channelID < |faders|, sendOk, cleared);
        && err == rep.err && sent == rep.sent
        && (rep.touched ==> !faders[channelID].active)
        && (0 <= channelID < |faders| && !rep.touched ==> faders[channelID].active == old(faders[channelID].active))
      ensures 0 <= channelID < |faders| ==> FaderKept(faders[channelID], old(faders[channelID].name),
        old(faders[channelID].channel), old(faders[channelID].channelID), old(faders[channelID].level))
    {
      var s := UnitToFaderValue(start, faderResolution);
      if s.1.Some? {
        return Some(InvalidStart), 0;
      }
      var t := UnitToFaderValue(stop, faderResolution);
      if t.1.Some? {
        return Some(InvalidStop), 0;
      }
      var messages, _ := GetFadeMessages(channelID, s.0, t.0, levelBits);
      if !(0 <= channelID < |faders|) {
        return Some(IndexOutOfRange), 0;
      }
      FadeUnitsAt(s.0, t.0);
      DeliveriesOfFadeMessages(messages, FadeAddress(channelID), FadeBits(s.0, t.0, levelBits), sendOk);
      ghost var d := SendResults(Util.Dist(s.0, t.0), sendOk);
      RunFadeShape(d, 0, 0, true, cleared);
      assert Deliveries(messages, sendOk) == d;
      var f := faders[channelID];
      f.Activate();
      assert Deliveries(messages, sendOk) == d;
      err, sent := f.TriggerFade(messages, sendOk, cleared);
      if err.Some? {
        return;
      }
      f.Deactivate();
    }

    /** fade.go's `fadeTo`: a fader in motion is refused first; then the fader is looked up (an
        id outside the table panics), its level read (`level`, None when `getLevel` fails), and
        a fade from that level to the target is made. */
    method FadeTo(channelID: int, target: real, inMotion: bool, level: Option<real>,
                  levelBits: int -> Float32Bits, sendOk: nat -> bool, cleared: nat -> bool)
      returns (err: Option<FadeError>, sent: nat)
      modifies if 0 <= channelID < |faders| then {faders[channelID]} else {}
      ensures inMotion ==> err == Some(InMotion) && sent == 0
      ensures !inMotion && !(0 <= channelID < |faders|) ==> err == Some(IndexOutOfRange) && sent == 0
      ensures !inMotion && 0 <= channelID < |faders| && level.None? ==> err == Some(LevelUnavailable) && sent == 0
      ensures !inMotion && 0 <= channelID < |faders| && level.Some? ==>
        var rep := MakeFadeSpec(level.value, target, faderResolution, true, sendOk, cleared);
        && err == rep.err && sent == rep.sent && (rep.touched ==> !faders[channelID].active)
        && (!rep.touched ==> faders[channelID].active == old(faders[channelID].active))
      ensures 0 <= channelID < |faders| ==> FaderKept(faders[channelID], old(faders[channelID].name),
        old(faders[channelID].channel), old(faders[channelID].channelID), old(faders[channelID].level))
      ensures inMotion || !(0 <= channelID < |faders|) || level.None? ==>
        forall f :: f in old(faders) ==> f.active == old(f.active)
    {
      if inMotion {
        return Some(InMotion), 0;
      }
      if !(0 <= channelID < |faders|) {
        return Some(IndexOutOfRange), 0;
      }
      if level.None? {
        return Some(LevelUnavailable), 0;
      }
      err, sent := MakeFade(channelID, level.value, target, levelBits, sendOk, cleared);
    }

    /** comm.go's `makeFade`: validates like fade.go's, builds the same messages, but steps by
        comparing the unit values rather than the fader values, and in its send loop tests the
        error left over from building the messages instead of the result of `osc.Send`. */
    method LegacyMakeFade(channelID: int, start: real, stop: real, levelBits: int -> Float32Bits, sendOk: nat -> bool)
      returns (outcome: LegacyOutcome)
      ensures outcome == LegacyFadeSpec(start, stop, faderResolution)
    {
      if start < 0.0 || start > 1.0 {
        return LegacyDone(Some(InvalidStart), 0);
      }
      if stop < 0.0 || stop > 1.0 {
        return LegacyDone(Some(InvalidStop), 0);
      }
      var startI := Trunc(start * faderResolution);
      var stopI := Trunc(stop * faderResolution);
      var step := 1;
      if start > stop {
        step := -1;
      }
      LegacySpecOfSteps(start, stop, faderResolution, startI, stopI, step);
      outcome := LegacySteps(channelID, startI, stopI, step, levelBits, sendOk);
    }
  }

  /** The rest of comm.go's `makeFade` once the fader values and the step are known. */
  method LegacySteps(channelID: int, startI: int, stopI: int, step: int, levelBits: int -> Float32Bits, sendOk: nat -> bool)
    returns (outcome: LegacyOutcome)
    requires step == 1 || step == -1
    ensures startI != stopI && step != Step(startI, stopI) ==> outcome == Diverges
    ensures startI == stopI || step == Step(startI, stopI) ==> outcome == LegacyDone(None, Util.Dist(startI, stopI))
  {
    if startI != stopI && step != Step(startI, stopI) {
      // `for i := startI; i != stopI; i += step` moves away from stopI and never ends
      return Diverges;
    }
    var messages, buildErr := GetFadeMessages(channelID, startI, stopI, levelBits);
    FadeUnitsAt(startI, stopI);
    var err, sent := LegacyFire(messages, buildErr, sendOk);
    return LegacyDone(err, sent);
  }

  /** How comm.go's `makeFade` ends: with an error (or none) after some sends, or not at all. */
  datatype LegacyOutcome = LegacyDone(err: Option<FadeError>, sent: nat) | Diverges

  /** The whole behaviour of comm.go's `makeFade`; the connection plays no part in it. */
  function LegacyFadeSpec(start: real, stop: real, faderResolution: real): (r: LegacyOutcome)
    ensures faderResolution >= 0.0 ==> r.LegacyDone?
    ensures r.LegacyDone? && r.err.Some? ==> r.sent == 0 && (r.err == Some(InvalidStart) || r.err == Some(InvalidStop))
    ensures r.LegacyDone? && r.err.None? ==> r.sent == Util.Dist(Trunc(start * faderResolution), Trunc(stop * faderResolution))
  {
    if start < 0.0 || start > 1.0 then LegacyDone(Some(InvalidStart), 0)
    else if stop < 0.0 || stop > 1.0 then LegacyDone(Some(InvalidStop), 0)
    else
      var startI := Trunc(start * faderResolution);
      var stopI := Trunc(stop * faderResolution);
      if faderResolution < 0.0 && startI != stopI then Diverges
      else LegacyDone(None, Util.Dist(startI, stopI))
  }

  /** Once the unit values are valid, the legacy outcome is decided by the fader values and the
      step chosen from the unit values. */
  lemma LegacySpecOfSteps(start: real, stop: real, faderResolution: real, startI: int, stopI: int, step: int)
    requires 0.0 <= start <= 1.0 && 0.0 <= stop <= 1.0
    requires startI == Trunc(start * faderResolution) && stopI == Trunc(stop * faderResolution)
    requires step == if start > stop then -1 else 1
    ensures LegacyFadeSpec(start, stop, faderResolution)
      == if startI != stopI && step != Step(startI, stopI) then Diverges
         else LegacyDone(None, Util.Dist(startI, stopI))
  {
    LegacyStepDirection(start, stop, faderResolution, startI, stopI);
  }

  /** The step chosen from the unit values points from startI to stopI exactly when the
      resolution is not negative. */
  lemma LegacyStepDirection(start: real, stop: real, faderResolution: real, startI: int, stopI: int)
    requires 0.0 <= start <= 1.0 && 0.0 <= stop <= 1.0
    requires startI == Trunc(start * faderResolution) && stopI == Trunc(stop * faderResolution)
    ensures startI != stopI ==>
      ((if start > stop then -1 else 1) == Step(startI, stopI) <==> faderResolution >= 0.0)
  {
    if start > stop {
      TruncScaled(stop, start, faderResolution);
    } else {
      TruncScaled(start, stop, faderResolution);
    }
  }

  /** comm.go's send loop: every message is sent, but the failure count follows `staleErr`, the
      error of the last `MakePacket`, so the sends' own results are never looked at. */
  method LegacyFire(messages: seq<Message>, staleErr: Option<OscError>, sendOk: nat -> bool)
    returns (err: Option<FadeError>, sent: nat)
    ensures staleErr.None? || |messages| < MAX_FAILURES ==> err.None? && sent == |messages|
    ensures staleErr.Some? && |messages| >= MAX_FAILURES ==> err == Some(TooManyFailures) && sent == MAX_FAILURES
  {
    var failureCount := 0;
    var i := 0;
    while i < |messages|
      invariant 0 <= i <= |messages|
      invariant failureCount == if staleErr.None? then 0 else i
      invariant staleErr.Some? ==> i < MAX_FAILURES
    {
      var _, _ := Osc.Send(messages[i], sendOk(i));
      if staleErr.None? {
        failureCount := 0;
      } else {
        failureCount := failureCount + 1;
      }
      if failureCount > MAX_FAILURES - 1 {
        return Some(TooManyFailures), i + 1;
      }
      i := i + 1;
    }
    return None, |messages|;
  }

  /** comm.go's `makeFade` reports success on a dead connection: a full fade at the default
      resolution sends all 1024 messages and returns nil, where fade.go's gives up after ten. */
  lemma LegacyIgnoresDeadConnection(cleared: nat -> bool)
    requires forall j :: 0 <= j < MAX_FAILURES ==> !cleared(j)
    ensures LegacyFadeSpec(0.0, 1.0, DEFAULT_RESOLUTION) == LegacyDone(None, 1024)
    ensures MakeFadeSpec(0.0, 1.0, DEFAULT_RESOLUTION, true, _ => false, cleared) == FadeReport(Some(TooManyFailures), MAX_FAILURES, true)
  {
    MakeFadeDeadConnection(cleared);
  }

  /** With a negative resolution comm.go's `makeFade` never ends, where fade.go's sends its 1024
      messages and returns. */
  lemma LegacyDivergesOnNegativeResolution(cleared: nat -> bool)
    requires forall j :: 0 <= j < 1024 ==> !cleared(j)
    ensures LegacyFadeSpec(0.0, 1.0, -DEFAULT_RESOLUTION) == Diverges
    ensures MakeFadeSpec(0.0, 1.0, -DEFAULT_RESOLUTION, true, _ => true, cleared) == FadeReport(None, 1024, true)
  {
    MakeFadeNegativeResolution(cleared);
  }

  // ---------------------------------------------------------------- connection

  /** `setFaderResolution` reads back any value written with `%d`, surrounded by any white space
      or none. */
  lemma ResolutionOfFormatted(n: int64)
    ensures GoText.Atoi(GoText.TrimSpace(GoText.FormatInt(n as int))) == Some(n as int)
  {
    Util.FormatIntShape(n as int);
    GoText.TrimSpaceNoSpace(GoText.FormatInt(n as int));
    GoText.AtoiFormatInt(n);
  }

  /** `establishConnection`: the local port (written as ":<port>") and then the remote address
      must pass `isValidIP`; then up to `tries` dials are made, stopping at the first that
      succeeds. With no tries at all it returns no connection and no error. */
  method EstablishConnection(localPort: int64, remoteAddr: string, tries: int,
                             parseIP: string -> bool, dialOk: nat -> bool)
    returns (connected: bool, err: Option<CommError>, dials: nat)
    ensures !(0 <= localPort <= 65535) ==> !connected && err == Some(InvalidLocalPort) && dials == 0
    ensures 0 <= localPort <= 65535 && !Util.IsValidIP(remoteAddr, parseIP) ==>
      !connected && err == Some(InvalidRemoteAddress) && dials == 0
    ensures 0 <= localPort <= 65535 && Util.IsValidIP(remoteAddr, parseIP) ==>
      DialOutcome(tries, dialOk, connected, err, dials)
  {
    Util.IsValidIPPortOnly(localPort as int, parseIP);
    if !Util.IsValidIP(":" + GoText.FormatInt(localPort as int), parseIP) {
      return false, Some(InvalidLocalPort), 0;
    }
    if !Util.IsValidIP(remoteAddr, parseIP) {
      return false, Some(InvalidRemoteAddress), 0;
    }
    connected, err, dials := Dial(tries, dialOk);
  }

  /** `establishConnection`'s loop: `osc.Dial` until one succeeds or `tries` have failed. */
  method Dial(tries: int, dialOk: nat -> bool) returns (connected: bool, err: Option<CommError>, dials: nat)
    ensures DialOutcome(tries, dialOk, connected, err, dials)
  {
    connected, err, dials := false, None, 0;
    var i := 0;
    while i < tries
      invariant 0 <= i == dials <= Max0(tries)
      invariant forall j :: 0 <= j < i ==> !dialOk(j)
      invariant !connected && (err.None? <==> i == 0) && (err.Some? ==> err == Some(DialFailed))
    {
      dials := dials + 1;
      if dialOk(i) {
        return true, None, dials;
      }
      err := Some(DialFailed);
      i := i + 1;
    }
  }

  /** What the dial loop may end with: at most `tries` dials, every one but the last failed; a
      connection exactly when the last succeeded, otherwise all `tries` were used; an error
      exactly when some dial was made and none succeeded. */
  predicate DialOutcome(tries: int, dialOk: nat -> bool, connected: bool, err: Option<CommError>, dials: nat)
  {
    && dials <= Max0(tries)
    && (connected ==> dials > 0 && dialOk(dials - 1) && forall j :: 0 <= j < dials - 1 ==> !dialOk(j))
    && (!connected ==> dials == Max0(tries) && forall j :: 0 <= j < dials ==> !dialOk(j))
    && (err.None? <==> connected || dials == 0)
    && (err.Some? ==> err == Some(DialFailed))
  }

  function Max0(n: int): nat
  {
    if n < 0 then 0 else n
  }
}
