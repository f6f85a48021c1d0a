/** The X32/M32 addressing helpers of package main (util.go): OSC paths for the 80 channel ids,
    the address validator, the step distance and the level label. */
module Util {
  import opened Wrappers
  import GoText
  import GoTypes

  /** The number of channel ids: 0-31 channels, 32-39 aux in, 40-47 fx returns, 48-63 buses,
      64-69 matrices, 70 main stereo, 71 main mono, 72-79 DCAs. */
  const CHANNEL_COUNT: int := 80

  // ---------------------------------------------------------------- paths

  /** `filepath.Join(a, b)` for the elements used here: an empty first element is dropped, and
      `Clean` changes nothing since neither element holds "//", "." or "..". */
  function Join(a: string, b: string): string
  {
    if a == "" then b else a + "/" + b
  }

  /** `getChannelIDPath`: the OSC prefix of a channel id, empty out of range. */
  function ChannelIDPath(ch: int): (p: string)
    ensures p == "" <==> !(0 <= ch < CHANNEL_COUNT)
  {
    if ch < 0 then ""
    else if ch < 32 then "/ch/" + GoText.ZeroPad2(ch + 1)
    else if ch < 40 then "/auxin/" + GoText.ZeroPad2(ch - 31)
    else if ch < 48 then "/fxrtn/" + GoText.ZeroPad2(ch - 39)
    else if ch < 64 then "/bus/" + GoText.ZeroPad2(ch - 47)
    else if ch < 70 then "/mtx/" + GoText.ZeroPad2(ch - 63)
    else if ch == 70 then "/main/st"
    else if ch == 71 then "/main/m"
    else if ch < 80 then "/dca/" + GoText.NatDigits(ch - 71)
    else ""
  }

  /** The number that follows `prefix` in `p`, when the rest of `p` is all digits. */
  function NumberAfter(p: string, prefix: string): (r: Option<int>)
    ensures r.Some? ==> |prefix| < |p| && p[..|prefix|] == prefix
  {
    if |prefix| < |p| && p[..|prefix|] == prefix && GoText.AllDigits(p[|prefix|..]) then
      Some(GoText.DigitsValue(p[|prefix|..]))
    else None
  }

  /** A reference reading of the path table in the other direction: which channel id a path
      names. */
  function ChannelOfPath(p: string): Option<int>
  {
    if p == "/main/st" then Some(70)
    else if p == "/main/m" then Some(71)
    else if NumberAfter(p, "/ch/").Some? then Some(NumberAfter(p, "/ch/").value - 1)
    else if NumberAfter(p, "/auxin/").Some? then Some(NumberAfter(p, "/auxin/").value + 31)
    else if NumberAfter(p, "/fxrtn/").Some? then Some(NumberAfter(p, "/fxrtn/").value + 39)
    else if NumberAfter(p, "/bus/").Some? then Some(NumberAfter(p, "/bus/").value + 47)
    else if NumberAfter(p, "/mtx/").Some? then Some(NumberAfter(p, "/mtx/").value + 63)
    else if NumberAfter(p, "/dca/").Some? then Some(NumberAfter(p, "/dca/").value + 71)
    else None
  }

  lemma ZeroPad2Value(n: nat)
    requires 1 <= n < 100
    ensures GoText.AllDigits(GoText.ZeroPad2(n)) && GoText.DigitsValue(GoText.ZeroPad2(n)) == n
  {
    var s := GoText.ZeroPad2(n);
    var hi, lo := GoText.DigitChar(n / 10), GoText.DigitChar(n % 10);
    assert s == [hi, lo] && s[..1] == [hi] && [hi][..0] == [];
    assert GoText.DigitsValue([hi]) == GoText.DigitValue(hi) == n / 10;
    assert GoText.DigitsValue(s) == GoText.DigitsValue([hi]) * 10 + GoText.DigitValue(lo);
  }

  /** A prefix followed by a zero-padded number reads back as that number. */
  lemma NumberAfterPadded(prefix: string, n: nat)
    requires 1 <= n < 100
    ensures NumberAfter(prefix + GoText.ZeroPad2(n), prefix) == Some(n)
  {
    var p := prefix + GoText.ZeroPad2(n);
    assert p[..|prefix|] == prefix && p[|prefix|..] == GoText.ZeroPad2(n);
    ZeroPad2Value(n);
  }

  /** A path whose first four characters differ from `prefix`'s has no number after it. */
  lemma NoNumberAfter(p: string, prefix: string, k: nat)
    requires k < |prefix| && k < |p| && p[k] != prefix[k]
    ensures NumberAfter(p, prefix).None?
  {
  }

  lemma ChannelOfPathLow(ch: int)
    requires 0 <= ch < 48
    ensures ChannelOfPath(ChannelIDPath(ch)) == Some(ch)
  {
    var p := ChannelIDPath(ch);
    if ch < 32 {
      NumberAfterPadded("/ch/", ch + 1);
    } else if ch < 40 {
      NoNumberAfter(p, "/ch/", 1);
      NumberAfterPadded("/auxin/", ch - 31);
    } else {
      NoNumberAfter(p, "/ch/", 1);
      NoNumberAfter(p, "/auxin/", 1);
      NumberAfterPadded("/fxrtn/", ch - 39);
    }
  }

  lemma ChannelOfPathHigh(ch: int)
    requires 48 <= ch < CHANNEL_COUNT
    ensures ChannelOfPath(ChannelIDPath(ch)) == Some(ch)
  {
    var p := ChannelIDPath(ch);
    if ch < 64 {
      NoNumberAfter(p, "/ch/", 1);
      NoNumberAfter(p, "/auxin/", 1);
      NoNumberAfter(p, "/fxrtn/", 1);
      NumberAfterPadded("/bus/", ch - 47);
    } else if ch < 70 {
      NoNumberAfter(p, "/ch/", 1);
      NoNumberAfter(p, "/auxin/", 1);
      NoNumberAfter(p, "/fxrtn/", 1);
      NoNumberAfter(p, "/bus/", 1);
      NumberAfterPadded("/mtx/", ch - 63);
    } else if ch >= 72 {
      var d := GoText.NatDigits(ch - 71);
      assert p == "/dca/" + d && |d| == 1;
      NoNumberAfter(p, "/ch/", 1);
      NoNumberAfter(p, "/auxin/", 1);
      NoNumberAfter(p, "/fxrtn/", 1);
      NoNumberAfter(p, "/bus/", 1);
      NoNumberAfter(p, "/mtx/", 1);
      assert p[..5] == "/dca/" && p[5..] == d;
      GoText.DigitsValueOfNatDigits(ch - 71);
    }
  }

  /** Every channel id is recovered from its path. */
  lemma ChannelOfPathInverse(ch: int)
    requires 0 <= ch < CHANNEL_COUNT
    ensures ChannelOfPath(ChannelIDPath(ch)) == Some(ch)
  {
    if ch < 48 {
      ChannelOfPathLow(ch);
    } else {
      ChannelOfPathHigh(ch);
    }
  }

  /** Distinct channel ids have distinct paths. */
  lemma ChannelIDPathInjective(a: int, b: int)
    requires 0 <= a < CHANNEL_COUNT && 0 <= b < CHANNEL_COUNT
    requires ChannelIDPath(a) == ChannelIDPath(b)
    ensures a == b
  {
    ChannelOfPathInverse(a);
    ChannelOfPathInverse(b);
  }

  lemma ChannelIDPathLength(ch: int)
    requires 0 <= ch < CHANNEL_COUNT
    ensures ch >= 72 ==> |ChannelIDPath(ch)| == 6
    ensures ch < 72 ==> |ChannelIDPath(ch)| >= 6
  {
    if ch >= 72 {
      assert |GoText.NatDigits(ch - 71)| == 1;
    }
  }

  /** `getNamePath`: the name parameter of a channel. Out of range the empty prefix is dropped by
      `filepath.Join`, which leaves the relative path "config/name". */
  function NamePath(ch: int): (p: string)
    ensures !(0 <= ch < CHANNEL_COUNT) ==> p == "config/name"
    ensures 0 <= ch < CHANNEL_COUNT ==> p == ChannelIDPath(ch) + "/config/name"
  {
    Join(ChannelIDPath(ch), "config/name")
  }

  /** `getFaderPath`: the fader parameter of a channel; empty out of range, "/fader" after a DCA
      and "/mix/fader" after every other channel. */
  function FaderPath(ch: int): (p: string)
    ensures p == "" <==> !(0 <= ch < CHANNEL_COUNT)
  {
    var path := ChannelIDPath(ch);
    if path == "" then path
    else if ch > 71 && ch < 80 then Join(path, "fader")
    else Join(path, "mix/fader")
  }

  /** What `FaderPath` puts after the channel's path. */
  lemma FaderPathShape(ch: int)
    requires 0 <= ch < CHANNEL_COUNT
    ensures ch >= 72 ==> FaderPath(ch) == ChannelIDPath(ch) + "/fader"
    ensures ch < 72 ==> FaderPath(ch) == ChannelIDPath(ch) + "/mix/fader"
  {
    var path := ChannelIDPath(ch);
    if ch >= 72 {
      JoinShape(path, "fader");
    } else {
      JoinShape(path, "mix/fader");
    }
  }

  lemma JoinShape(a: string, b: string)
    requires a != ""
    ensures Join(a, b) == a + ("/" + b)
  {
  }

  lemma StripSuffix(a: string, b: string, s: string)
    requires a + s == b + s
    ensures a == b
  {
    assert a == (a + s)[..|a|];
    assert b == (b + s)[..|b|];
  }

  /** Distinct channel ids have distinct fader paths. */
  lemma FaderPathInjective(a: int, b: int)
    requires 0 <= a < CHANNEL_COUNT && 0 <= b < CHANNEL_COUNT
    requires FaderPath(a) == FaderPath(b)
    ensures a == b
  {
    FaderPathShape(a);
    FaderPathShape(b);
    ChannelIDPathLength(a);
    ChannelIDPathLength(b);
    if (a >= 72) == (b >= 72) {
      StripSuffix(ChannelIDPath(a), ChannelIDPath(b), if a >= 72 then "/fader" else "/mix/fader");
      ChannelIDPathInjective(a, b);
    }
  }

  /** Distinct channel ids have distinct name paths. */
  lemma NamePathInjective(a: int, b: int)
    requires 0 <= a < CHANNEL_COUNT && 0 <= b < CHANNEL_COUNT
    requires NamePath(a) == NamePath(b)
    ensures a == b
  {
    StripSuffix(ChannelIDPath(a), ChannelIDPath(b), "/config/name");
    ChannelIDPathInjective(a, b);
  }

  // ---------------------------------------------------------------- getDist

  /** `getDist`: the absolute distance between two integers. */
  function Dist(x: int, y: int): (r: int)
    ensures r >= 0
    ensures r == 0 <==> x == y
    ensures x + r == y || y + r == x
  {
    if x < y then y - x else x - y
  }

  /** The distance does not depend on the order of its arguments. */
  lemma DistSymmetric(x: int, y: int)
    ensures Dist(x, y) == Dist(y, x)
  {
  }

  // ---------------------------------------------------------------- isValidIP

  /** A port number is an Atoi-parsable value in 0..65535. */
  predicate ValidPort(port: string)
  {
    GoText.Atoi(port).Some? && 0 <= GoText.Atoi(port).value <= 65535
  }

  /** `isValidIP`: after trimming white space the input must be non-empty; with exactly one ':'
      it splits into a host and a port, each of which may be empty; a host must pass
      `net.ParseIP` (the parameter `parseIP`), a port must be a number in 0..65535. */
  function IsValidIP(ip: string, parseIP: string -> bool): (r: bool)
    ensures r ==> GoText.TrimSpace(ip) != ""
    ensures GoText.Count(GoText.TrimSpace(ip), ':') != 1 ==>
      (r <==> GoText.TrimSpace(ip) != "" && parseIP(GoText.TrimSpace(ip)))
  {
    var t := GoText.TrimSpace(ip);
    if t == "" then false
    else if GoText.Count(t, ':') == 1 then
      // strings.Split(t, ":") gives the parts before and after the one colon
      var c := GoText.IndexOf(t, ':');
      GoText.IndexOfCounted(t, ':');
      var host, port := t[..c], t[c + 1..];
      (host == "" || parseIP(host)) && (port == "" || ValidPort(port))
    else
      // no port: the whole (non-empty) text is the host
      parseIP(t)
  }

  /** Empty and all-white-space input is never valid. */
  lemma IsValidIPBlank(ip: string, parseIP: string -> bool)
    requires forall i :: 0 <= i < |ip| ==> GoText.IsSpace(ip[i])
    ensures !IsValidIP(ip, parseIP)
  {
    GoText.TrimSpaceAllSpace(ip);
  }

  lemma FormatIntShape(n: int)
    ensures |GoText.FormatInt(n)| > 0
    ensures forall i :: 0 <= i < |GoText.FormatInt(n)| ==> GoText.FormatInt(n)[i] != ':'
    ensures !GoText.IsSpace(GoText.FormatInt(n)[0]) && !GoText.IsSpace(GoText.FormatInt(n)[|GoText.FormatInt(n)| - 1])
  {
    var s := GoText.FormatInt(n);
    if n < 0 {
      assert s[1..] == GoText.NatDigits(-n);
      assert forall i :: 1 <= i < |s| ==> s[i] == s[1..][i - 1];
    }
  }

  /** `":<port>"`, as `establishConnection` writes the local port, is valid exactly for a port
      in 0..65535, whatever `parseIP` says. */
  lemma IsValidIPPortOnly(n: int, parseIP: string -> bool)
    requires -0x8000_0000_0000_0000 <= n < 0x8000_0000_0000_0000
    ensures IsValidIP(":" + GoText.FormatInt(n), parseIP) <==> 0 <= n <= 65535
  {
    var d := GoText.FormatInt(n);
    var s := ":" + d;
    FormatIntShape(n);
    assert s[|s| - 1] == d[|d| - 1];
    GoText.TrimSpaceNoSpace(s);
    GoText.CountPrefixed(':', d);
    assert s[..0] == "" && s[1..] == d;
    GoText.AtoiFormatInt(n as GoTypes.int64);
  }

  /** How `isValidIP` splits `"<host>:<digits>"` when the host holds no ':'. */
  lemma SplitHostPort(host: string, d: string)
    requires forall i :: 0 <= i < |host| ==> host[i] != ':'
    requires forall i :: 0 <= i < |d| ==> d[i] != ':'
    ensures var s := host + ":" + d;
      && GoText.Count(s, ':') == 1 && GoText.IndexOf(s, ':') == |host|
      && s[..|host|] == host && s[|host| + 1..] == d
  {
    var s := host + ":" + d;
    assert s == host + (":" + d);
    GoText.CountPrefixed(':', d);
    GoText.CountZero(host, ':');
    GoText.CountAppend(host, ":" + d, ':');
    GoText.IndexOfAppend(host, ":" + d, ':');
  }

  /** `isValidIP` on a text whose trimmed form has one ':', at index |host|. */
  lemma IsValidIPSplit(s: string, host: string, port: string, parseIP: string -> bool)
    requires var t := GoText.TrimSpace(s);
      && GoText.Count(t, ':') == 1 && GoText.IndexOf(t, ':') == |host|
      && |host| < |t| && t[..|host|] == host && t[|host| + 1..] == port
    ensures IsValidIP(s, parseIP) == ((host == "" || parseIP(host)) && (port == "" || ValidPort(port)))
  {
    var t := GoText.TrimSpace(s);
    assert IsValidIP(s, parseIP)
      == ((t[..|host|] == "" || parseIP(t[..|host|])) && (t[|host| + 1..] == "" || ValidPort(t[|host| + 1..])));
  }

  /** `"<host>:<port>"` with a non-blank host that holds no ':' is valid exactly when the host
      parses and the port is in 0..65535. */
  lemma IsValidIPHostPort(host: string, n: int, parseIP: string -> bool)
    requires host != [] && !GoText.IsSpace(host[0])
    requires forall i :: 0 <= i < |host| ==> host[i] != ':'
    requires -0x8000_0000_0000_0000 <= n < 0x8000_0000_0000_0000
    ensures IsValidIP(host + ":" + GoText.FormatInt(n), parseIP) <==> parseIP(host) && 0 <= n <= 65535
  {
    var d := GoText.FormatInt(n);
    FormatIntShape(n);
    IsValidIPOfHostPort(host, d, parseIP);
    GoText.AtoiFormatInt(n as GoTypes.int64);
    assert ValidPort(d) <==> 0 <= n <= 65535;
  }

  /** `"<host>:<port>"` whose non-empty host and port hold no ':' and no white space at the outer
      ends is valid exactly when the host parses and the port is valid. */
  lemma IsValidIPOfHostPort(host: string, d: string, parseIP: string -> bool)
    requires host != [] && !GoText.IsSpace(host[0])
    requires d != [] && !GoText.IsSpace(d[|d| - 1])
    requires forall i :: 0 <= i < |host| ==> host[i] != ':'
    requires forall i :: 0 <= i < |d| ==> d[i] != ':'
    ensures IsValidIP(host + ":" + d, parseIP) <==> parseIP(host) && ValidPort(d)
  {
    var s := host + ":" + d;
    assert s[|s| - 1] == d[|d| - 1] && s[0] == host[0];
    GoText.TrimSpaceNoSpace(s);
    SplitHostPort(host, d);
    IsValidIPSplit(s, host, d, parseIP);
  }

  // ---------------------------------------------------------------- levelMessage

  /** `levelMessage`: "<name> <channel> : " then "??" for a negative (unknown) level, otherwise
      the level as `%.2f` formats it (the formatter is the parameter `format2f`). */
  function LevelMessage(name: string, channel: int, level: real, format2f: real -> string): (r: string)
    ensures var head := name + " " + GoText.FormatInt(channel) + " : ";
      && |head| <= |r| && r[..|head|] == head
      && (level < 0.0 ==> r[|head|..] == "??")
      && (level >= 0.0 ==> r[|head|..] == format2f(level))
  {
    var msg := name + " " + GoText.FormatInt(channel);
    if level < 0.0 then msg + " : ??" else msg + " : " + format2f(level)
  }
}
