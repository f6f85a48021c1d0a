/** The parts of Go's `fmt`, `strconv`, `strings`, `unicode` and `unicode/utf8` packages that the
    core relies on, for the inputs it gives them. */
module GoText {
  import opened Wrappers
  import opened GoTypes

  // ---------------------------------------------------------------- decimal formatting (fmt %d)

  function DigitChar(d: int): (c: char)
    requires 0 <= d < 10
    ensures '0' <= c <= '9'
  {
    ('0' as int + d) as char
  }

  predicate IsDigit(c: char)
  {
    '0' <= c <= '9'
  }

  function DigitValue(c: char): (d: int)
    requires IsDigit(c)
    ensures 0 <= d < 10 && DigitChar(d) == c
  {
    c as int - '0' as int
  }

  /** The decimal digits of a natural number, without leading zeros. */
  function NatDigits(n: nat): (s: string)
    ensures |s| >= 1
    ensures forall i :: 0 <= i < |s| ==> IsDigit(s[i])
    ensures n < 10 <==> |s| == 1
    decreases n
  {
    if n < 10 then [DigitChar(n)] else NatDigits(n / 10) + [DigitChar(n % 10)]
  }

  /** `fmt.Sprintf("%d", n)`. */
  function FormatInt(n: int): string
  {
    if n < 0 then "-" + NatDigits(-n) else NatDigits(n)
  }

  /** `fmt.Sprintf("%02d", n)` for n >= 0: at least two digits, zero-padded. */
  function ZeroPad2(n: nat): (s: string)
    ensures |s| >= 2
    ensures n < 100 ==> |s| == 2 && s == [DigitChar(n / 10), DigitChar(n % 10)]
  {
    if n < 10 then "0" + NatDigits(n)
    else
      assert n < 100 ==> NatDigits(n) == NatDigits(n / 10) + [DigitChar(n % 10)] && NatDigits(n / 10) == [DigitChar(n / 10)];
      NatDigits(n)
  }

  // ---------------------------------------------------------------- strconv.Atoi

  predicate AllDigits(s: string)
  {
    forall i :: 0 <= i < |s| ==> IsDigit(s[i])
  }

  /** The value of a string of decimal digits, most significant first. */
  function DigitsValue(s: string): (v: nat)
    requires AllDigits(s)
  {
    if s == [] then 0 else DigitsValue(s[..|s| - 1]) * 10 + DigitValue(s[|s| - 1])
  }

  /** `strconv.Atoi` (64-bit int): an optional sign then one or more decimal digits, whose value
      must fit in an int64; anything else is a syntax or range error (None). */
  function Atoi(s: string): (r: Option<int>)
    ensures r.Some? ==> -0x8000_0000_0000_0000 <= r.value < 0x8000_0000_0000_0000
    ensures r.Some? ==> |s| > 0 && (r.value < 0 ==> s[0] == '-')
  {
    var signed := |s| > 0 && (s[0] == '-' || s[0] == '+');
    var body := if signed then s[1..] else s;
    if body == [] || !AllDigits(body) then None
    else
      var v: int := if |s| > 0 && s[0] == '-' then -(DigitsValue(body) as int) else DigitsValue(body);
      if -0x8000_0000_0000_0000 <= v < 0x8000_0000_0000_0000 then Some(v) else None
  }

  lemma {:induction false} DigitsValueOfNatDigits(n: nat)
    ensures DigitsValue(NatDigits(n)) == n
    decreases n
  {
    if n >= 10 {
      var s := NatDigits(n);
      assert s[..|s| - 1] == NatDigits(n / 10);
      DigitsValueOfNatDigits(n / 10);
    }
  }

  lemma AtoiNegative(m: int)
    requires -0x8000_0000_0000_0000 <= m < 0
    ensures Atoi(FormatInt(m)) == Some(m)
  {
    var d := NatDigits(-m);
    var s := "-" + d;
    assert FormatInt(m) == s;
    assert s[0] == '-' && s[1..] == d;
    assert AllDigits(d) && d != [];
    DigitsValueOfNatDigits(-m);
    assert -(DigitsValue(d) as int) == m;
  }

  lemma AtoiNonNegative(m: int)
    requires 0 <= m < 0x8000_0000_0000_0000
    ensures Atoi(FormatInt(m)) == Some(m)
  {
    var s := FormatInt(m);
    assert s == NatDigits(m) && IsDigit(s[0]);
    DigitsValueOfNatDigits(m);
  }

  /** `Atoi` parses back what `%d` prints. */
  lemma AtoiFormatInt(n: int64)
    ensures Atoi(FormatInt(n as int)) == Some(n as int)
  {
    if n < 0 {
      AtoiNegative(n as int);
    } else {
      AtoiNonNegative(n as int);
    }
  }

  // ---------------------------------------------------------------- strings.TrimSpace, Count, Split

  /** `unicode.IsSpace`. */
  predicate IsSpace(c: char)
  {
    var x := c as int;
    x == 0x09 || x == 0x0A || x == 0x0B || x == 0x0C || x == 0x0D || x == 0x20
    || x == 0x85 || x == 0xA0 || x == 0x1680 || (0x2000 <= x <= 0x200A)
    || x == 0x2028 || x == 0x2029 || x == 0x202F || x == 0x205F || x == 0x3000
  }

  function TrimLeftSpace(s: string): (r: string)
    ensures |r| <= |s| && r == s[|s| - |r|..]
    ensures r == [] || !IsSpace(r[0])
    ensures forall i :: 0 <= i < |s| - |r| ==> IsSpace(s[i])
  {
    if |s| > 0 && IsSpace(s[0]) then TrimLeftSpace(s[1..]) else s
  }

  function TrimRightSpace(s: string): (r: string)
    ensures |r| <= |s| && r == s[..|r|]
    ensures r == [] || !IsSpace(r[|r| - 1])
    ensures forall i :: |r| <= i < |s| ==> IsSpace(s[i])
  {
    if |s| > 0 && IsSpace(s[|s| - 1]) then TrimRightSpace(s[..|s| - 1]) else s
  }

  /** `r` is `s[a..b]` and everything of `s` outside `[a, b)` is white space. */
  predicate SpaceAround(s: string, r: string, a: int, b: int)
  {
    && 0 <= a <= b <= |s| && r == s[a..b]
    && (forall k :: 0 <= k < a ==> IsSpace(s[k])) && (forall k :: b <= k < |s| ==> IsSpace(s[k]))
  }

  /** `strings.TrimSpace`: the input without its leading and trailing white space; what is left
      neither starts nor ends with white space. */
  function TrimSpace(s: string): (r: string)
    ensures r == [] || (!IsSpace(r[0]) && !IsSpace(r[|r| - 1]))
    ensures exists a, b :: SpaceAround(s, r, a, b)
  {
    var t := TrimRightSpace(s);
    var r := TrimLeftSpace(t);
    assert r != [] ==> r[|r| - 1] == t[|t| - 1];
    TrimSpaceSlice(s);
    r
  }

  /** Trimming the right end and then the left cuts from `s` a slice with only white space around it. */
  lemma TrimSpaceSlice(s: string)
    ensures var t := TrimRightSpace(s); var r := TrimLeftSpace(t); SpaceAround(s, r, |t| - |r|, |t|)
  {
    var t := TrimRightSpace(s);
    var r := TrimLeftSpace(t);
    var a := |t| - |r|;
    assert r == s[a..|t|];
    forall k | 0 <= k < a ensures IsSpace(s[k]) { assert s[k] == t[k]; }
  }

  /** White space alone trims to the empty string. */
  lemma TrimSpaceAllSpace(s: string)
    requires forall i :: 0 <= i < |s| ==> IsSpace(s[i])
    ensures TrimSpace(s) == []
  {
  }

  lemma TrimSpaceNoSpace(s: string)
    requires s != [] && !IsSpace(s[0]) && !IsSpace(s[|s| - 1])
    ensures TrimSpace(s) == s
  {
  }

  /** `strings.Count(s, string(c))`. */
  function Count(s: string, c: char): nat
  {
    if s == [] then 0 else (if s[0] == c then 1 else 0) + Count(s[1..], c)
  }

  /** The index of the first `c` in `s`, or |s| when there is none. */
  function IndexOf(s: string, c: char): (k: nat)
    ensures k <= |s|
    ensures k < |s| ==> s[k] == c
    ensures forall i :: 0 <= i < k ==> s[i] != c
  {
    if s == [] then 0 else if s[0] == c then 0 else 1 + IndexOf(s[1..], c)
  }

  lemma {:induction false} CountZero(s: string, c: char)
    requires forall i :: 0 <= i < |s| ==> s[i] != c
    ensures Count(s, c) == 0
  {
    if s != [] {
      CountZero(s[1..], c);
    }
  }

  /** A character that occurs is found. */
  lemma IndexOfCounted(s: string, c: char)
    requires Count(s, c) > 0
    ensures IndexOf(s, c) < |s|
  {
    if IndexOf(s, c) == |s| {
      CountZero(s, c);
    }
  }

  lemma CountPrefixed(c: char, s: string)
    requires forall i :: 0 <= i < |s| ==> s[i] != c
    ensures Count([c] + s, c) == 1 && IndexOf([c] + s, c) == 0
  {
    assert ([c] + s)[1..] == s;
    CountZero(s, c);
  }

  lemma {:induction false} CountAppend(a: string, b: string, c: char)
    ensures Count(a + b, c) == Count(a, c) + Count(b, c)
  {
    if a != [] {
      assert (a + b)[1..] == a[1..] + b;
      CountAppend(a[1..], b, c);
    } else {
      assert a + b == b;
    }
  }

  lemma {:induction false} IndexOfAppend(a: string, b: string, c: char)
    requires forall i :: 0 <= i < |a| ==> a[i] != c
    ensures IndexOf(a + b, c) == |a| + IndexOf(b, c)
  {
    if a != [] {
      assert (a + b)[1..] == a[1..] + b;
      IndexOfAppend(a[1..], b, c);
    } else {
      assert a + b == b;
    }
  }

  // ---------------------------------------------------------------- UTF-8 (unicode/utf8)

  /** The UTF-8 encoding of one Unicode scalar value (Go's `[]byte(string)` conversion). */
  function Utf8Rune(c: char): (b: Bytes)
    ensures 1 <= |b| <= 4
    ensures (c as int < 0x80) == (|b| == 1)
    ensures c as int < 0x80 ==> b[0] as int == c as int
  {
    var x := c as int;
    if x < 0x80 then [x as byte]
    else if x < 0x800 then [(0xC0 + x / 0x40) as byte, (0x80 + x % 0x40) as byte]
    else if x < 0x1_0000 then
      [(0xE0 + x / 0x1000) as byte, (0x80 + (x / 0x40) % 0x40) as byte, (0x80 + x % 0x40) as byte]
    else
      [(0xF0 + x / 0x4_0000) as byte, (0x80 + (x / 0x1000) % 0x40) as byte,
       (0x80 + (x / 0x40) % 0x40) as byte, (0x80 + x % 0x40) as byte]
  }

  function Utf8Encode(s: string): (b: Bytes)
    ensures |b| >= |s|
  {
    if s == [] then [] else Utf8Rune(s[0]) + Utf8Encode(s[1..])
  }

  predicate IsAscii(s: string)
  {
    forall i :: 0 <= i < |s| ==> s[i] as int < 0x80
  }

  /** An ASCII string encodes one byte per character. */
  lemma {:induction false} Utf8EncodeAscii(s: string)
    requires IsAscii(s)
    ensures |Utf8Encode(s)| == |s|
    ensures forall i :: 0 <= i < |s| ==> Utf8Encode(s)[i] as int == s[i] as int
  {
    if s != [] {
      Utf8EncodeAscii(s[1..]);
    }
  }

  predicate IsContinuation(x: byte)
  {
    0x80 <= x <= 0xBF
  }

  /** The width `utf8.DecodeRune` (and `for i := range s`) gives the rune at the start of `b`:
      1 for ASCII and for every invalid or truncated sequence. */
  function RuneWidth(b: Bytes): (w: nat)
    requires |b| > 0
    ensures 1 <= w <= |b| && w <= 4
    ensures b[0] < 0x80 ==> w == 1
  {
    var b0 := b[0];
    if b0 < 0x80 then 1
    else if 0xC2 <= b0 <= 0xDF then
      if |b| >= 2 && IsContinuation(b[1]) then 2 else 1
    else if 0xE0 <= b0 <= 0xEF then
      var lo: byte := if b0 == 0xE0 then 0xA0 else 0x80;
      var hi: byte := if b0 == 0xED then 0x9F else 0xBF;
      if |b| >= 3 && lo <= b[1] <= hi && IsContinuation(b[2]) then 3 else 1
    else if 0xF0 <= b0 <= 0xF4 then
      var lo: byte := if b0 == 0xF0 then 0x90 else 0x80;
      var hi: byte := if b0 == 0xF4 then 0x8F else 0xBF;
      if |b| >= 4 && lo <= b[1] <= hi && IsContinuation(b[2]) && IsContinuation(b[3]) then 4 else 1
    else 1
  }
}
