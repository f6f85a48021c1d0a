/** The byte helpers of package osc (osc/util.go): padding, trimming and big-endian conversion. */
module OscUtil {
  import opened GoTypes

  /** `prependByte`: grows the slice by one, shifts it right in place (Go's overlapping `copy`)
      and writes `b` in front. */
  method PrependByte(byt: Bytes, b: byte) returns (r: array<byte>)
    ensures r[..] == [b] + byt
  {
    var n := |byt|;
    // append(byt, 0)
    r := new byte[n + 1](i requires 0 <= i <= n => if i < n then byt[i] else NUL);
    // copy(byt[1:], byt): a memmove one position to the right, done from the top down
    var i := n;
    while i > 0
      invariant 0 <= i <= n
      invariant r[..i + 1] == byt[..i] + [if i < n then byt[i] else NUL]
      invariant r[i + 1..] == byt[i..]
    {
      r[i] := r[i - 1];
      i := i - 1;
    }
    r[0] := b;
  }

  /** `bytes.TrimRight(byt, "\x00")`: the input without its trailing NUL bytes. */
  function TrimZeroBytesRight(byt: Bytes): (r: Bytes)
    ensures |r| <= |byt|
    ensures byt == r + Zeros(|byt| - |r|)
    ensures r == [] || r[|r| - 1] != NUL
  {
    if |byt| > 0 && byt[|byt| - 1] == NUL then
      var r := TrimZeroBytesRight(byt[..|byt| - 1]);
      assert byt == byt[..|byt| - 1] + [NUL];
      ZerosAdd(|byt| - 1 - |r|, 1);
      r
    else
      assert byt == byt + Zeros(0);
      byt
  }

  /** The leading half of `bytes.Trim(byt, "\x00")`. */
  function TrimZeroBytesLeft(byt: Bytes): (r: Bytes)
    ensures |r| <= |byt|
    ensures byt == Zeros(|byt| - |r|) + r
    ensures r == [] || r[0] != NUL
  {
    if |byt| > 0 && byt[0] == NUL then
      var r := TrimZeroBytesLeft(byt[1..]);
      var k := |byt| - 1 - |r|;
      assert byt == [NUL] + (Zeros(k) + r);
      assert [NUL] + Zeros(k) == Zeros(k + 1);
      AppendAssoc([NUL], Zeros(k), r);
      r
    else
      assert byt == Zeros(0) + byt;
      byt
  }

  /** `trimZeroBytes`: the contiguous sub-slice without leading and trailing NULs. */
  function TrimZeroBytes(byt: Bytes): (r: Bytes)
    ensures |r| <= |byt|
    ensures r == [] || (r[0] != NUL && r[|r| - 1] != NUL)
    ensures exists lead :: 0 <= lead <= |byt| - |r| && byt == Zeros(lead) + r + Zeros(|byt| - |r| - lead)
    ensures r == [] <==> forall i :: 0 <= i < |byt| ==> byt[i] == NUL
  {
    var t := TrimZeroBytesRight(byt);
    var r := TrimZeroBytesLeft(t);
    assert r != [] ==> r[|r| - 1] == t[|t| - 1];
    var lead := |t| - |r|;
    assert byt == Zeros(lead) + r + Zeros(|byt| - |r| - lead);
    assert r == [] ==> byt == Zeros(|byt|);
    assert r != [] ==> byt[lead] == r[0];
    r
  }

  /** util.go's `zeroBytesToAdd(n) = 4 - n % 4` (Go's truncating `%`). */
  function ZeroBytesToAdd(n: int): (k: int)
    ensures n >= 0 ==> 1 <= k <= 4 && (n + k) % 4 == 0
    ensures n < 0 ==> 4 <= k <= 7
  {
    4 - GoRem(n, 4)
  }

  /** `appendZeroBytes`: pads the slice with 1 to 4 NULs so its length is a multiple of 4. */
  function AppendZeroBytes(byt: Bytes): (r: Bytes)
    ensures |byt| < |r| <= |byt| + 4 && |r| % 4 == 0
    ensures r[..|byt|] == byt
    ensures forall i :: |byt| <= i < |r| ==> r[i] == NUL
  {
    byt + Zeros(ZeroBytesToAdd(|byt|))
  }

  /** `fixZeroBytes`: re-pads the slice after trimming its NULs on both ends. */
  function FixZeroBytes(byt: Bytes): (r: Bytes)
    ensures |r| % 4 == 0 && |r| > 0
  {
    AppendZeroBytes(TrimZeroBytes(byt))
  }

  /** Trimming the right end of `t + Zeros(k)` gives `t` back when `t` ends in a non-NUL byte. */
  lemma {:induction false} TrimRightOfPadded(t: Bytes, k: nat)
    requires t == [] || t[|t| - 1] != NUL
    ensures TrimZeroBytesRight(t + Zeros(k)) == t
  {
    if k > 0 {
      var s := t + Zeros(k);
      assert s[..|s| - 1] == t + Zeros(k - 1);
      TrimRightOfPadded(t, k - 1);
    } else {
      assert t + Zeros(0) == t;
    }
  }

  /** A trimmed slice followed by padding trims back to itself. */
  lemma TrimOfPadded(t: Bytes, k: nat)
    requires t == [] || (t[0] != NUL && t[|t| - 1] != NUL)
    ensures TrimZeroBytes(t + Zeros(k)) == t
  {
    TrimRightOfPadded(t, k);
  }

  /** `fixZeroBytes` is idempotent. */
  lemma FixZeroBytesIdempotent(byt: Bytes)
    ensures FixZeroBytes(FixZeroBytes(byt)) == FixZeroBytes(byt)
  {
    var t := TrimZeroBytes(byt);
    TrimOfPadded(t, ZeroBytesToAdd(|t|));
  }

  /** `binary.BigEndian.Uint32`: the first four bytes, most significant first. */
  function Uint32BE(b: Bytes): (u: uint32)
    requires |b| >= 4
  {
    (b[0] as int * 0x100_0000 + b[1] as int * 0x1_0000 + b[2] as int * 0x100 + b[3] as int) as uint32
  }

  /** `binary.BigEndian.PutUint32` into a fresh 4-byte slice. */
  function PutUint32BE(u: uint32): (b: Bytes)
    ensures |b| == 4
  {
    var x := u as int;
    [(x / 0x100_0000) as byte, ((x / 0x1_0000) % 0x100) as byte, ((x / 0x100) % 0x100) as byte, (x % 0x100) as byte]
  }

  lemma Uint32RoundTrip(u: uint32)
    ensures Uint32BE(PutUint32BE(u)) == u
  {
    var x := u as int;
    var q1, q2, q3 := x / 0x100_0000, x / 0x1_0000, x / 0x100;
    assert q2 == q1 * 0x100 + q2 % 0x100;
    assert q3 == q2 * 0x100 + q3 % 0x100;
    assert x == q3 * 0x100 + x % 0x100;
  }

  lemma BytesRoundTrip(b: Bytes)
    requires |b| == 4
    ensures PutUint32BE(Uint32BE(b)) == b
  {
    var x := Uint32BE(b) as int;
    assert x / 0x100 == b[0] as int * 0x1_0000 + b[1] as int * 0x100 + b[2] as int;
    assert x / 0x1_0000 == b[0] as int * 0x100 + b[1] as int;
    assert x / 0x100_0000 == b[0] as int;
  }

  /** `uint32(i)`: the two's-complement bit pattern of an int32. */
  function Uint32Of(i: int32): (u: uint32)
    ensures u as int % 0x1_0000_0000 == i as int % 0x1_0000_0000
  {
    if i < 0 then (i as int + 0x1_0000_0000) as uint32 else i as int as uint32
  }

  /** `int32(u)`: reinterprets a bit pattern as two's complement. */
  function Int32Of(u: uint32): (i: int32)
    ensures i as int % 0x1_0000_0000 == u as int % 0x1_0000_0000
  {
    if u >= 0x8000_0000 then (u as int - 0x1_0000_0000) as int32 else u as int as int32
  }

  /** `int32ToBytes`: the big-endian encoding of an int32. */
  function Int32ToBytes(i: int32): (b: Bytes)
    ensures |b| == 4
  {
    PutUint32BE(Uint32Of(i))
  }

  /** `bytesToInt32` (and the identical `byteToInt32` of osc/osc.go and osc/util.go). */
  function BytesToInt32(b: Bytes): int32
    requires |b| >= 4
  {
    Int32Of(Uint32BE(b))
  }

  /** Decoding an encoded int32 gives it back. */
  lemma Int32RoundTrip(i: int32)
    ensures BytesToInt32(Int32ToBytes(i)) == i
  {
    Uint32RoundTrip(Uint32Of(i));
  }

  /** Every 4-byte slice is the encoding of the int32 it decodes to. */
  lemma Int32BytesRoundTrip(b: Bytes)
    requires |b| == 4
    ensures Int32ToBytes(BytesToInt32(b)) == b
  {
    BytesRoundTrip(b);
    var u := Uint32BE(b);
    assert Uint32Of(Int32Of(u)) == u;
  }

  /** `allElementsZero`: an early-exit scan for a non-zero byte. */
  method AllElementsZero(b: Bytes) returns (r: bool)
    ensures r <==> forall i :: 0 <= i < |b| ==> b[i] == NUL
  {
    var i := 0;
    while i < |b|
      invariant 0 <= i <= |b|
      invariant forall j :: 0 <= j < i ==> b[j] == NUL
    {
      if b[i] != NUL {
        return false;
      }
      i := i + 1;
    }
    return true;
  }
}
