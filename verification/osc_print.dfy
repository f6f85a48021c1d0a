/** The debug rendering of package osc (osc/print.go): a packet with every NUL shown as '~'. */
module OscPrint {
  import opened GoTypes
  import OscMessage
  import Osc

  /** The byte `String` writes for packet byte `c`. */
  function NulToTilde(c: byte): (r: byte)
    ensures r != NUL
    ensures c != NUL ==> r == c
    ensures c == NUL ==> r == Osc.TILDE
  {
    if c == NUL then Osc.TILDE else c
  }

  /** The rendering of a whole packet, byte by byte. */
  function Render(p: Bytes): (r: Bytes)
    ensures |r| == |p|
    ensures NUL !in r
  {
    if p == [] then [] else [NulToTilde(p[0])] + Render(p[1..])
  }

  /** The rendering has the packet's length; each NUL becomes '~' and every other byte is kept,
      in order, so no NUL is left. */
  lemma {:induction false} RenderAt(p: Bytes)
    ensures |Render(p)| == |p|
    ensures forall k :: 0 <= k < |p| ==> Render(p)[k] == NulToTilde(p[k])
    ensures forall k :: 0 <= k < |p| ==> Render(p)[k] != NUL
  {
    if p != [] {
      RenderAt(p[1..]);
    }
  }

  /** `Message.String`: the loop over the packet bytes into a strings.Builder. */
  method String(msg: OscMessage.Message) returns (s: Bytes)
    ensures s == Render(msg.packet)
  {
    var p := msg.packet;
    s := [];
    var i := 0;
    while i < |p|
      invariant 0 <= i <= |p|
      invariant s + Render(p[i..]) == Render(p)
    {
      assert p[i..][1..] == p[i + 1..];
      AppendAssoc(s, [NulToTilde(p[i])], Render(p[i + 1..]));
      if p[i] == NUL {
        s := s + [Osc.TILDE];
      } else {
        s := s + [p[i]];
      }
      i := i + 1;
    }
    assert s + [] == s;
  }

  /** `TildeToNul` undoes `NulToTilde`, byte by byte, on bytes other than '~'. */
  lemma TildeToNulOfRender(back: Bytes, r: Bytes, p: Bytes)
    requires |back| == |r| == |p|
    requires forall k :: 0 <= k < |p| ==> r[k] == NulToTilde(p[k]) && p[k] != Osc.TILDE
    requires forall k :: 0 <= k < |r| ==> back[k] == Osc.TildeToNul(r[k])
    ensures back == p
  {
    forall k | 0 <= k < |p| ensures back[k] == p[k] {
      assert back[k] == Osc.TildeToNul(r[k]) && r[k] == NulToTilde(p[k]);
    }
  }

  /** `NulToTilde` undoes `TildeToNul`, byte by byte, on bytes other than NUL. */
  lemma NulToTildeOfSend(back: Bytes, w: Bytes, s: Bytes)
    requires |back| == |w| == |s|
    requires forall k :: 0 <= k < |s| ==> w[k] == Osc.TildeToNul(s[k]) && s[k] != NUL
    requires forall k :: 0 <= k < |w| ==> back[k] == NulToTilde(w[k])
    ensures back == s
  {
    forall k | 0 <= k < |s| ensures back[k] == s[k] {
      assert back[k] == NulToTilde(w[k]) && w[k] == Osc.TildeToNul(s[k]);
    }
  }

  /** `SendString` undoes the rendering of an ASCII packet that holds no '~'. */
  lemma SendStringOfRender(p: Bytes)
    requires forall k :: 0 <= k < |p| ==> p[k] < 0x80 && p[k] != Osc.TILDE
    ensures Osc.SendStringBytes(Render(p)) == p
  {
    var r := Render(p);
    RenderAt(p);
    forall k | 0 <= k < |r| ensures r[k] < 0x80 { assert r[k] == NulToTilde(p[k]); }
    Osc.SendStringAscii(r);
    TildeToNulOfRender(Osc.SendStringBytes(r), r, p);
  }

  /** The rendering undoes `SendString` on ASCII text that holds no NUL. */
  lemma RenderOfSendString(s: Bytes)
    requires forall k :: 0 <= k < |s| ==> s[k] < 0x80 && s[k] != NUL
    ensures Render(Osc.SendStringBytes(s)) == s
  {
    var w := Osc.SendStringBytes(s);
    Osc.SendStringAscii(s);
    RenderAt(w);
    NulToTildeOfSend(Render(w), w, s);
  }
}
