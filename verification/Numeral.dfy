/** Bytes, and the number a run of bytes spells in base 256, most significant first. */
module Numeral {

  type Byte = b: nat | b < 256

  function Pow256(n: nat): (r: nat)
    ensures r >= 1
  {
    if n == 0 then 1 else 256 * Pow256(n - 1)
  }

  function Num(s: seq<Byte>): (r: nat) {
    if s == [] then 0 else Num(s[..|s| - 1]) * 256 + s[|s| - 1]
  }

  function Repeat(b: Byte, n: nat): (s: seq<Byte>)
    ensures |s| == n && forall i :: 0 <= i < n ==> s[i] == b
  {
    seq(n, _ => b)
  }

  lemma RepeatSnoc(b: Byte, n: nat)
    ensures Repeat(b, n) + [b] == Repeat(b, n + 1)
  {
  }

  lemma NumSnoc(s: seq<Byte>, b: Byte)
    ensures Num(s + [b]) == Num(s) * 256 + b
  {
    assert (s + [b])[..|s|] == s;
  }

  lemma {:induction false} NumAppend(a: seq<Byte>, b: seq<Byte>)
    ensures Num(a + b) == Num(a) * Pow256(|b|) + Num(b)
  {
    if b == [] {
      assert a + b == a;
    } else {
      var n := |b| - 1;
      var p := Pow256(n);
      NumAppend(a, b[..n]);
      assert a + b == (a + b[..n]) + [b[n]];
      NumSnoc(a + b[..n], b[n]);
      assert (Num(a) * p) * 256 == Num(a) * (256 * p);
    }
  }

  /** A digit b and k digits 255 after it, as one number. */
  function Held(b: Byte, k: nat): (r: nat) {
    if k == 0 then b else Held(b, k - 1) * 256 + 255
  }

  lemma {:induction false} HeldFull(k: nat)
    ensures Held(255, k) == Pow256(k + 1) - 1
  {
    if k == 0 {
      assert Pow256(0) == 1;
    } else {
      HeldFull(k - 1);
    }
  }

  /** Adding one to ...b FF FF..FF gives ...(b+1) 00 00..00. */
  lemma {:induction false} CarryThrough(s: seq<Byte>, b: Byte, k: nat)
    requires b < 255
    ensures Num(s + [b + 1] + Repeat(0, k)) == Num(s + [b] + Repeat(255, k)) + 1
  {
    if k == 0 {
      NumSnoc(s, b);
      NumSnoc(s, b + 1);
      assert s + [b + 1] + Repeat(0, 0) == s + [b + 1];
      assert s + [b] + Repeat(255, 0) == s + [b];
    } else {
      CarryThrough(s, b, k - 1);
      NumSnoc(s + [b + 1] + Repeat(0, k - 1), 0);
      NumSnoc(s + [b] + Repeat(255, k - 1), 255);
      assert s + [b + 1] + Repeat(0, k) == s + [b + 1] + Repeat(0, k - 1) + [0];
      assert s + [b] + Repeat(255, k) == s + [b] + Repeat(255, k - 1) + [255];
    }
  }

  lemma {:induction false} NumBound(s: seq<Byte>)
    ensures Num(s) < Pow256(|s|)
  {
    if s != [] {
      NumBound(s[..|s| - 1]);
    }
  }
}
