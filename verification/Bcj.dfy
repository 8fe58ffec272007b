/**
 * The x86 branch filter run over the data before packing, and its inverse run after unpacking.
 *
 * A call or jump operand is made absolute only when the byte that decides it looks like a sign byte,
 * so a rewritten operand must not change how the bytes before it are judged. A window of recent
 * opcodes that were left alone carries what that takes.
 */
module Bcj {
  import opened Numeral
  import opened Words

  /** E8 and E9, the opcodes with a 32-bit relative operand. */
  predicate IsBranch(b: Byte) {
    b == 0xe8 || b == 0xe9
  }

  predicate IsSign(b: Byte) {
    b == 0 || b == 255
  }

  // ---------------------------------------------------------------- the window

  /**
   * Bit k, for k up to 3, marks an untouched opcode k bytes back; bit 4 + k says that the byte
   * deciding it looked like a sign byte.
   */
  type Window = bv8

  function Age(w: Window): Window {
    (w & 0x77) << 1
  }

  function AgeBy(w: Window, gap: nat): Window
    decreases gap
  {
    if gap == 0 then w else Age(AgeBy(w, gap - 1))
  }

  function Mark(w: Window, sign: bool): Window {
    w | 1 | (if sign then 16 else 0)
  }

  predicate Allowed(w: Window) {
    w <= 8 && w != 6
  }

  /** The scale of the byte of the operand that the one marked opcode looks at. */
  function GuardScale(w: Window): (t: nat)
    ensures t == 0 || t == 1 || t == 256 || t == 0x1_0000
  {
    if w == 0 then 0 else if w < 4 then 0x1_0000 else if w < 8 then 256 else 1
  }

  // ---------------------------------------------------------------- operands

  /** Three bytes as they are, and a fourth that repeats bit 24. */
  function Canonical(v: nat): (s: seq<Byte>)
    ensures |s| == 4 && IsSign(s[3])
  {
    [v % 256, v / 256 % 256, v / 0x1_0000 % 256, if v / 0x100_0000 % 2 == 0 then 0 else 255]
  }

  function Add32(a: nat, b: nat): nat {
    (a + b) % 0x1_0000_0000
  }

  function Sub32(a: nat, b: nat): nat {
    (a - b) % 0x1_0000_0000
  }

  /** The scale of one of the three bytes an operand rewrite can touch. */
  type Scale = t: nat | t == 1 || t == 256 || t == 0x1_0000 witness 1

  function ByteAt(v: nat, t: Scale): Byte {
    if t == 1 then v % 256 else if t == 256 then v / 256 % 256 else v / 0x1_0000 % 256
  }

  /** The byte at scale t and everything below it. */
  function Low(v: nat, t: Scale): (l: nat)
    ensures l < 256 * t && l <= v && l == v % (256 * t)
  {
    if t == 1 then v % 256 else if t == 256 then v % 0x1_0000 else v % 0x100_0000
  }

  /** Complements the byte at scale t and everything below it. */
  function Flip(v: nat, t: Scale): nat {
    v - Low(v, t) + (256 * t - 1 - Low(v, t))
  }

  /** An exclusive-or with ones up to the top of that byte. */
  lemma FlipIs(v: nat, t: Scale)
    ensures t == 1 ==> Flip(v, t) % 256 == 255 - v % 256 && Flip(v, t) / 256 == v / 256
    ensures t == 256 ==> Flip(v, t) % 0x1_0000 == 0xffff - v % 0x1_0000 && Flip(v, t) / 0x1_0000 == v / 0x1_0000
    ensures t == 0x1_0000 ==>
              Flip(v, t) % 0x100_0000 == 0xff_ffff - v % 0x100_0000 && Flip(v, t) / 0x100_0000 == v / 0x100_0000
  {
    if t == 1 {
      Complement8(v);
    } else if t == 256 {
      Complement16(v);
    } else {
      Complement24(v);
    }
  }

  lemma Complement8(v: nat)
    ensures var f := v - v % 256 + (255 - v % 256); f % 256 == 255 - v % 256 && f / 256 == v / 256
  {
  }

  lemma Complement16(v: nat)
    ensures var f := v - v % 0x1_0000 + (0xffff - v % 0x1_0000);
            f % 0x1_0000 == 0xffff - v % 0x1_0000 && f / 0x1_0000 == v / 0x1_0000
  {
  }

  lemma Complement24(v: nat)
    ensures var f := v - v % 0x100_0000 + (0xff_ffff - v % 0x100_0000);
            f % 0x100_0000 == 0xff_ffff - v % 0x100_0000 && f / 0x100_0000 == v / 0x100_0000
  {
  }

  /** The absolute operand, stepped past values whose guarded byte looks like a sign byte. */
  function Mix(v: nat, base: nat, t: nat): nat
    requires t != 0 ==> t == 1 || t == 256 || t == 0x1_0000
  {
    var w := Add32(v, base);
    if t == 0 || !IsSign(ByteAt(w, t)) then w else Add32(Flip(w, t), base)
  }

  /** The decompressor's way back, with its own test of a sign byte. */
  function Unmix(w: nat, base: nat, t: nat): nat
    requires t != 0 ==> t == 1 || t == 256 || t == 0x1_0000
  {
    var v := Sub32(w, base);
    if t == 0 || !Signs(ByteAt(v, t)) then v else Sub32(Flip(v, t), base)
  }

  // ---------------------------------------------------------------- the decompressor's own tests and operands

  /** The distance above E8, in eight bits, is at most one. */
  predicate Branches(b: Byte)
    ensures Branches(b) == IsBranch(b)
  {
    (b - 0xe8) % 256 <= 1
  }

  /** One more, in eight bits, is at most one. */
  predicate Signs(b: Byte)
    ensures Signs(b) == IsSign(b)
  {
    (b + 1) % 256 <= 1
  }

  function Aged(w: Window, gap: nat): (a: Window)
    ensures a == AgeBy(w, gap)
    decreases gap
  {
    if gap == 0 then w else var before := Aged(w, gap - 1) & 0x77; before + before
  }

  function Marked(w: Window, b: Byte): (m: Window)
    ensures m == Mark(w, IsSign(b))
  {
    if Signs(b) then (w | 1) | 16 else w | 1
  }

  predicate Passes(w: Window)
    ensures Passes(w) == Allowed(w)
  {
    !(w > 8) && w != 6
  }

  /** The highest bit set, for a window that passes. */
  function HighBit(w: Window): (b: nat)
    ensures b <= 3
  {
    if w >= 8 then 3 else if w >= 4 then 2 else 1
  }

  /** As many bytes above the lowest as that bit is short of three. */
  function Scaled(w: Window): (t: nat)
    ensures t == GuardScale(w)
  {
    assert Pow256(0) == 1 && Pow256(1) == 256 && Pow256(2) == 0x1_0000;
    if w == 0 then 0 else Pow256(3 - HighBit(w))
  }

  /** The lowest 25 bits, sign-extended to 32. */
  function Extended(v: nat): (s: seq<Byte>)
    ensures s == Canonical(v)
  {
    ExtendedIs(v);
    Le32(if v % 0x200_0000 < 0x100_0000 then v % 0x200_0000 else 0x1_0000_0000 - 0x200_0000 + v % 0x200_0000)
  }

  lemma ExtendedIs(v: nat)
    ensures Le32(if v % 0x200_0000 < 0x100_0000 then v % 0x200_0000 else 0xfe00_0000 + v % 0x200_0000) == Canonical(v)
  {
    var low := v % 0x200_0000;
    var u := if low < 0x100_0000 then low else 0xfe00_0000 + low;
    var q := v / 0x200_0000;
    assert v == low + 0x200_0000 * q;
    SameBytes(v, low, q);
    SameBytes(0xfe00_0000 + low, low, 127);
  }

  lemma SameBytes(v: nat, low: nat, q: nat)
    requires v == low + 0x200_0000 * q && low < 0x200_0000
    ensures v % 256 == low % 256 && v / 256 % 256 == low / 256 % 256 && v / 0x1_0000 % 256 == low / 0x1_0000 % 256
    ensures v / 0x100_0000 == low / 0x100_0000 + 2 * q
  {
    SameByte(v, low, 0x2_0000 * q);
    assert v / 256 == low / 256 + 0x2_0000 * q;
    SameByte(v / 256, low / 256, 512 * q);
    assert v / 0x1_0000 == low / 0x1_0000 + 512 * q;
    SameByte(v / 0x1_0000, low / 0x1_0000, 2 * q);
  }

  lemma SameByte(x: nat, y: nat, k: nat)
    requires x == y + 256 * k
    ensures x % 256 == y % 256
  {
  }

  // ---------------------------------------------------------------- the filter and its inverse

  /** The filter on the bytes from pos on, under the window at pos. */
  function Encode(pos: nat, s: seq<Byte>, w: Window): (r: seq<Byte>)
    ensures |r| == |s|
    decreases |s|
  {
    if |s| < 5 then s
    else if !IsBranch(s[0]) then [s[0]] + Encode(pos + 1, s[1..], Age(w))
    else if IsSign(s[4]) && Allowed(w) then
      [s[0]] + Canonical(Mix(FromLe32(s[1..5]), pos + 5, GuardScale(w))) + Encode(pos + 5, s[5..], 0)
    else
      [s[0]] + Encode(pos + 1, s[1..], Age(Mark(w, IsSign(s[4]))))
  }

  function Decode(pos: nat, s: seq<Byte>, w: Window): (r: seq<Byte>)
    ensures |r| == |s|
    decreases |s|
  {
    if |s| < 5 then s
    else if !IsBranch(s[0]) then [s[0]] + Decode(pos + 1, s[1..], Age(w))
    else if IsSign(s[4]) && Allowed(w) then
      [s[0]] + Canonical(Unmix(FromLe32(s[1..5]), pos + 5, GuardScale(w))) + Decode(pos + 5, s[5..], 0)
    else
      [s[0]] + Decode(pos + 1, s[1..], Age(Mark(w, IsSign(s[4]))))
  }

  /** Each mark within reach carries the right sign flag, and no flag stands without its mark. */
  predicate WindowOk(s: seq<Byte>, w: Window) {
    && (w & 2 != 0 ==> |s| > 3 && (w & 32 != 0 <==> IsSign(s[3])))
    && (w & 4 != 0 ==> |s| > 2 && (w & 64 != 0 <==> IsSign(s[2])))
    && (w & 8 != 0 ==> |s| > 1 && (w & 128 != 0 <==> IsSign(s[1])))
    && (w & 2 == 0 ==> w & 32 == 0) && (w & 4 == 0 ==> w & 64 == 0) && (w & 8 == 0 ==> w & 128 == 0)
    && w & 1 == 0 && w & 16 == 0
  }

  // ---------------------------------------------------------------- operand arithmetic

  lemma LowUnique(v: nat, t: Scale, l: nat, j: int)
    requires l < 256 * t && v == l + 256 * t * j
    ensures Low(v, t) == l
  {
    if t == 1 {
      assert v == l + 256 * j;
    } else if t == 256 {
      assert v == l + 0x1_0000 * j;
    } else {
      assert v == l + 0x100_0000 * j;
    }
  }

  lemma LowSplit(v: nat, t: Scale) returns (j: nat)
    ensures v == Low(v, t) + 256 * t * j
  {
    if t == 1 {
      j := v / 256;
    } else if t == 256 {
      j := v / 0x1_0000;
    } else {
      j := v / 0x100_0000;
    }
  }

  lemma ByteOfLow(v: nat, t: Scale)
    ensures ByteAt(v, t) == Low(v, t) / t
  {
    if t == 256 {
      assert v / 256 == 256 * (v / 0x1_0000) + v % 0x1_0000 / 256;
    } else if t == 0x1_0000 {
      assert v / 0x1_0000 == 256 * (v / 0x100_0000) + v % 0x100_0000 / 0x1_0000;
    }
  }

  /** Complementing the low part complements its top byte. */
  lemma ByteComplement(x: nat, y: nat, t: Scale)
    requires Low(y, t) == 256 * t - 1 - Low(x, t)
    ensures ByteAt(y, t) == 255 - ByteAt(x, t)
  {
    ByteOfLow(x, t);
    ByteOfLow(y, t);
  }

  lemma FlipLow(v: nat, t: Scale)
    ensures Low(Flip(v, t), t) == 256 * t - 1 - Low(v, t)
  {
    var j := LowSplit(v, t);
    LowUnique(Flip(v, t), t, 256 * t - 1 - Low(v, t), j);
  }

  /** Equal in the 25 bits an operand is made of. */
  predicate Same25(a: nat, b: nat) {
    a % 0x200_0000 == b % 0x200_0000
  }

  lemma Same25Witness(a: nat, b: nat) returns (k: int)
    requires Same25(a, b)
    ensures a == b + 0x200_0000 * k
  {
    k := a / 0x200_0000 - b / 0x200_0000;
  }

  lemma Same25By(a: nat, b: nat, k: int)
    requires a == b + 0x200_0000 * k
    ensures Same25(a, b)
  {
  }

  lemma SubSame(a: nat, b: nat, c: nat)
    requires Same25(a, b)
    ensures Same25(Sub32(a, c), Sub32(b, c))
  {
    var k := Same25Witness(a, b);
    Same25By(Sub32(a, c), Sub32(b, c), k - 128 * ((a - c) / 0x1_0000_0000 - (b - c) / 0x1_0000_0000));
  }

  lemma SubUndoesAdd(v: nat, base: nat)
    ensures Same25(Sub32(Add32(v, base), base), v)
  {
    var q := (v + base) / 0x1_0000_0000;
    var x := Add32(v, base);
    assert x == v + base - 0x1_0000_0000 * q;
    Same25By(Sub32(x, base), v, -128 * q - 128 * ((x - base) / 0x1_0000_0000));
  }

  lemma LowSame(a: nat, b: nat, t: Scale)
    requires Same25(a, b)
    ensures Low(a, t) == Low(b, t) && ByteAt(a, t) == ByteAt(b, t)
  {
    var k := Same25Witness(a, b);
    var j := LowSplit(b, t);
    if t == 1 {
      LowUnique(a, t, Low(b, t), j + 0x2_0000 * k);
    } else if t == 256 {
      LowUnique(a, t, Low(b, t), j + 512 * k);
    } else {
      LowUnique(a, t, Low(b, t), j + 2 * k);
    }
    ByteOfLow(a, t);
    ByteOfLow(b, t);
  }

  lemma FlipSame(a: nat, b: nat, t: Scale)
    requires Same25(a, b)
    ensures Same25(Flip(a, t), Flip(b, t))
  {
    LowSame(a, b, t);
    var k := Same25Witness(a, b);
    Same25By(Flip(a, t), Flip(b, t), k);
  }

  lemma FlipTwice(v: nat, t: Scale)
    ensures Flip(Flip(v, t), t) == v
  {
    FlipLow(v, t);
  }

  /** The second round always settles: its byte is the complement of the byte it started from. */
  lemma SecondRound(v: nat, base: nat, t: Scale)
    ensures ByteAt(Add32(Flip(Add32(v, base), t), base), t) == 255 - ByteAt(v, t)
    ensures ByteAt(Sub32(Flip(Sub32(v, base), t), base), t) == 255 - ByteAt(v, t)
  {
    var j := LowSplit(v, t);
    Turned(v, t, j, base);
    ByteComplement(v, Add32(Flip(Add32(v, base), t), base), t);
    Turned(v, t, j, 0 - base);
    ByteComplement(v, Sub32(Flip(Sub32(v, base), t), base), t);
  }

  /** Stepping by d, complementing and stepping by d again complements the low part. */
  lemma Turned(v: nat, t: Scale, j: nat, d: int)
    requires v == Low(v, t) + 256 * t * j
    ensures var w := (v + d) % 0x1_0000_0000;
            Low((Flip(w, t) + d) % 0x1_0000_0000, t) == 256 * t - 1 - Low(v, t)
  {
    var w, a := (v + d) % 0x1_0000_0000, (v + d) / 0x1_0000_0000;
    var i := LowSplit(w, t);
    var x := Flip(w, t) + d;
    var y, b := x % 0x1_0000_0000, x / 0x1_0000_0000;
    assert w == v + d - 0x1_0000_0000 * a && y == x - 0x1_0000_0000 * b;
    var l := 256 * t - 1 - Low(v, t);
    if t == 1 {
      LowUnique(y, t, l, 2 * i - j + 0x100_0000 * (a - b));
    } else if t == 256 {
      LowUnique(y, t, l, 2 * i - j + 0x1_0000 * (a - b));
    } else {
      LowUnique(y, t, l, 2 * i - j + 256 * (a - b));
    }
  }

  /** Undoing a mixed operand, from its low 25 bits alone, gives the operand back. */
  lemma MixUndo(v: nat, base: nat, t: nat, c: nat)
    requires t != 0 ==> (t == 1 || t == 256 || t == 0x1_0000) && !IsSign(ByteAt(v, t))
    requires Same25(c, Mix(v, base, t))
    ensures Same25(Unmix(c, base, t), v)
    ensures t != 0 ==> !IsSign(ByteAt(Mix(v, base, t), t))
  {
    var w := Add32(v, base);
    SubUndoesAdd(v, base);
    if t == 0 || !IsSign(ByteAt(w, t)) {
      SubSame(c, w, base);
      if t != 0 {
        LowSame(Sub32(c, base), v, t);
      }
    } else {
      SecondRound(v, base, t);
      var v' := Flip(w, t);
      SubUndoesAdd(v', base);
      SubSame(c, Add32(v', base), base);
      var u := Sub32(c, base);
      LowSame(u, v', t);
      FlipLow(w, t);
      ByteComplement(w, v', t);
      FlipSame(u, v', t);
      FlipTwice(w, t);
      SubSame(Flip(u, t), w, base);
    }
  }

  // ---------------------------------------------------------------- operand bytes

  lemma LeBytes(s: seq<Byte>)
    requires |s| == 4
    ensures ByteAt(FromLe32(s), 1) == s[0] && ByteAt(FromLe32(s), 256) == s[1] && ByteAt(FromLe32(s), 0x1_0000) == s[2]
    ensures FromLe32(s) / 0x100_0000 == s[3]
  {
    var a: nat, b: nat, c: nat, d: nat := s[0], s[1], s[2], s[3];
    var v := FromLe32(s);
    assert v / 256 == b + 256 * c + 0x1_0000 * d;
    assert v / 0x1_0000 == c + 256 * d;
    assert v / 0x100_0000 == d;
  }

  lemma Top25(a: nat, b: nat)
    requires Same25(a, b)
    ensures a / 0x100_0000 % 2 == b / 0x100_0000 % 2
  {
    var k := Same25Witness(a, b);
    assert a / 0x100_0000 == b / 0x100_0000 + 2 * k;
  }

  /** An operand whose top byte is a sign byte is determined by its low 25 bits. */
  lemma CanonicalOf(s: seq<Byte>, v: nat)
    requires |s| == 4 && IsSign(s[3]) && Same25(v, FromLe32(s))
    ensures Canonical(v) == s
  {
    LeBytes(s);
    LowSame(v, FromLe32(s), 1);
    LowSame(v, FromLe32(s), 256);
    LowSame(v, FromLe32(s), 0x1_0000);
    Top25(v, FromLe32(s));
  }

  lemma CanonicalKeeps(v: nat)
    ensures Same25(FromLe32(Canonical(v)), v)
  {
    var a, b, c, d := v % 256, v / 256 % 256, v / 0x1_0000 % 256, v / 0x100_0000;
    Digits(v);
    Same25By(FromLe32(Canonical(v)), v, if d % 2 == 0 then -(d / 2) else 127 - d / 2);
  }

  // ---------------------------------------------------------------- the inverse

  lemma WindowAges(s: seq<Byte>, w: Window)
    requires |s| >= 1 && WindowOk(s, w)
    ensures WindowOk(s[1..], Age(w))
    ensures w & 2 != 0 ==> Age(w) & 4 != 0
    ensures w & 4 != 0 ==> Age(w) & 8 != 0
  {
    AgeBits(w);
  }

  lemma WindowMarks(s: seq<Byte>, w: Window)
    requires |s| >= 5 && WindowOk(s, w)
    ensures WindowOk(s[1..], Age(Mark(w, IsSign(s[4]))))
    ensures Age(Mark(w, IsSign(s[4]))) & 2 != 0
    ensures w & 2 != 0 ==> Age(Mark(w, IsSign(s[4]))) & 4 != 0
    ensures w & 4 != 0 ==> Age(Mark(w, IsSign(s[4]))) & 8 != 0
  {
    AgeBits(Mark(w, IsSign(s[4])));
    MarkBits(w, IsSign(s[4]));
  }

  lemma AgeBits(w: Window)
    ensures var a := Age(w);
            && (a & 2 != 0 <==> w & 1 != 0) && (a & 4 != 0 <==> w & 2 != 0) && (a & 8 != 0 <==> w & 4 != 0)
            && (a & 32 != 0 <==> w & 16 != 0) && (a & 64 != 0 <==> w & 32 != 0) && (a & 128 != 0 <==> w & 64 != 0)
            && a & 1 == 0 && a & 16 == 0
  {
  }

  lemma MarkBits(w: Window, sign: bool)
    ensures var m := Mark(w, sign);
            && m & 1 != 0 && (m & 16 != 0 <==> sign || w & 16 != 0)
            && (m & 2 == w & 2) && (m & 4 == w & 4) && (m & 32 == w & 32) && (m & 64 == w & 64)
  {
  }

  /** An operand is rewritten only with at most one mark in reach, and that one without a sign flag. */
  lemma AllowedCases(w: Window)
    requires Allowed(w) && w & 1 == 0
    ensures w == 0 || w == 2 || w == 4 || w == 8
    ensures w & 32 == 0 && w & 64 == 0 && w & 128 == 0
  {
  }

  /** The byte a rewrite must keep from looking like a sign byte does not look like one to begin with. */
  lemma GuardClear(s: seq<Byte>, w: Window)
    requires |s| >= 5 && WindowOk(s, w) && Allowed(w)
    ensures var t := GuardScale(w); t != 0 ==> !IsSign(ByteAt(FromLe32(s[1..5]), t))
  {
    AllowedCases(w);
    LeBytes(s[1..5]);
  }

  /** A rewritten operand keeps every judgement that looks into it. */
  lemma RewriteGuards(pos: nat, s: seq<Byte>, w: Window)
    requires |s| >= 5 && WindowOk(s, w) && Allowed(w) && IsSign(s[4])
    ensures var c := Canonical(Mix(FromLe32(s[1..5]), pos + 5, GuardScale(w)));
            && (w & 2 != 0 ==> IsSign(c[2]) == IsSign(s[3]))
            && (w & 4 != 0 ==> IsSign(c[1]) == IsSign(s[2]))
            && (w & 8 != 0 ==> IsSign(c[0]) == IsSign(s[1]))
  {
    var v, t := FromLe32(s[1..5]), GuardScale(w);
    GuardClear(s, w);
    AllowedCases(w);
    if t != 0 {
      MixUndo(v, pos + 5, t, Mix(v, pos + 5, t));
    }
  }

  /** The filter leaves the first byte alone and keeps the judgement of every mark in the window. */
  lemma {:induction false} EncodeGuards(pos: nat, s: seq<Byte>, w: Window)
    requires WindowOk(s, w)
    ensures var r := Encode(pos, s, w);
            && (|s| > 0 ==> r[0] == s[0])
            && (w & 2 != 0 ==> IsSign(r[3]) == IsSign(s[3]))
            && (w & 4 != 0 ==> IsSign(r[2]) == IsSign(s[2]))
            && (w & 8 != 0 ==> IsSign(r[1]) == IsSign(s[1]))
    decreases |s|
  {
    if |s| < 5 {
    } else if !IsBranch(s[0]) {
      WindowAges(s, w);
      EncodeGuards(pos + 1, s[1..], Age(w));
    } else if IsSign(s[4]) && Allowed(w) {
      RewriteGuards(pos, s, w);
    } else {
      WindowMarks(s, w);
      EncodeGuards(pos + 1, s[1..], Age(Mark(w, IsSign(s[4]))));
    }
  }

  /** Decoding undoes encoding, from any position and under any sound window. */
  lemma {:induction false} DecodeEncode(pos: nat, s: seq<Byte>, w: Window)
    requires WindowOk(s, w)
    ensures Decode(pos, Encode(pos, s, w), w) == s
    decreases |s|
  {
    var r := Encode(pos, s, w);
    if |s| < 5 {
    } else if !IsBranch(s[0]) {
      WindowAges(s, w);
      DecodeEncode(pos + 1, s[1..], Age(w));
      assert r[1..] == Encode(pos + 1, s[1..], Age(w));
    } else if IsSign(s[4]) && Allowed(w) {
      RewriteUndo(pos, s, w);
    } else {
      var m := Age(Mark(w, IsSign(s[4])));
      WindowMarks(s, w);
      EncodeGuards(pos + 1, s[1..], m);
      DecodeEncode(pos + 1, s[1..], m);
      assert r[1..] == Encode(pos + 1, s[1..], m);
      assert IsSign(r[4]) == IsSign(s[4]);
    }
  }

  lemma RewriteUndo(pos: nat, s: seq<Byte>, w: Window)
    requires |s| >= 5 && WindowOk(s, w) && IsBranch(s[0]) && IsSign(s[4]) && Allowed(w)
    ensures Decode(pos, Encode(pos, s, w), w) == s
    decreases |s|, 0
  {
    var v, t := FromLe32(s[1..5]), GuardScale(w);
    var c, tail := Canonical(Mix(v, pos + 5, t)), Encode(pos + 5, s[5..], 0);
    var r := [s[0]] + c + tail;
    assert r[1..5] == c && r[5..] == tail && r[4] == c[3];
    GuardClear(s, w);
    CanonicalKeeps(Mix(v, pos + 5, t));
    MixUndo(v, pos + 5, t, FromLe32(c));
    CanonicalOf(s[1..5], Unmix(FromLe32(c), pos + 5, t));
    DecodeEncode(pos + 5, s[5..], 0);
    assert [s[0]] + s[1..5] + s[5..] == s;
  }

  // ---------------------------------------------------------------- in place

  /** The window at a position, from the history kept at the last opcode and the distance to it. */
  function WindowAfter(history: Window, gap: nat): Window {
    if gap >= 4 then 0 else AgeBy(history, gap)
  }

  /** Ageing once per byte passed is the same as ageing by the gap when the next opcode comes. */
  lemma WindowSlides(history: Window, gap: nat)
    ensures WindowAfter(history, gap + 1) == Age(WindowAfter(history, gap))
  {
    if gap == 3 {
      assert Age(Age(Age(Age(history)))) == 0;
      assert AgeBy(history, 3) == Age(Age(Age(history)));
    }
  }

  /** The inverse as the decompressor runs it: the history is aged only when an opcode turns up. */
  function DecodeByGap(pos: nat, s: seq<Byte>, gap: nat, history: Window): (r: seq<Byte>)
    ensures |r| == |s|
    decreases |s|
  {
    if |s| < 5 then s
    else if !Branches(s[0]) then [s[0]] + DecodeByGap(pos + 1, s[1..], gap + 1, history)
    else
      var aged := if gap >= 4 then 0 else Aged(history, gap);
      if Signs(s[4]) && Passes(aged) then
        [s[0]] + Extended(Unmix(FromLe32(s[1..5]), pos + 5, Scaled(aged))) + DecodeByGap(pos + 5, s[5..], 5, 0)
      else
        [s[0]] + DecodeByGap(pos + 1, s[1..], 1, Marked(aged, s[4]))
  }

  lemma {:induction false} DecodeByGapIs(pos: nat, s: seq<Byte>, gap: nat, history: Window)
    ensures DecodeByGap(pos, s, gap, history) == Decode(pos, s, WindowAfter(history, gap))
    decreases |s|
  {
    if |s| >= 5 {
      WindowSlides(history, gap);
      var aged := WindowAfter(history, gap);
      if !IsBranch(s[0]) {
        DecodeByGapIs(pos + 1, s[1..], gap + 1, history);
      } else if IsSign(s[4]) && Allowed(aged) {
        DecodeByGapIs(pos + 5, s[5..], 5, 0);
      } else {
        var marked := Mark(aged, IsSign(s[4]));
        DecodeByGapIs(pos + 1, s[1..], 1, marked);
        assert WindowAfter(marked, 1) == Age(AgeBy(marked, 0));
      }
    }
  }

  /** Filtering and undoing it gives every buffer back. */
  lemma FilterRoundTrip(data: seq<Byte>)
    ensures DecodeByGap(0, Encode(0, data, 0), 5, 0) == data
  {
    DecodeByGapIs(0, Encode(0, data, 0), 5, 0);
    DecodeEncode(0, data, 0);
  }

  method AgeLoop(history0: Window, gap0: nat) returns (history: Window)
    ensures history == AgeBy(history0, gap0)
  {
    history := history0;
    for i := 0 to gap0
      invariant history == AgeBy(history0, i)
    {
      history := (history & 0x77) << 1;
    }
  }

  /** Adds the base, and steps on while the guarded byte looks like a sign byte. */
  method MixLoop(operand: nat, base: nat, t: nat) returns (value: nat)
    requires t != 0 ==> (t == 1 || t == 256 || t == 0x1_0000) && !IsSign(ByteAt(operand, t))
    ensures value == Mix(operand, base, t)
  {
    value := operand;
    ghost var round := 0;
    while true
      invariant round == 0 ==> value == operand
      invariant round == 1 ==>
                  t != 0 && IsSign(ByteAt(Add32(operand, base), t)) && value == Flip(Add32(operand, base), t)
      invariant 0 <= round <= 1
      decreases 2 - round
    {
      value := Add32(value, base);
      if round == 1 {
        SecondRound(operand, base, t);
      }
      if t == 0 || !IsSign(ByteAt(value, t)) {
        break;
      }
      value := Flip(value, t);
      round := round + 1;
    }
  }

  /** Subtracts the base, and steps on while the guarded byte looks like a sign byte: never more than twice. */
  method UnmixLoop(operand: nat, base: nat, t: nat) returns (value: nat)
    requires t != 0 ==> (t == 1 || t == 256 || t == 0x1_0000) && !IsSign(ByteAt(operand, t))
    ensures value == Unmix(operand, base, t)
  {
    value := operand;
    ghost var round := 0;
    while true
      invariant round == 0 ==> value == operand
      invariant round == 1 ==>
                  t != 0 && IsSign(ByteAt(Sub32(operand, base), t)) && value == Flip(Sub32(operand, base), t)
      invariant 0 <= round <= 1
      decreases 2 - round
    {
      value := Sub32(value, base);
      if round == 1 {
        SecondRound(operand, base, t);
      }
      if t == 0 || !IsSign(ByteAt(value, t)) {
        break;
      }
      value := Flip(value, t);
      round := round + 1;
    }
  }

  /** Wherever the inverse filter rewrites an operand, the guarded byte is clear to start with. */
  ghost predicate Guarded(s: seq<Byte>, w: Window)
    decreases |s|
  {
    if |s| < 5 then true
    else if !IsBranch(s[0]) then Guarded(s[1..], Age(w))
    else if IsSign(s[4]) && Allowed(w) then
      (GuardScale(w) != 0 ==> !IsSign(ByteAt(FromLe32(s[1..5]), GuardScale(w)))) && Guarded(s[5..], 0)
    else Guarded(s[1..], Age(Mark(w, IsSign(s[4]))))
  }

  /** So on every stream, the packer's or not, the decompressor's adjusting loop ends within two rounds. */
  lemma {:induction false} AlwaysGuarded(s: seq<Byte>, w: Window)
    requires WindowOk(s, w)
    ensures Guarded(s, w)
    decreases |s|
  {
    if |s| >= 5 {
      if !IsBranch(s[0]) {
        WindowAges(s, w);
        AlwaysGuarded(s[1..], Age(w));
      } else if IsSign(s[4]) && Allowed(w) {
        GuardClear(s, w);
        AlwaysGuarded(s[5..], 0);
      } else {
        WindowMarks(s, w);
        AlwaysGuarded(s[1..], Age(Mark(w, IsSign(s[4]))));
      }
    }
  }

  method Rewrite(data: array<Byte>, pos: nat, w: Window)
    requires pos + 5 <= data.Length && WindowOk(data[pos..], w) && Allowed(w) && IsSign(data[pos + 4])
    modifies data
    ensures data[..] == old(data[..pos + 1])
                        + Canonical(Mix(FromLe32(old(data[pos + 1..pos + 5])), pos + 5, GuardScale(w)))
                        + old(data[pos + 5..])
  {
    var operand := data[pos + 1..pos + 5];
    GuardClear(data[pos..], w);
    assert data[pos..][1..5] == operand;
    var value := MixLoop(FromLe32(operand), pos + 5, GuardScale(w));
    data[pos + 4] := if value / 0x100_0000 % 2 == 0 then 0 else 255;
    data[pos + 1] := value % 256;
    data[pos + 2] := value / 256 % 256;
    data[pos + 3] := value / 0x1_0000 % 256;
  }

  /** The buffer d with everything before pos filtered, and the rest still to come under the window w. */
  ghost predicate Halfway(d: seq<Byte>, pos: nat, w: Window, whole: seq<Byte>) {
    pos <= |d| && WindowOk(d[pos..], w) && d[..pos] + Encode(pos, d[pos..], w) == whole
  }

  lemma PassPlain(d: seq<Byte>, pos: nat, w: Window, whole: seq<Byte>)
    requires Halfway(d, pos, w, whole) && |d| - pos >= 5 && !IsBranch(d[pos])
    ensures Halfway(d, pos + 1, Age(w), whole)
  {
    var s := d[pos..];
    WindowAges(s, w);
    assert s[1..] == d[pos + 1..];
    assert d[..pos] + ([s[0]] + Encode(pos + 1, s[1..], Age(w))) == d[..pos + 1] + Encode(pos + 1, s[1..], Age(w));
  }

  lemma PassMarked(d: seq<Byte>, pos: nat, w: Window, whole: seq<Byte>)
    requires Halfway(d, pos, w, whole) && |d| - pos >= 5 && IsBranch(d[pos]) && !(IsSign(d[pos + 4]) && Allowed(w))
    ensures Halfway(d, pos + 1, Age(Mark(w, IsSign(d[pos + 4]))), whole)
  {
    var s := d[pos..];
    var m := Age(Mark(w, IsSign(s[4])));
    WindowMarks(s, w);
    assert s[1..] == d[pos + 1..];
    assert d[..pos] + ([s[0]] + Encode(pos + 1, s[1..], m)) == d[..pos + 1] + Encode(pos + 1, s[1..], m);
  }

  lemma PassRewritten(d: seq<Byte>, d': seq<Byte>, pos: nat, w: Window, whole: seq<Byte>)
    requires Halfway(d, pos, w, whole) && |d| - pos >= 5 && IsBranch(d[pos]) && IsSign(d[pos + 4]) && Allowed(w)
    requires d' == d[..pos + 1] + Canonical(Mix(FromLe32(d[pos + 1..pos + 5]), pos + 5, GuardScale(w))) + d[pos + 5..]
    ensures Halfway(d', pos + 5, 0, whole)
  {
    var s := d[pos..];
    assert s[1..5] == d[pos + 1..pos + 5] && s[5..] == d[pos + 5..] == d'[pos + 5..];
    var c, tail := Canonical(Mix(FromLe32(s[1..5]), pos + 5, GuardScale(w))), Encode(pos + 5, s[5..], 0);
    assert d'[..pos + 5] == d[..pos + 1] + c;
    assert d[..pos] + ([s[0]] + c + tail) == d[..pos + 1] + c + tail;
  }

  lemma PassStart(d: seq<Byte>)
    ensures Halfway(d, 0, 0, Encode(0, d, 0))
  {
    assert d[0..] == d && d[..0] == [];
  }

  lemma PassEnd(d: seq<Byte>, pos: nat, w: Window, whole: seq<Byte>)
    requires Halfway(d, pos, w, whole) && |d| - pos < 5
    ensures d == whole
  {
    assert d[..pos] + d[pos..] == d;
  }

  /** One opcode: left alone or rewritten, with the history that follows it. */
  method Opcode(data: array<Byte>, pos: nat, history0: Window, ghost whole: seq<Byte>)
    returns (next: nat, history: Window)
    requires pos + 5 <= data.Length && IsBranch(data[pos]) && Halfway(data[..], pos, history0, whole)
    modifies data
    ensures pos < next <= data.Length && Halfway(data[..], next, WindowAfter(history, next - pos), whole)
  {
    ghost var d := data[..];
    var high := data[pos + 4];
    if IsSign(high) && Allowed(history0) {
      assert d[pos..] == data[pos..] && d[pos + 1..pos + 5] == data[pos + 1..pos + 5];
      assert d[..pos + 1] == data[..pos + 1] && d[pos + 5..] == data[pos + 5..];
      Rewrite(data, pos, history0);
      PassRewritten(d, data[..], pos, history0, whole);
      next, history := pos + 5, 0;
    } else {
      PassMarked(d, pos, history0, whole);
      history := Mark(history0, IsSign(high));
      assert WindowAfter(history, 1) == Age(AgeBy(history, 0));
      next := pos + 1;
    }
  }

  /** One turn of the filter's loop. */
  method Turn(data: array<Byte>, pos0: nat, previous0: int, history0: Window, ghost whole: seq<Byte>)
    returns (pos: nat, previous: int, history: Window)
    requires previous0 < pos0 && pos0 + 5 <= data.Length && Passed(data[..], pos0, previous0, history0, whole)
    modifies data
    ensures previous < pos && pos0 < pos <= data.Length && Passed(data[..], pos, previous, history, whole)
  {
    pos, previous, history := pos0, previous0, history0;
    if !IsBranch(data[pos]) {
      PassPlain(data[..], pos, WindowAfter(history, pos - previous), whole);
      WindowSlides(history, pos - previous);
      pos := pos + 1;
      return;
    }
    var gap := pos - previous;
    previous := pos;
    if gap >= 4 {
      history := 0;
    } else {
      history := AgeLoop(history, gap);
    }
    pos, history := Opcode(data, pos, history, whole);
  }

  ghost predicate Passed(d: seq<Byte>, pos: nat, previous: int, history: Window, whole: seq<Byte>) {
    previous < pos && Halfway(d, pos, WindowAfter(history, pos - previous), whole)
  }

  lemma PassedAll(d: seq<Byte>, pos: nat, previous: int, history: Window, whole: seq<Byte>)
    requires Passed(d, pos, previous, history, whole) && |d| - pos < 5
    ensures d == whole
  {
    PassEnd(d, pos, WindowAfter(history, pos - previous), whole);
  }

  /** The filter as the packer runs it, over the whole buffer in place. */
  method EncodeInPlace(data: array<Byte>)
    modifies data
    ensures data[..] == Encode(0, old(data[..]), 0)
  {
    ghost var whole := Encode(0, data[..], 0);
    var pos: nat := 0;
    var previous := -5;
    var history: Window := 0;
    PassStart(data[..]);
    while data.Length - pos >= 5
      invariant pos <= data.Length && Passed(data[..], pos, previous, history, whole)
      decreases data.Length - pos
    {
      pos, previous, history := Turn(data, pos, previous, history, whole);
    }
    PassedAll(data[..], pos, previous, history, whole);
  }
}
