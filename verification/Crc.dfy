/** The checksum of a packed file: CRC-32 by a table of nibbles, and what that table is. */
module Crc {
  import opened Numeral

  function Table(n: bv32): bv32 {
    if n == 0 then 0 else if n == 1 then 0x1db71064 else if n == 2 then 0x3b6e20c8 else if n == 3 then 0x26d930ac
    else if n == 4 then 0x76dc4190 else if n == 5 then 0x6b6b51f4 else if n == 6 then 0x4db26158
    else if n == 7 then 0x5005713c else if n == 8 then 0xedb88320 else if n == 9 then 0xf00f9344
    else if n == 10 then 0xd6d6a3e8 else if n == 11 then 0xcb61b38c else if n == 12 then 0x9b64c2b0
    else if n == 13 then 0x86d3d2d4 else if n == 14 then 0xa00ae278 else 0xbdbdf21c
  }

  function NibbleStep(crc: bv32): bv32 {
    (crc >> 4) ^ Table(crc & 15)
  }

  /** A byte as a word, from its two nibbles. */
  function Wide(b: Byte): bv32 { WordOf((b / 16) as bv4, (b % 16) as bv4) }

  function WordOf(high: bv4, low: bv4): bv32 { ((high as bv32) << 4) | (low as bv32) }

  function ByteStep(crc: bv32, b: Byte): bv32 {
    NibbleStep(NibbleStep(crc ^ Wide(b)))
  }

  function Fold(crc: bv32, data: seq<Byte>): bv32 {
    if data == [] then crc else ByteStep(Fold(crc, data[..|data| - 1]), data[|data| - 1])
  }

  function Checksum(data: seq<Byte>): (c: nat)
    ensures c < 0x1_0000_0000
  {
    (Fold(0xffff_ffff, data) ^ 0xffff_ffff) as nat
  }

  method ComputeChecksum(data: array<Byte>) returns (crc: nat)
    ensures crc == Checksum(data[..])
  {
    var c: bv32 := 0xffff_ffff;
    for i := 0 to data.Length
      invariant c == Fold(0xffff_ffff, data[..i])
    {
      assert data[..i + 1][..i] == data[..i];
      c := ByteStep(c, data[i]);
    }
    assert data[..data.Length] == data[..];
    crc := (c ^ 0xffff_ffff) as nat;
  }

  // ---------------------------------------------------------------- the polynomial

  /** One step of the division by the reflected polynomial. */
  function BitStep(crc: bv32): bv32 {
    if crc & 1 == 1 then (crc >> 1) ^ 0xedb88320 else crc >> 1
  }

  function BitSteps(crc: bv32, n: nat): bv32 {
    if n == 0 then crc else BitStep(BitSteps(crc, n - 1))
  }

  /** A step by the table is four steps by single bits. */
  lemma NibbleIsBits(crc: bv32)
    ensures NibbleStep(crc) == BitSteps(crc, 4)
  {
    NibbleIsFour(crc);
    var one, two, three := BitStep(crc), BitStep(BitStep(crc)), BitStep(BitStep(BitStep(crc)));
    assert BitSteps(crc, 1) == one && BitSteps(crc, 2) == two && BitSteps(crc, 3) == three;
  }

  lemma NibbleIsFour(crc: bv32)
    ensures NibbleStep(crc) == BitStep(BitStep(BitStep(BitStep(crc))))
  {
  }

  lemma {:induction false} BitsAdd(crc: bv32, m: nat, n: nat)
    ensures BitSteps(BitSteps(crc, m), n) == BitSteps(crc, m + n)
  {
    if n > 0 {
      BitsAdd(crc, m, n - 1);
    }
  }

  /** The two look-ups for a byte are eight steps of the division. */
  lemma ByteIsBits(crc: bv32, b: Byte)
    ensures ByteStep(crc, b) == BitSteps(crc ^ Wide(b), 8)
  {
    var c := crc ^ Wide(b);
    NibbleIsBits(c);
    NibbleIsBits(NibbleStep(c));
    BitsAdd(c, 4, 4);
  }

  method DivideByte(start: bv32) returns (crc: bv32)
    ensures crc == BitSteps(start, 8)
  {
    crc := start;
    for bit := 0 to 8
      invariant crc == BitSteps(start, bit)
    {
      crc := if crc & 1 == 1 then (crc >> 1) ^ 0xedb88320 else crc >> 1;
    }
  }

  /** The installer's checksum of GPT structures goes bit by bit, and comes to the same. */
  method UpdateBitwise(crc0: bv32, buffer: seq<Byte>) returns (crc: bv32)
    ensures crc == Fold(crc0, buffer)
  {
    crc := crc0;
    for i := 0 to |buffer|
      invariant crc == Fold(crc0, buffer[..i])
    {
      assert buffer[..i + 1][..i] == buffer[..i];
      ByteIsBits(crc, buffer[i]);
      crc := DivideByte(crc ^ Wide(buffer[i]));
    }
    assert buffer[..|buffer|] == buffer;
  }

  /** What was checksummed in parts is checksummed as a whole. */
  lemma {:induction false} FoldAppend(crc: bv32, a: seq<Byte>, b: seq<Byte>)
    ensures Fold(crc, a + b) == Fold(Fold(crc, a), b)
    decreases |b|
  {
    if b == [] {
      assert a + b == a;
    } else {
      FoldAppend(crc, a, b[..|b| - 1]);
      assert (a + b)[..|a + b| - 1] == a + b[..|b| - 1];
    }
  }

  /** It starts from all ones and is complemented in the end, as CRC-32 is. */
  lemma FirstValues(zero: seq<Byte>)
    requires zero == [0]
    ensures Checksum([]) == 0 && Checksum(zero) == 0xd202_ef8d
  {
    assert Wide(0) == 0;
    assert NibbleStep(NibbleStep(0xffff_ffff)) == 0x2dfd_1072;
    OneByte(0xffff_ffff, zero, 0, 0x2dfd_1072);
  }

  lemma OneByte(crc: bv32, text: seq<Byte>, word: bv32, next: bv32)
    requires |text| == 1 && Wide(text[0]) == word && NibbleStep(NibbleStep(crc ^ word)) == next
    ensures Fold(crc, text) == next
  {
    assert text[..0] == [];
  }

  // ---------------------------------------------------------------- what it detects

  lemma BitInjective(a: bv32, b: bv32)
    requires BitStep(a) == BitStep(b)
    ensures a == b
  {
  }

  lemma {:induction false} BitsInjective(a: bv32, b: bv32, n: nat)
    requires BitSteps(a, n) == BitSteps(b, n)
    ensures a == b
  {
    if n > 0 {
      BitInjective(BitSteps(a, n - 1), BitSteps(b, n - 1));
      BitsInjective(a, b, n - 1);
    }
  }

  lemma NibbleKept(x: nat)
    requires x < 16
    ensures (x as bv4) as nat == x
  {
  }

  lemma WideDiffers(x: Byte, y: Byte)
    ensures x == y <==> Wide(x) == Wide(y)
  {
    NibbleKept(x / 16);
    NibbleKept(x % 16);
    NibbleKept(y / 16);
    NibbleKept(y % 16);
    WordsOfDiffer((x / 16) as bv4, (x % 16) as bv4, (y / 16) as bv4, (y % 16) as bv4);
  }

  lemma WordsOfDiffer(a: bv4, b: bv4, c: bv4, d: bv4)
    ensures a == c && b == d <==> WordOf(a, b) == WordOf(c, d)
  {
  }

  /** A byte's step on two registers, or on two bytes, has two results. */
  lemma ByteDiffers(a: bv32, x: Byte, b: bv32, y: Byte)
    requires (a == b) != (x == y)
    ensures ByteStep(a, x) != ByteStep(b, y)
  {
    WideDiffers(x, y);
    WordsApart(a, Wide(x), b, Wide(y));
  }

  lemma WordsApart(a: bv32, x: bv32, b: bv32, y: bv32)
    requires (a == b) != (x == y)
    ensures NibbleStep(NibbleStep(a ^ x)) != NibbleStep(NibbleStep(b ^ y))
  {
    if NibbleStep(NibbleStep(a ^ x)) == NibbleStep(NibbleStep(b ^ y)) {
      NibbleInjective(NibbleStep(a ^ x), NibbleStep(b ^ y));
      NibbleInjective(a ^ x, b ^ y);
      XorCancels(a, x, b, y);
    }
  }

  lemma NibbleInjective(a: bv32, b: bv32)
    requires NibbleStep(a) == NibbleStep(b)
    ensures a == b
  {
    NibbleIsBits(a);
    NibbleIsBits(b);
    BitsInjective(a, b, 4);
  }

  lemma XorCancels(a: bv32, x: bv32, b: bv32, y: bv32)
    requires a ^ x == b ^ y && (a == b || x == y)
    ensures a == b && x == y
  {
    assert (a ^ x) ^ a == x && (b ^ y) ^ b == y && (a ^ x) ^ x == a && (b ^ y) ^ y == b;
  }

  /** A buffer of which one byte was changed has another checksum. */
  lemma OneByteDetected(data: seq<Byte>, i: nat, b: Byte)
    requires i < |data| && b != data[i]
    ensures Checksum(data[i := b]) != Checksum(data)
  {
    FoldDiffers(0xffff_ffff, data, i, b);
    ComplementsDiffer(Fold(0xffff_ffff, data[i := b]), Fold(0xffff_ffff, data));
  }

  lemma ComplementsDiffer(a: bv32, b: bv32)
    requires a != b
    ensures (a ^ 0xffff_ffff) as nat != (b ^ 0xffff_ffff) as nat
  {
    WordsDiffer(a ^ 0xffff_ffff, b ^ 0xffff_ffff);
  }

  lemma WordsDiffer(x: bv32, y: bv32)
    requires x != y
    ensures x as nat != y as nat
  {
    assert (x as nat) as bv32 == x;
  }

  lemma {:induction false} FoldDiffers(crc: bv32, data: seq<Byte>, i: nat, b: Byte)
    requires i < |data| && b != data[i]
    ensures Fold(crc, data[i := b]) != Fold(crc, data)
    decreases |data|
  {
    var n := |data| - 1;
    var other := data[i := b];
    if i < n {
      assert other[..n] == data[..n][i := b];
      FoldDiffers(crc, data[..n], i, b);
      ByteDiffers(Fold(crc, other[..n]), data[n], Fold(crc, data[..n]), data[n]);
    } else {
      assert other[..n] == data[..n];
      ByteDiffers(Fold(crc, data[..n]), b, Fold(crc, data[..n]), data[n]);
    }
  }
}
