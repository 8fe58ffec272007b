/**
 * Compact relative relocations (RELR): a table of addresses and bitmaps, counted in one pass and unpacked in another
 * into a pool of exactly that many slots.
 */
module Relr {
  import opened Words

  /** The number of ones in a number. */
  function Ones(e: nat): nat {
    if e == 0 then 0 else e % 2 + Ones(e / 2)
  }

  function Bit(e: nat, i: nat): nat {
    if i == 0 then e % 2 else Bit(e / 2, i - 1)
  }

  function Wrap(x: nat): nat { x % 0x1_0000_0000_0000_0000 }

  /** The addresses a bitmap stands for: bit j + 1 is the j-th word after where. */
  function Marked(e: nat, where: nat, j: nat): seq<nat>
    requires j <= 63
  {
    if j == 0 then [] else Marked(e, where, j - 1) + if Bit(e, j) == 1 then [Wrap(where + 8 * (j - 1))] else []
  }

  /** The word position after an entry. */
  function After(e: nat, where: nat): nat { if e % 2 == 0 then Wrap(e + 8) else Wrap(where + 504) }

  function Addresses(e: nat, where: nat): seq<nat> { if e % 2 == 0 then [e] else Marked(e, where, 63) }

  function Position(table: seq<nat>): nat {
    if table == [] then 0 else After(table[|table| - 1], Position(table[..|table| - 1]))
  }

  /** What a table means: for each entry in turn the address it gives or the words its bitmap marks. */
  function Decode(table: seq<nat>): seq<nat> {
    if table == [] then []
    else
      var n := |table| - 1;
      Decode(table[..n]) + Addresses(table[n], Position(table[..n]))
  }

  // ---------------------------------------------------------------- counting

  function EntryCount(e: nat): int { if e % 2 == 0 then 1 else Ones(e) - 1 }

  lemma {:induction false} OnesBits(e: nat, i: nat)
    ensures Ones(e) == Low(e, i) + Ones(High(e, i))
  {
    if i > 0 {
      OnesBits(e, i - 1);
      HighStep(e, i - 1);
    }
  }

  /** The ones among the first i bits. */
  function Low(e: nat, i: nat): nat { if i == 0 then 0 else Low(e, i - 1) + Bit(e, i - 1) }

  function High(e: nat, i: nat): nat { if i == 0 then e else High(e / 2, i - 1) }

  lemma {:induction false} HighStep(e: nat, i: nat)
    ensures High(e, i + 1) == High(e, i) / 2 && Bit(e, i) == High(e, i) % 2
  {
    if i > 0 {
      HighStep(e / 2, i - 1);
    }
  }

  lemma {:induction false} MarkedCount(e: nat, where: nat, j: nat)
    requires j <= 63
    ensures |Marked(e, where, j)| + e % 2 == Low(e, j + 1)
  {
    if j > 0 {
      MarkedCount(e, where, j - 1);
      HighStep(e, j);
    } else {
      assert Low(e, 1) == Low(e, 0) + Bit(e, 0);
    }
  }

  lemma {:induction false} HighVanishes(e: nat, i: nat)
    requires e < Pow2(i)
    ensures High(e, i) == 0
    decreases i
  {
    if i > 0 {
      HighVanishes(e / 2, i - 1);
    }
  }

  lemma Pow2Of64()
    ensures Pow2(64) == 0x1_0000_0000_0000_0000
  {
    assert Pow2(8) == 0x100;
    assert Pow2(16) == 0x1_0000;
    assert Pow2(24) == 0x100_0000;
    assert Pow2(32) == 0x1_0000_0000;
    assert Pow2(40) == 0x100_0000_0000;
    assert Pow2(48) == 0x1_0000_0000_0000;
    assert Pow2(56) == 0x100_0000_0000_0000;
  }

  predicate IsTable(table: seq<nat>) { forall i :: 0 <= i < |table| ==> table[i] < 0x1_0000_0000_0000_0000 }

  /** The ones of a bitmap less its tag are the addresses it marks. */
  lemma EntryCounts(e: nat, where: nat)
    requires e < 0x1_0000_0000_0000_0000
    ensures EntryCount(e) == |Addresses(e, where)|
  {
    if e % 2 != 0 {
      MarkedCount(e, where, 63);
      OnesBits(e, 64);
      Pow2Of64();
      HighVanishes(e, 64);
    }
  }

  lemma {:induction false} DecodePrefix(table: seq<nat>, i: nat)
    requires i <= |table|
    ensures |Decode(table[..i])| <= |Decode(table)|
    decreases |table|
  {
    if i < |table| {
      DecodePrefix(table[..|table| - 1], i);
      assert table[..|table| - 1][..i] == table[..i];
    } else {
      assert table[..i] == table;
    }
  }

  /** The counting pass: as many slots as there are addresses, for every table. */
  method Count(table: seq<nat>) returns (count: int)
    requires IsTable(table)
    ensures count == |Decode(table)|
  {
    count := 0;
    for i := 0 to |table|
      invariant count == |Decode(table[..i])|
    {
      var e := table[i];
      EntryCounts(e, Position(table[..i]));
      assert table[..i + 1][..i] == table[..i];
      if e % 2 == 0 {
        count := count + 1;
      } else {
        count := count + (Ones(e) - 1);
      }
    }
    assert table[..|table|] == table;
  }

  /** Once the bits above are gone nothing more is marked. */
  lemma {:induction false} MarkedRest(e: nat, where: nat, j: nat, k: nat)
    requires j <= k <= 63 && High(e, j + 1) == 0
    ensures Marked(e, where, k) == Marked(e, where, j) && High(e, k + 1) == 0
  {
    if j < k {
      MarkedRest(e, where, j, k - 1);
      HighStep(e, k);
    }
  }

  lemma {:induction false} MarkedGrows(e: nat, where: nat, j: nat, k: nat)
    requires j <= k <= 63
    ensures Marked(e, where, j) <= Marked(e, where, k)
  {
    if j < k {
      MarkedGrows(e, where, j, k - 1);
    }
  }

  /** Unpacks one bitmap at index at of the pool. */
  method FillBitmap(pool: array<nat>, at: nat, e: nat, where: nat) returns (next: nat)
    requires e < 0x1_0000_0000_0000_0000 && at + |Marked(e, where, 63)| <= pool.Length
    modifies pool
    ensures next == at + |Marked(e, where, 63)| && pool[..next] == old(pool[..at]) + Marked(e, where, 63)
  {
    var shifted, j := e / 2, 0;
    next := at;
    Pow2Of64();
    HighVanishes(e, 64);
    assert High(e, 1) == High(e / 2, 0);
    while shifted != 0
      invariant j <= 63 && shifted == High(e, j + 1) && next == at + |Marked(e, where, j)| <= pool.Length
      invariant pool[..next] == old(pool[..at]) + Marked(e, where, j)
      decreases shifted
    {
      HighStep(e, j + 1);
      MarkedGrows(e, where, j + 1, 63);
      if shifted % 2 == 1 {
        pool[next] := Wrap(where + 8 * j);
        next := next + 1;
        assert pool[..next] == pool[..next - 1] + [Wrap(where + 8 * j)];
      }
      shifted := shifted / 2;
      j := j + 1;
    }
    MarkedRest(e, where, j, 63);
  }

  /** Unpacks one entry. */
  method FillEntry(pool: array<nat>, at: nat, e: nat, where: nat) returns (next: nat, where': nat)
    requires e < 0x1_0000_0000_0000_0000 && at + |Addresses(e, where)| <= pool.Length
    modifies pool
    ensures next == at + |Addresses(e, where)| && pool[..next] == old(pool[..at]) + Addresses(e, where)
    ensures where' == After(e, where)
  {
    if e % 2 == 0 {
      pool[at] := e;
      next := at + 1;
      where' := Wrap(e + 8);
    } else {
      next := FillBitmap(pool, at, e, where);
      where' := Wrap(where + 504);
    }
  }

  lemma DecodeStep(table: seq<nat>, i: nat)
    requires i < |table|
    ensures Decode(table[..i + 1]) == Decode(table[..i]) + Addresses(table[i], Position(table[..i]))
    ensures Position(table[..i + 1]) == After(table[i], Position(table[..i]))
  {
    assert table[..i + 1][..i] == table[..i];
  }

  /** The filling pass writes the table's addresses, and never past the pool. */
  method Fill(table: seq<nat>, pool: array<nat>)
    requires IsTable(table) && pool.Length == |Decode(table)|
    modifies pool
    ensures pool[..] == Decode(table)
  {
    var where, next := 0, 0;
    for i := 0 to |table|
      invariant where == Position(table[..i]) && next == |Decode(table[..i])| <= pool.Length
      invariant pool[..next] == Decode(table[..i])
    {
      DecodeStep(table, i);
      DecodePrefix(table, i + 1);
      next, where := FillEntry(pool, next, table[i], where);
    }
    assert table[..|table|] == table;
  }

  /** Both passes: a pool of just the counted size, filled with the table's addresses. */
  method Unpack(table: seq<nat>) returns (pool: array<nat>)
    requires IsTable(table)
    ensures fresh(pool) && pool[..] == Decode(table)
  {
    var count := Count(table);
    pool := new nat[count];
    Fill(table, pool);
  }

  // ---------------------------------------------------------------- tables made from addresses

  /** An address, and which of the words after it are to be relocated too. */
  datatype Group = Group(base: nat, words: seq<bool>)

  /** The addresses of the words marked, the first of them lying at where. */
  function WordsFrom(words: seq<bool>, where: nat): seq<nat> {
    if words == [] then []
    else
      var n := |words| - 1;
      WordsFrom(words[..n], where) + if words[n] then [Wrap(where + 8 * n)] else []
  }

  function AddressesOf(groups: seq<Group>): seq<nat> {
    if groups == [] then []
    else
      var n := |groups| - 1;
      AddressesOf(groups[..n]) + ([groups[n].base] + WordsFrom(groups[n].words, groups[n].base + 8))
  }

  /** The number whose bits, from the lowest up, are those given. */
  function Number(bits: seq<bool>): nat {
    if bits == [] then 0 else (if bits[0] then 1 else 0) + 2 * Number(bits[1..])
  }

  /** Bitmaps of 63 words each, tagged in the lowest bit. */
  function Bitmaps(words: seq<bool>): seq<nat> {
    if words == [] then []
    else if |words| <= 63 then [1 + 2 * Number(words)]
    else [1 + 2 * Number(words[..63])] + Bitmaps(words[63..])
  }

  function Encode(groups: seq<Group>): seq<nat> {
    if groups == [] then []
    else
      var n := |groups| - 1;
      Encode(groups[..n]) + ([groups[n].base] + Bitmaps(groups[n].words))
  }

  lemma {:induction false} BitOf(bits: seq<bool>, i: nat)
    ensures Bit(Number(bits), i) == if i < |bits| && bits[i] then 1 else 0
    decreases |bits|, i
  {
    if bits == [] {
      ZeroBit(i);
    } else {
      assert Number(bits) / 2 == Number(bits[1..]);
      if i > 0 {
        BitOf(bits[1..], i - 1);
      }
    }
  }

  lemma {:induction false} ZeroBit(i: nat)
    ensures Bit(0, i) == 0
  {
    if i > 0 {
      ZeroBit(i - 1);
    }
  }

  lemma {:induction false} BitmapMarks(bits: seq<bool>, where: nat, j: nat)
    requires |bits| <= 63 && j <= 63
    ensures Marked(1 + 2 * Number(bits), where, j) == WordsFrom(bits[..if j < |bits| then j else |bits|], where)
    decreases j
  {
    if j > 0 {
      BitmapMarks(bits, where, j - 1);
      BitOf(bits, j - 1);
      assert (1 + 2 * Number(bits)) / 2 == Number(bits);
      if j <= |bits| {
        assert bits[..j][..j - 1] == bits[..j - 1];
      }
    }
  }

  lemma {:induction false} WordsAppend(a: seq<bool>, b: seq<bool>, where: nat)
    ensures WordsFrom(a + b, where) == WordsFrom(a, where) + WordsFrom(b, where + 8 * |a|)
    decreases |b|
  {
    if b == [] {
      assert a + b == a;
    } else {
      WordsAppend(a, b[..|b| - 1], where);
      assert (a + b)[..|a + b| - 1] == a + b[..|b| - 1];
    }
  }

  lemma {:induction false} WordsWrapped(words: seq<bool>, where: nat)
    ensures WordsFrom(words, Wrap(where)) == WordsFrom(words, where)
  {
    if words != [] {
      WordsWrapped(words[..|words| - 1], where);
      WrapAdds(where, 8 * (|words| - 1));
    }
  }

  lemma WrapAdds(a: nat, b: nat)
    ensures Wrap(Wrap(a) + b) == Wrap(a + b)
  {
    var q := a / 0x1_0000_0000_0000_0000;
    assert a + b == Wrap(a) + b + 0x1_0000_0000_0000_0000 * q;
    WrapTurns(Wrap(a) + b, q);
  }

  lemma WrapTurns(x: nat, q: nat)
    ensures Wrap(x + 0x1_0000_0000_0000_0000 * q) == Wrap(x)
  {
    var k, r := x / 0x1_0000_0000_0000_0000, x % 0x1_0000_0000_0000_0000;
    assert x + 0x1_0000_0000_0000_0000 * q == 0x1_0000_0000_0000_0000 * (k + q) + r;
  }

  lemma DecodeMore(table: seq<nat>, e: nat)
    ensures Decode(table + [e]) == Decode(table) + Addresses(e, Position(table))
    ensures Position(table + [e]) == After(e, Position(table))
  {
    assert (table + [e])[..|table|] == table;
  }

  /** The table with more appended stands for what it did, and these addresses. */
  ghost predicate Adds(table: seq<nat>, more: seq<nat>, addresses: seq<nat>) {
    Decode(table + more) == Decode(table) + addresses
  }

  lemma AddsTwo(table: seq<nat>, a: seq<nat>, b: seq<nat>, x: seq<nat>, y: seq<nat>)
    requires Adds(table, a, x) && Adds(table + a, b, y)
    ensures Adds(table, a + b, x + y)
  {
    Regroup(table, a, b);
    Regroup(Decode(table), x, y);
  }

  /** The bitmaps after an address decode to the words marked. */
  lemma {:induction false} BitmapsDecode(table: seq<nat>, words: seq<bool>, where: nat)
    requires Position(table) == Wrap(where)
    ensures Adds(table, Bitmaps(words), WordsFrom(words, where))
    decreases |words|
  {
    if words == [] {
      assert table + [] == table;
    } else if |words| <= 63 {
      ChunkDecodes(table, words, where);
    } else {
      var e, rest := [1 + 2 * Number(words[..63])], words[63..];
      ChunkDecodes(table, words[..63], where);
      BitmapsDecode(table + e, rest, where + 504);
      AddsTwo(table, e, Bitmaps(rest), WordsFrom(words[..63], where), WordsFrom(rest, where + 504));
      WordsSplit(words, where);
    }
  }

  lemma WordsSplit(words: seq<bool>, where: nat)
    requires |words| > 63
    ensures WordsFrom(words, where) == WordsFrom(words[..63], where) + WordsFrom(words[63..], where + 504)
  {
    WordsAppend(words[..63], words[63..], where);
    assert words[..63] + words[63..] == words;
  }

  lemma ChunkDecodes(before: seq<nat>, chunk: seq<bool>, where: nat)
    requires Position(before) == Wrap(where) && |chunk| <= 63
    ensures Adds(before, [1 + 2 * Number(chunk)], WordsFrom(chunk, where))
    ensures Position(before + [1 + 2 * Number(chunk)]) == Wrap(where + 504)
  {
    ChunkAdds(before, chunk, where, 1 + 2 * Number(chunk));
  }

  lemma ChunkAdds(before: seq<nat>, chunk: seq<bool>, where: nat, e: nat)
    requires Position(before) == Wrap(where) && |chunk| <= 63 && e == 1 + 2 * Number(chunk)
    ensures Adds(before, [e], WordsFrom(chunk, where)) && Position(before + [e]) == Wrap(where + 504)
  {
    ChunkMarks(chunk, e, where);
    BitmapAdds(before, e, Wrap(where), WordsFrom(chunk, where));
    WrapAdds(where, 504);
  }

  /** A bitmap, tagged in its lowest bit, adds the words it marks and moves on by 63 of them. */
  lemma BitmapAdds(before: seq<nat>, e: nat, at: nat, words: seq<nat>)
    requires e % 2 == 1 && Position(before) == at && Marked(e, at, 63) == words
    ensures Adds(before, [e], words) && Position(before + [e]) == Wrap(at + 504)
  {
    DecodeMore(before, e);
  }

  lemma ChunkMarks(chunk: seq<bool>, e: nat, where: nat)
    requires |chunk| <= 63 && e == 1 + 2 * Number(chunk)
    ensures Marked(e, Wrap(where), 63) == WordsFrom(chunk, where)
  {
    BitmapMarks(chunk, Wrap(where), 63);
    assert chunk[..|chunk|] == chunk;
    WordsWrapped(chunk, where);
  }

  lemma Regroup(a: seq<nat>, b: seq<nat>, c: seq<nat>)
    ensures a + b + c == a + (b + c)
  {
  }

  /** A table made from addresses stands for those addresses, in order. */
  lemma {:induction false} DecodeEncode(groups: seq<Group>)
    requires forall g :: g in groups ==> g.base % 2 == 0
    ensures Decode(Encode(groups)) == AddressesOf(groups)
  {
    if groups != [] {
      var n := |groups| - 1;
      var g, before, known := groups[n], Encode(groups[..n]), AddressesOf(groups[..n]);
      DecodeEncode(groups[..n]);
      GroupDecodes(before, g);
      Extends(before, [g.base] + Bitmaps(g.words), known, [g.base] + WordsFrom(g.words, g.base + 8), Encode(groups),
              AddressesOf(groups));
    }
  }

  lemma Extends(table: seq<nat>, more: seq<nat>, known: seq<nat>, addresses: seq<nat>, all: seq<nat>, total: seq<nat>)
    requires Adds(table, more, addresses) && Decode(table) == known
    requires all == table + more && total == known + addresses
    ensures Decode(all) == total
  {
  }

  lemma GroupDecodes(table: seq<nat>, g: Group)
    requires g.base % 2 == 0
    ensures Adds(table, [g.base] + Bitmaps(g.words), [g.base] + WordsFrom(g.words, g.base + 8))
  {
    DecodeMore(table, g.base);
    BitmapsDecode(table + [g.base], g.words, g.base + 8);
    AddsTwo(table, [g.base], Bitmaps(g.words), [g.base], WordsFrom(g.words, g.base + 8));
  }

  /** And it is a table of 64-bit words. */
  lemma {:induction false} EncodeIsTable(groups: seq<Group>)
    requires forall g :: g in groups ==> g.base < 0x1_0000_0000_0000_0000
    ensures IsTable(Encode(groups))
  {
    if groups != [] {
      var n := |groups| - 1;
      EncodeIsTable(groups[..n]);
      BitmapsAreWords(groups[n].words);
    }
  }

  lemma {:induction false} BitmapsAreWords(words: seq<bool>)
    ensures IsTable(Bitmaps(words))
    decreases |words|
  {
    if words != [] {
      var chunk := if |words| <= 63 then words else words[..63];
      NumberBelow(chunk);
      Pow2Of64();
      Pow2Grows(|chunk|, 63);
      assert Pow2(64) == 2 * Pow2(63);
      if |words| > 63 {
        BitmapsAreWords(words[63..]);
      }
    }
  }

  lemma {:induction false} NumberBelow(bits: seq<bool>)
    ensures Number(bits) < Pow2(|bits|)
  {
    if bits != [] {
      NumberBelow(bits[1..]);
    }
  }

  lemma {:induction false} Pow2Grows(a: nat, b: nat)
    requires a <= b
    ensures Pow2(a) <= Pow2(b)
  {
    if a < b {
      Pow2Grows(a, b - 1);
    }
  }
}
