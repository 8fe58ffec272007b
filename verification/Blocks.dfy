/**
 * Division of a byte range into blocks, as the device caches do it.
 */
module Blocks {
  import opened Numeral
  import opened Words

  /** b * block, one block at a time. */
  function Start(b: nat, block: nat): nat {
    if b == 0 then 0 else Start(b - 1, block) + block
  }

  /** x / block, one block at a time. */
  function BlockOf(x: nat, block: nat): nat
    requires 0 < block
  {
    if x < block then 0 else BlockOf(x - block, block) + 1
  }

  lemma {:induction false} BlockIs(x: nat, block: nat)
    requires 0 < block
    ensures BlockOf(x, block) == x / block && Start(BlockOf(x, block), block) + x % block == x
    decreases x
  {
    if x >= block {
      BlockIs(x - block, block);
      QuotientIs(x, (x - block) / block + 1, (x - block) % block, block);
    } else {
      QuotientIs(x, 0, x, block);
    }
  }

  lemma QuotientIs(x: nat, q: nat, r: nat, block: nat)
    requires r < block && x == q * block + r
    ensures x / block == q && x % block == r
  {
    var p := x / block;
    MulOrder(p, q, block);
    MulOrder(q, p, block);
  }

  lemma {:induction false} MulOrder(a: nat, b: nat, k: nat)
    ensures a < b ==> a * k + k <= b * k
    decreases b
  {
    if a < b {
      if a + 1 < b {
        MulOrder(a, b - 1, k);
      }
      assert b * k == (b - 1) * k + k;
    }
  }

  lemma {:induction false} StartGrows(b: nat, block: nat)
    requires 2 <= block
    ensures Start(b, block) >= 2 * b
  {
    if b > 0 {
      StartGrows(b - 1, block);
    }
  }

  method Locate(x: nat, block: nat) returns (b: nat, offset: nat)
    requires 2 <= block
    ensures b == BlockOf(x, block) && offset < block && Start(b, block) + offset == x
    ensures x <= MAX64 ==> b < MAX64
  {
    b, offset := x / block, x % block;
    BlockIs(x, block);
    StartGrows(b, block);
  }

  lemma {:induction false} BlockBegins(x: nat, block: nat)
    requires 0 < block
    ensures Start(BlockOf(x, block), block) <= x
    decreases x
  {
    if x >= block {
      BlockBegins(x - block, block);
    }
  }

  lemma {:induction false} BlockOrder(x: nat, y: nat, block: nat)
    requires 0 < block && x <= y
    ensures Start(BlockOf(x, block), block) <= Start(BlockOf(y, block), block)
    decreases x
  {
    if x >= block {
      BlockOrder(x - block, y - block, block);
    }
  }

  lemma {:induction false} SameBlock(x: nat, y: nat, block: nat)
    requires 0 < block && x <= y < Start(BlockOf(x, block), block) + block
    ensures BlockOf(y, block) == BlockOf(x, block)
    decreases x
  {
    if x >= block {
      SameBlock(x - block, y - block, block);
    }
  }

  lemma {:induction false} StartIs(b: nat, block: nat)
    ensures Start(b, block) == b * block
  {
    if b > 0 {
      StartIs(b - 1, block);
      assert b * block == (b - 1) * block + block;
    }
  }

  lemma {:induction false} StartAdds(a: nat, b: nat, block: nat)
    ensures Start(a + b, block) == Start(a, block) + Start(b, block)
  {
    if b > 0 {
      StartAdds(a, b - 1, block);
    }
  }

  /** Blocks made of sectors start where their first sector does. */
  lemma {:induction false} StartNests(b: nat, sectors: nat, sector: nat)
    ensures Start(Start(b, sectors), sector) == Start(b, Start(sectors, sector))
  {
    if b > 0 {
      StartNests(b - 1, sectors, sector);
      StartAdds(Start(b - 1, sectors), sectors, sector);
    }
  }

  lemma StartMonotone(a: nat, b: nat, block: nat)
    requires a <= b
    ensures Start(a, block) <= Start(b, block)
  {
    StartAdds(a, b - a, block);
  }

  /** The bytes are the ones of the view. */
  predicate Sees(view: seq<Byte>, loc: nat, count: nat, buffer: seq<Byte>) {
    |buffer| == count && (count > 0 ==> loc + count <= |view| && buffer == view[loc..loc + count])
  }

  lemma SeesMore(view: seq<Byte>, loc: nat, p: nat, a: seq<Byte>, q: nat, b: seq<Byte>)
    requires Sees(view, loc, p, a) && Sees(view, loc + p, q, b)
    ensures Sees(view, loc, p + q, a + b)
  {
  }
}
