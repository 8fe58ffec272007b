/** Relocations applied to a segment in memory: which of them fall into it, and what they leave there. */
module Relocations {
  import opened Numeral
  import opened Words

  /** A resolved relocation: a word to add to what is there, as in RELR, or to put in its place. */
  datatype Reloc = Reloc(addr: nat, add: bool, value: nat)

  // ---------------------------------------------------------------- words in memory

  /** A value's bytes, least significant first. */
  function Le(v: nat, n: nat): (s: seq<Byte>)
    ensures |s| == n
  {
    if n == 0 then [] else [v % 256] + Le(v / 256, n - 1)
  }

  function FromLe(s: seq<Byte>): nat {
    if s == [] then 0 else s[0] + 256 * FromLe(s[1..])
  }

  lemma {:induction false} LeReads(v: nat, n: nat)
    requires v < Pow256(n)
    ensures FromLe(Le(v, n)) == v
  {
    if n > 0 {
      LeReads(v / 256, n - 1);
      assert Le(v, n)[1..] == Le(v / 256, n - 1);
    }
  }

  lemma LeReads64(v: nat)
    requires v <= MAX64
    ensures FromLe(Le(v, 8)) == v
  {
    EightBytes();
    LeReads(v, 8);
  }

  lemma EightBytes()
    ensures Pow256(8) == MAX64 + 1
  {
    assert Pow256(4) == 0x1_0000_0000;
    assert Pow256(6) == 0x1_0000 * Pow256(4);
  }

  // ---------------------------------------------------------------- what relocations do

  /** The relocation lies wholly in the segment. */
  predicate Hits(r: Reloc, vaddr: nat, size: nat) {
    vaddr <= r.addr && size >= 8 && r.addr <= vaddr + size - 8
  }

  /** The word it leaves. */
  function Target(r: Reloc, was: nat): (v: nat)
    ensures v <= MAX64
  {
    (if r.add then was + r.value else r.value) % 0x1_0000_0000_0000_0000
  }

  function WordAt(bytes: seq<Byte>, at: nat): nat
    requires at + 8 <= |bytes|
  {
    FromLe(bytes[at..at + 8])
  }

  function Over(bytes: seq<Byte>, at: nat, data: seq<Byte>): (r: seq<Byte>)
    requires at + |data| <= |bytes|
    ensures |r| == |bytes|
  {
    bytes[..at] + data + bytes[at + |data|..]
  }

  function Applied(bytes: seq<Byte>, r: Reloc, vaddr: nat): (s: seq<Byte>)
    ensures |s| == |bytes|
  {
    if !Hits(r, vaddr, |bytes|) then bytes
    else Over(bytes, r.addr - vaddr, Le(Target(r, WordAt(bytes, r.addr - vaddr)), 8))
  }

  /** All of them in turn, on the bytes of a segment at an address. */
  function Relocated(bytes: seq<Byte>, relocs: seq<Reloc>, vaddr: nat): (s: seq<Byte>)
    ensures |s| == |bytes|
  {
    if relocs == [] then bytes
    else Applied(Relocated(bytes, relocs[..|relocs| - 1], vaddr), relocs[|relocs| - 1], vaddr)
  }

  /** Relocations of words that do not overlap. */
  predicate Apart(a: Reloc, b: Reloc) { a.addr + 8 <= b.addr || b.addr + 8 <= a.addr }

  lemma OverReads(bytes: seq<Byte>, at: nat, data: seq<Byte>)
    requires at + |data| <= |bytes|
    ensures Over(bytes, at, data)[at..at + |data|] == data
  {
  }

  lemma OverElsewhere(bytes: seq<Byte>, at: nat, data: seq<Byte>, k: nat)
    requires at + |data| <= |bytes| && k + 8 <= |bytes| && (k + 8 <= at || at + |data| <= k)
    ensures WordAt(Over(bytes, at, data), k) == WordAt(bytes, k)
  {
    assert Over(bytes, at, data)[k..k + 8] == bytes[k..k + 8];
  }

  /** A relocation leaves the other words alone. */
  lemma AppliedElsewhere(bytes: seq<Byte>, r: Reloc, vaddr: nat, k: nat)
    requires k + 8 <= |bytes| && (vaddr + k + 8 <= r.addr || r.addr + 8 <= vaddr + k)
    ensures WordAt(Applied(bytes, r, vaddr), k) == WordAt(bytes, k)
  {
    if Hits(r, vaddr, |bytes|) {
      OverElsewhere(bytes, r.addr - vaddr, Le(Target(r, WordAt(bytes, r.addr - vaddr)), 8), k);
    }
  }

  lemma {:induction false} Elsewhere(bytes: seq<Byte>, relocs: seq<Reloc>, vaddr: nat, k: nat)
    requires k + 8 <= |bytes|
    requires forall r :: r in relocs ==> vaddr + k + 8 <= r.addr || r.addr + 8 <= vaddr + k
    ensures WordAt(Relocated(bytes, relocs, vaddr), k) == WordAt(bytes, k)
  {
    if relocs != [] {
      var n := |relocs| - 1;
      Elsewhere(bytes, relocs[..n], vaddr, k);
      AppliedElsewhere(Relocated(bytes, relocs[..n], vaddr), relocs[n], vaddr, k);
    }
  }

  /** Where no two words overlap, each relocation of the segment leaves its target, made from the word as loaded. */
  lemma {:induction false} TargetsLeft(bytes: seq<Byte>, relocs: seq<Reloc>, vaddr: nat, i: nat)
    requires i < |relocs| && Hits(relocs[i], vaddr, |bytes|)
    requires forall j :: 0 <= j < |relocs| && j != i ==> Apart(relocs[i], relocs[j])
    ensures var at := relocs[i].addr - vaddr;
            WordAt(Relocated(bytes, relocs, vaddr), at) == Target(relocs[i], WordAt(bytes, at))
    decreases |relocs|
  {
    var n, at := |relocs| - 1, relocs[i].addr - vaddr;
    var before := Relocated(bytes, relocs[..n], vaddr);
    if i < n {
      TargetsLeft(bytes, relocs[..n], vaddr, i);
      AppliedElsewhere(before, relocs[n], vaddr, at);
    } else {
      Elsewhere(bytes, relocs[..n], vaddr, at);
      AppliedHere(before, relocs[n], vaddr, at);
    }
  }

  lemma AppliedHere(bytes: seq<Byte>, r: Reloc, vaddr: nat, at: nat)
    requires Hits(r, vaddr, |bytes|) && at == r.addr - vaddr
    ensures WordAt(Applied(bytes, r, vaddr), at) == Target(r, WordAt(bytes, at))
  {
    OverReads(bytes, at, Le(Target(r, WordAt(bytes, at)), 8));
    LeReads64(Target(r, WordAt(bytes, at)));
  }

  // ---------------------------------------------------------------- the code

  /** Stores a word byte by byte, as its address need not be aligned. */
  method Store(image: array<Byte>, at: nat, v: nat)
    requires at + 8 <= image.Length
    modifies image
    ensures image[..] == Over(old(image[..]), at, Le(v, 8))
  {
    ghost var before, data := image[..], Le(v, 8);
    var rest := v;
    for i := 0 to 8
      invariant data[i..] == Le(rest, 8 - i)
      invariant forall k :: 0 <= k < i ==> image[at + k] == data[k]
      invariant forall x :: 0 <= x < image.Length && !(at <= x < at + i) ==> image[x] == before[x]
    {
      assert data[i] == data[i..][0] && data[i + 1..] == data[i..][1..];
      image[at + i] := rest % 256;
      rest := rest / 256;
    }
    OverIs(before, image[..], at, data);
  }

  lemma OverIs(before: seq<Byte>, after: seq<Byte>, at: nat, data: seq<Byte>)
    requires at + |data| <= |before| == |after| && forall k :: 0 <= k < |data| ==> after[at + k] == data[k]
    requires forall x :: 0 <= x < |before| && !(at <= x < at + |data|) ==> after[x] == before[x]
    ensures after == Over(before, at, data)
  {
    var over := Over(before, at, data);
    forall x | 0 <= x < |after| ensures after[x] == over[x] {
      if at <= x < at + |data| {
        assert after[at + (x - at)] == data[x - at];
      }
    }
  }

  /** The relocations of the segment that lies at lo in the image. */
  method Relocate(image: array<Byte>, lo: nat, size: nat, vaddr: nat, relocs: seq<Reloc>)
    requires lo + size <= image.Length
    modifies image
    ensures image[..lo] == old(image[..lo]) && image[lo + size..] == old(image[lo + size..])
    ensures image[lo..lo + size] == Relocated(old(image[lo..lo + size]), relocs, vaddr)
  {
    for i := 0 to |relocs|
      invariant image[..lo] == old(image[..lo]) && image[lo + size..] == old(image[lo + size..])
      invariant image[lo..lo + size] == Relocated(old(image[lo..lo + size]), relocs[..i], vaddr)
    {
      assert relocs[..i + 1][..i] == relocs[..i];
      RelocateOne(image, lo, size, vaddr, relocs[i]);
    }
    assert relocs[..|relocs|] == relocs;
  }

  method RelocateOne(image: array<Byte>, lo: nat, size: nat, vaddr: nat, r: Reloc)
    requires lo + size <= image.Length
    modifies image
    ensures image[..lo] == old(image[..lo]) && image[lo + size..] == old(image[lo + size..])
    ensures image[lo..lo + size] == Applied(old(image[lo..lo + size]), r, vaddr)
  {
    if r.addr < vaddr {
      return;
    }
    if size < 8 || r.addr > vaddr + size - 8 {
      return;
    }
    var at := r.addr - vaddr;
    ghost var before := image[..];
    var was := FromLe(image[lo + at..lo + at + 8]);
    PartOfPart(before, lo, size, at);
    Store(image, lo + at, Target(r, was));
    StoredInside(before, image[..], lo, size, at, Le(Target(r, was), 8));
  }

  lemma PartOfPart(image: seq<Byte>, lo: nat, size: nat, at: nat)
    requires lo + size <= |image| && at + 8 <= size
    ensures image[lo..lo + size][at..at + 8] == image[lo + at..lo + at + 8]
  {
    var a, b := image[lo..lo + size][at..at + 8], image[lo + at..lo + at + 8];
    forall k | 0 <= k < 8 ensures a[k] == b[k] {
      assert a[k] == image[lo..lo + size][at + k];
    }
    assert a == b;
  }

  lemma StoredInside(before: seq<Byte>, after: seq<Byte>, lo: nat, size: nat, at: nat, data: seq<Byte>)
    requires at + |data| <= size && lo + size <= |before| && after == Over(before, lo + at, data)
    ensures after[..lo] == before[..lo] && after[lo + size..] == before[lo + size..]
    ensures after[lo..lo + size] == Over(before[lo..lo + size], at, data)
  {
  }
}
