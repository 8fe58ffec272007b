/**
 * The loadable segments of an ELF image: each is compared only with the one before it, and each is copied to its place
 * in one block of memory and relocated there.
 */
module Segments {
  import opened Numeral
  import opened Words
  import opened Relocations

  const HIGHER_HALF: nat := 0xffff_ffff_8000_0000

  datatype Segment = Segment(load: bool, vaddr: nat, memsz: nat, filesz: nat, offset: nat, flags: nat)

  predicate Used(s: Segment) { s.load && s.memsz > 0 }

  function End(s: Segment): nat { s.vaddr + s.memsz }

  /** The page holds a byte of the segment. */
  predicate Touches(s: Segment, page: nat) {
    s.memsz > 0 && s.vaddr / 0x1000 <= page <= (End(s) - 1) / 0x1000
  }

  ghost predicate SharePage(a: Segment, b: Segment) { exists page :: Touches(a, page) && Touches(b, page) }

  // ---------------------------------------------------------------- what is accepted

  /** A segment by itself: it ends, even rounded up to a page, within 64 bits. */
  predicate Fits(s: Segment) { End(s) <= MAX64 && End(s) + 0xfff <= MAX64 }

  /** Any two segments: in order and disjoint, and on a common page only with the same permissions. */
  ghost predicate Compatible(a: Segment, b: Segment, ranges: bool) {
    End(a) <= b.vaddr && (ranges && SharePage(a, b) ==> a.flags == b.flags)
  }

  ghost predicate Pairwise(segs: seq<Segment>, n: nat, ranges: bool)
    requires n <= |segs|
  {
    && (forall i :: 0 <= i < n && Used(segs[i]) ==> Fits(segs[i]))
    && (forall i, j :: 0 <= i < j < n && Used(segs[i]) && Used(segs[j]) ==> Compatible(segs[i], segs[j], ranges))
  }

  /** Segments below the fixed half only in a relocatable image, and then all of them. */
  ghost predicate Halves(segs: seq<Segment>, n: nat, relocatable: bool)
    requires n <= |segs|
  {
    && (forall i :: 0 <= i < n && Used(segs[i]) && segs[i].vaddr < HIGHER_HALF ==> relocatable)
    && (forall i, j :: 0 <= i < n && 0 <= j < n && Used(segs[i]) && Used(segs[j]) ==>
          (segs[i].vaddr < HIGHER_HALF <==> segs[j].vaddr < HIGHER_HALF))
  }

  ghost predicate Acceptable(segs: seq<Segment>, ranges: bool, relocatable: bool) {
    && (exists i :: 0 <= i < |segs| && Used(segs[i]))
    && Pairwise(segs, |segs|, ranges) && Halves(segs, |segs|, relocatable)
  }

  // ---------------------------------------------------------------- from neighbours to all pairs

  /** The last loadable segment before n, or none. */
  ghost predicate IsLast(segs: seq<Segment>, n: nat, last: int) {
    && -1 <= last < n <= |segs| && (last >= 0 ==> Used(segs[last]))
    && forall i :: last < i < n ==> 0 <= i && !Used(segs[i])
  }

  lemma PageBetween(a: Segment, b: Segment, c: Segment)
    requires Used(a) && Used(b) && Used(c) && End(a) <= b.vaddr && End(b) <= c.vaddr && SharePage(a, c)
    ensures SharePage(a, b) && SharePage(b, c)
  {
    var page :| Touches(a, page) && Touches(c, page);
    assert Touches(b, page);
  }

  /** Two neighbours share a page exactly when the rounded base of one falls below the rounded top of the other. */
  lemma SharesWhenRounded(a: Segment, b: Segment)
    requires Used(a) && Used(b) && End(a) <= b.vaddr
    ensures SharePage(a, b) <==> b.vaddr / 0x1000 * 0x1000 < (End(a) + 0xfff) / 0x1000 * 0x1000
  {
    var page := b.vaddr / 0x1000;
    if page * 0x1000 < (End(a) + 0xfff) / 0x1000 * 0x1000 {
      assert Touches(a, page) && Touches(b, page);
    }
  }

  /** Comparing with the previous segment alone is comparing with all of them. */
  lemma NeighboursSuffice(segs: seq<Segment>, n: nat, last: int, ranges: bool)
    requires n < |segs| && IsLast(segs, n, last) && last >= 0 && Pairwise(segs, n, ranges) && Used(segs[n])
    requires Compatible(segs[last], segs[n], ranges) && Fits(segs[n])
    ensures Pairwise(segs, n + 1, ranges)
  {
    forall i | 0 <= i < n && Used(segs[i]) ensures Compatible(segs[i], segs[n], ranges) {
      if i != last {
        assert Compatible(segs[i], segs[last], ranges);
        if ranges && SharePage(segs[i], segs[n]) {
          PageBetween(segs[i], segs[last], segs[n]);
        }
      }
    }
  }

  /** The variables of the validation loop. */
  datatype Scan = Scan(lower: bool, higher: bool, min: nat, max: nat, prevTop: nat, prevRoundedTop: nat, prevFlags: nat)

  /** The first and the last loadable segment so far, as the loop remembers them. */
  ghost predicate Remembers(segs: seq<Segment>, n: nat, st: Scan, first: int, last: int) {
    && IsLast(segs, n, last) && -1 <= first <= last && (first < 0 <==> last < 0)
    && (forall i :: 0 <= i < first ==> !Used(segs[i])) && (first >= 0 ==> Used(segs[first]))
    && (if last < 0 then st == Scan(false, false, MAX64, 0, 0, 0, 0)
        else
          && st.lower == (segs[last].vaddr < HIGHER_HALF) && st.higher == !st.lower
          && st.min == segs[first].vaddr <= segs[last].vaddr && st.max == st.prevTop == End(segs[last])
          && st.prevFlags == segs[last].flags && st.prevRoundedTop == (End(segs[last]) + 0xfff) / 0x1000 * 0x1000)
  }

  /** What the validation has found out about the first n segments. */
  ghost predicate Checked(segs: seq<Segment>, n: nat, ranges: bool, relocatable: bool, st: Scan, first: int,
                          last: int) {
    n <= |segs| && Pairwise(segs, n, ranges) && Halves(segs, n, relocatable) && Remembers(segs, n, st, first, last)
  }

  /** One more segment keeps all pairs compatible exactly when it fits and agrees with the previous one. */
  lemma PairwiseStep(segs: seq<Segment>, n: nat, last: int, ranges: bool)
    requires n < |segs| && IsLast(segs, n, last) && Pairwise(segs, n, ranges) && Used(segs[n])
    ensures Pairwise(segs, n + 1, ranges) <==> Fits(segs[n]) && (last >= 0 ==> Compatible(segs[last], segs[n], ranges))
  {
    if Fits(segs[n]) && last >= 0 && Compatible(segs[last], segs[n], ranges) {
      NeighboursSuffice(segs, n, last, ranges);
    } else if last < 0 {
      assert forall i :: 0 <= i < n ==> !Used(segs[i]);
    }
  }

  lemma HalvesStep(segs: seq<Segment>, n: nat, last: int, relocatable: bool)
    requires n < |segs| && IsLast(segs, n, last) && Halves(segs, n, relocatable) && Used(segs[n])
    ensures Halves(segs, n + 1, relocatable) <==>
            && (segs[n].vaddr < HIGHER_HALF ==> relocatable)
            && (last >= 0 ==> (segs[last].vaddr < HIGHER_HALF <==> segs[n].vaddr < HIGHER_HALF))
  {
  }

  /** One segment against the state of the loop. */
  method CheckOne(s: Segment, ranges: bool, relocatable: bool, st: Scan) returns (ok: bool, st': Scan)
    ensures ok <==>
            && (s.vaddr < HIGHER_HALF ==> relocatable && !st.higher) && (s.vaddr >= HIGHER_HALF ==> !st.lower)
            && Fits(s) && st.prevTop <= s.vaddr
            && (ranges && s.vaddr / 0x1000 * 0x1000 < st.prevRoundedTop ==> s.flags == st.prevFlags)
    ensures ok ==>
              st'.lower == (st.lower || s.vaddr < HIGHER_HALF) && st'.higher == (st.higher || s.vaddr >= HIGHER_HALF)
    ensures ok ==> st'.min == (if s.vaddr < st.min then s.vaddr else st.min)
    ensures ok ==> st'.max == (if End(s) > st.max then End(s) else st.max) && st'.prevFlags == s.flags
    ensures ok ==> st'.prevTop == End(s) && st'.prevRoundedTop == (End(s) + 0xfff) / 0x1000 * 0x1000
  {
    st', ok := st, false;
    if s.vaddr < HIGHER_HALF {
      if !relocatable || st.higher {
        return;
      }
      st' := st'.(lower := true);
    } else {
      if st.lower {
        return;
      }
      st' := st'.(higher := true);
    }
    var top := s.vaddr + s.memsz;
    if top > MAX64 || s.vaddr < st.prevTop {
      return;
    }
    if ranges && s.vaddr / 0x1000 * 0x1000 < st.prevRoundedTop && s.flags != st.prevFlags {
      return;
    }
    if top + 0xfff > MAX64 {
      return;
    }
    st' := st'.(prevTop := top, prevRoundedTop := (top + 0xfff) / 0x1000 * 0x1000, prevFlags := s.flags);
    if s.vaddr < st.min {
      st' := st'.(min := s.vaddr);
    }
    if top > st.max {
      st' := st'.(max := top);
    }
    ok := true;
  }

  /** The loop's checks on one segment decide whether the segments so far are acceptable. */
  lemma LocalChecks(segs: seq<Segment>, n: nat, ranges: bool, relocatable: bool, st: Scan, first: int, last: int)
    requires n < |segs| && Used(segs[n]) && Checked(segs, n, ranges, relocatable, st, first, last)
    ensures var s := segs[n];
            Pairwise(segs, n + 1, ranges) && Halves(segs, n + 1, relocatable) <==>
            && (s.vaddr < HIGHER_HALF ==> relocatable && !st.higher) && (s.vaddr >= HIGHER_HALF ==> !st.lower)
            && Fits(s) && st.prevTop <= s.vaddr
            && (ranges && s.vaddr / 0x1000 * 0x1000 < st.prevRoundedTop ==> s.flags == st.prevFlags)
  {
    PairwiseStep(segs, n, last, ranges);
    HalvesStep(segs, n, last, relocatable);
    if last >= 0 && End(segs[last]) <= segs[n].vaddr {
      SharesWhenRounded(segs[last], segs[n]);
    }
  }

  /** The image spans exactly the loadable segments, from a page boundary. */
  ghost predicate Spans(segs: seq<Segment>, base: nat, top: nat) {
    && (forall i :: 0 <= i < |segs| && Used(segs[i]) ==> base <= segs[i].vaddr && End(segs[i]) <= top)
    && (exists i :: 0 <= i < |segs| && Used(segs[i]) && segs[i].vaddr / 0x1000 * 0x1000 == base)
    && (exists i :: 0 <= i < |segs| && Used(segs[i]) && End(segs[i]) == top)
  }

  lemma FewerChecked(segs: seq<Segment>, n: nat, ranges: bool, relocatable: bool)
    requires n <= |segs|
    ensures Pairwise(segs, |segs|, ranges) ==> Pairwise(segs, n, ranges)
    ensures Halves(segs, |segs|, relocatable) ==> Halves(segs, n, relocatable)
  {
  }

  /** One turn of the loop; segments that are not loaded are passed over. */
  method CheckNext(segs: seq<Segment>, n: nat, ranges: bool, relocatable: bool, st: Scan, ghost first: int,
                   ghost last: int)
    returns (ok: bool, st': Scan, ghost first': int, ghost last': int)
    requires n < |segs| && Checked(segs, n, ranges, relocatable, st, first, last)
    ensures ok ==> Checked(segs, n + 1, ranges, relocatable, st', first', last')
    ensures !ok ==> !Acceptable(segs, ranges, relocatable)
  {
    if !segs[n].load || segs[n].memsz == 0 {
      PassesOver(segs, n, ranges, relocatable, st, first, last);
      return true, st, first, last;
    }
    LocalChecks(segs, n, ranges, relocatable, st, first, last);
    ok, st' := CheckOne(segs[n], ranges, relocatable, st);
    first', last' := if first < 0 then n else first, n;
    if ok {
      RemembersMore(segs, n, st, st', first, last);
    } else {
      FewerChecked(segs, n + 1, ranges, relocatable);
    }
  }

  lemma PassesOver(segs: seq<Segment>, n: nat, ranges: bool, relocatable: bool, st: Scan, first: int, last: int)
    requires n < |segs| && !Used(segs[n]) && Checked(segs, n, ranges, relocatable, st, first, last)
    ensures Checked(segs, n + 1, ranges, relocatable, st, first, last)
  {
  }

  lemma RemembersMore(segs: seq<Segment>, n: nat, st: Scan, st': Scan, first: int, last: int)
    requires n < |segs| && Used(segs[n]) && Fits(segs[n]) && Remembers(segs, n, st, first, last)
    requires st.prevTop <= segs[n].vaddr
    requires segs[n].vaddr < HIGHER_HALF ==> !st.higher
    requires segs[n].vaddr >= HIGHER_HALF ==> !st.lower
    requires st' == Scan(st.lower || segs[n].vaddr < HIGHER_HALF, st.higher || segs[n].vaddr >= HIGHER_HALF,
                         if segs[n].vaddr < st.min then segs[n].vaddr else st.min,
                         if End(segs[n]) > st.max then End(segs[n]) else st.max,
                         End(segs[n]), (End(segs[n]) + 0xfff) / 0x1000 * 0x1000, segs[n].flags)
    ensures Remembers(segs, n + 1, st', if first < 0 then n else first, n)
  {
  }

  /** The checks made segment by segment accept exactly what is acceptable as a whole. */
  method Validate(segs: seq<Segment>, ranges: bool, relocatable: bool) returns (ok: bool, base: nat, top: nat)
    ensures ok <==> Acceptable(segs, ranges, relocatable)
    ensures ok ==> Spans(segs, base, top) && base < top
  {
    var st := Scan(false, false, MAX64, 0, 0, 0, 0);
    ghost var first, last := -1, -1;
    base, top := 0, 0;
    for i := 0 to |segs|
      invariant Checked(segs, i, ranges, relocatable, st, first, last)
    {
      ok, st, first, last := CheckNext(segs, i, ranges, relocatable, st, first, last);
      if !ok {
        return;
      }
    }
    Conclusion(segs, ranges, relocatable, st, first, last);
    ok := st.min != MAX64;
    base, top := st.min / 0x1000 * 0x1000, st.max;
  }

  /** No loadable segment leaves the minimum where it was; otherwise everything has been checked. */
  lemma Conclusion(segs: seq<Segment>, ranges: bool, relocatable: bool, st: Scan, first: int, last: int)
    requires Checked(segs, |segs|, ranges, relocatable, st, first, last)
    ensures st.min != MAX64 <==> Acceptable(segs, ranges, relocatable)
    ensures st.min != MAX64 ==> Spans(segs, st.min / 0x1000 * 0x1000, st.max) && st.min / 0x1000 * 0x1000 < st.max
  {
    if first >= 0 {
      assert Fits(segs[first]);
      forall i | 0 <= i < |segs| && Used(segs[i]) ensures st.min <= segs[i].vaddr && End(segs[i]) <= st.max {
        assert first < i ==> Compatible(segs[first], segs[i], ranges);
        assert i < last ==> Compatible(segs[i], segs[last], ranges);
      }
      assert segs[first].vaddr / 0x1000 * 0x1000 == st.min / 0x1000 * 0x1000;
    }
  }

  // ---------------------------------------------------------------- copying

  /** The segment can be copied: it has no more bytes in the file than in memory, and the file has them. */
  predicate Copyable(s: Segment, file: seq<Byte>) {
    s.filesz <= s.memsz && s.offset + s.filesz <= |file|
  }

  /** The offset belongs to the segment. */
  predicate InMemory(s: Segment, base: nat, x: nat) {
    Used(s) && s.vaddr <= base + x < End(s)
  }

  /** A segment's bytes before relocation: those of the file, then zeros. */
  function Initial(s: Segment, file: seq<Byte>): (bytes: seq<Byte>)
    requires Copyable(s, file)
    ensures |bytes| == s.memsz
  {
    file[s.offset..s.offset + s.filesz] + seq(s.memsz - s.filesz, _ => 0)
  }

  /** The segment lies in the image, copied and relocated. */
  ghost predicate InPlace(image: seq<Byte>, s: Segment, file: seq<Byte>, relocs: seq<Reloc>, base: nat) {
    && Copyable(s, file) && base <= s.vaddr && End(s) <= base + |image|
    && image[s.vaddr - base..End(s) - base] == Relocated(Initial(s, file), relocs, s.vaddr)
  }

  /** The first n segments are in place, and everything else is still zero. */
  ghost predicate Loaded(image: seq<Byte>, segs: seq<Segment>, n: nat, file: seq<Byte>, relocs: seq<Reloc>, base: nat) {
    && n <= |segs| && (forall i :: 0 <= i < n && Used(segs[i]) ==> InPlace(image, segs[i], file, relocs, base))
    && forall x :: 0 <= x < |image| && (forall i :: 0 <= i < n ==> !InMemory(segs[i], base, x)) ==> image[x] == 0
  }

  /** Only the segment's part of the image differs. */
  predicate OnlyIn(image: seq<Byte>, image': seq<Byte>, s: Segment, base: nat) {
    |image| == |image'| && forall x :: 0 <= x < |image| && !InMemory(s, base, x) ==> image'[x] == image[x]
  }

  /** Placing the next segment leaves those before it alone, as no two overlap. */
  lemma LoadedMore(image: seq<Byte>, image': seq<Byte>, segs: seq<Segment>, n: nat, file: seq<Byte>,
                   relocs: seq<Reloc>, base: nat, ranges: bool)
    requires Loaded(image, segs, n, file, relocs, base) && n < |segs| && Pairwise(segs, |segs|, ranges)
    requires Used(segs[n]) && InPlace(image', segs[n], file, relocs, base) && OnlyIn(image, image', segs[n], base)
    ensures Loaded(image', segs, n + 1, file, relocs, base)
  {
    var m := n + 1;
    forall i | 0 <= i < n && Used(segs[i]) ensures InPlace(image', segs[i], file, relocs, base) {
      assert Compatible(segs[i], segs[n], ranges);
      StaysInPlace(image, image', segs[i], segs[n], file, relocs, base);
    }
    forall x | 0 <= x < |image'| && (forall i :: 0 <= i < m ==> !InMemory(segs[i], base, x)) ensures image'[x] == 0 {
      assert !InMemory(segs[n], base, x);
    }
  }

  lemma StaysInPlace(image: seq<Byte>, image': seq<Byte>, s: Segment, t: Segment, file: seq<Byte>, relocs: seq<Reloc>,
                     base: nat)
    requires InPlace(image, s, file, relocs, base) && OnlyIn(image, image', t, base) && End(s) <= t.vaddr
    ensures InPlace(image', s, file, relocs, base)
  {
    assert image'[s.vaddr - base..End(s) - base] == image[s.vaddr - base..End(s) - base];
  }

  lemma LoadedSkips(image: seq<Byte>, segs: seq<Segment>, n: nat, file: seq<Byte>, relocs: seq<Reloc>, base: nat)
    requires Loaded(image, segs, n, file, relocs, base) && n < |segs| && !Used(segs[n])
    ensures Loaded(image, segs, n + 1, file, relocs, base)
  {
    var m := n + 1;
    forall x | 0 <= x < |image| && (forall i :: 0 <= i < m ==> !InMemory(segs[i], base, x)) ensures image[x] == 0 {
    }
  }

  /** The segment's part of the image is still zero. */
  predicate Untouched(image: seq<Byte>, s: Segment, base: nat) {
    forall x :: 0 <= x < |image| && InMemory(s, base, x) ==> image[x] == 0
  }

  lemma NextUntouched(image: seq<Byte>, segs: seq<Segment>, n: nat, file: seq<Byte>, relocs: seq<Reloc>, base: nat,
                      ranges: bool)
    requires Loaded(image, segs, n, file, relocs, base) && n < |segs| && Used(segs[n])
    requires Pairwise(segs, |segs|, ranges)
    ensures Untouched(image, segs[n], base)
  {
    forall x | 0 <= x < |image| && InMemory(segs[n], base, x) ensures image[x] == 0 {
      forall i | 0 <= i < n ensures !InMemory(segs[i], base, x) {
        assert Used(segs[i]) ==> Compatible(segs[i], segs[n], ranges);
      }
    }
  }

  method CopyOne(s: Segment, file: seq<Byte>, image: array<Byte>, base: nat)
    requires Used(s) && Copyable(s, file) && base <= s.vaddr && End(s) <= base + image.Length
    requires Untouched(image[..], s, base)
    modifies image
    ensures OnlyIn(old(image[..]), image[..], s, base)
    ensures image[s.vaddr - base..End(s) - base] == Initial(s, file)
  {
    var at := s.vaddr - base;
    ghost var before := image[..];
    for k := 0 to s.filesz
      invariant forall x :: 0 <= x < image.Length ==>
                  image[x] == if at <= x < at + k then file[s.offset + x - at] else before[x]
    {
      image[at + k] := file[s.offset + k];
    }
    CopyIs(before, image[..], s, file, base);
  }

  lemma CopyIs(before: seq<Byte>, after: seq<Byte>, s: Segment, file: seq<Byte>, base: nat)
    requires Used(s) && Copyable(s, file) && base <= s.vaddr && End(s) <= base + |before| && |after| == |before|
    requires Untouched(before, s, base)
    requires var at := s.vaddr - base;
             forall x :: 0 <= x < |after| ==>
               after[x] == if at <= x < at + s.filesz then file[s.offset + x - at] else before[x]
    ensures OnlyIn(before, after, s, base) && after[s.vaddr - base..End(s) - base] == Initial(s, file)
  {
    var at, part, whole := s.vaddr - base, after[s.vaddr - base..End(s) - base], Initial(s, file);
    forall k | 0 <= k < s.memsz ensures part[k] == whole[k] {
      assert part[k] == after[at + k];
      if k >= s.filesz {
        assert InMemory(s, base, at + k);
      }
    }
  }

  /** Copies a segment and relocates it where it lies. */
  method Place(s: Segment, file: seq<Byte>, relocs: seq<Reloc>, image: array<Byte>, base: nat)
    requires Used(s) && Copyable(s, file) && base <= s.vaddr && End(s) <= base + image.Length
    requires Untouched(image[..], s, base)
    modifies image
    ensures OnlyIn(old(image[..]), image[..], s, base) && InPlace(image[..], s, file, relocs, base)
  {
    ghost var before := image[..];
    CopyOne(s, file, image, base);
    ghost var copied := image[..];
    Relocate(image, s.vaddr - base, s.memsz, s.vaddr, relocs);
    PlacedIs(before, copied, image[..], s, base);
  }

  lemma PlacedIs(before: seq<Byte>, copied: seq<Byte>, after: seq<Byte>, s: Segment, base: nat)
    requires OnlyIn(before, copied, s, base) && |after| == |before| && base <= s.vaddr && End(s) <= base + |before|
    requires Used(s) && after[..s.vaddr - base] == copied[..s.vaddr - base]
    requires after[End(s) - base..] == copied[End(s) - base..]
    ensures OnlyIn(before, after, s, base)
  {
    forall x | 0 <= x < |after| && !InMemory(s, base, x) ensures after[x] == before[x] {
      if base + x < s.vaddr {
        assert after[x] == after[..s.vaddr - base][x];
      } else {
        assert after[x] == after[End(s) - base..][x - (End(s) - base)];
      }
    }
  }

  /** Every copy lands inside the block of memory allocated for the image, and none undoes another. */
  method CopyAll(segs: seq<Segment>, file: seq<Byte>, relocs: seq<Reloc>, image: array<Byte>, base: nat,
                 ghost ranges: bool)
    returns (ok: bool)
    requires Pairwise(segs, |segs|, ranges) && Spans(segs, base, base + image.Length)
    requires forall x :: 0 <= x < image.Length ==> image[x] == 0
    modifies image
    ensures ok <==> forall i :: 0 <= i < |segs| && Used(segs[i]) ==> Copyable(segs[i], file)
    ensures ok ==> Loaded(image[..], segs, |segs|, file, relocs, base)
  {
    assert Loaded(image[..], segs, 0, file, relocs, base);
    for i := 0 to |segs|
      invariant Loaded(image[..], segs, i, file, relocs, base)
      invariant forall k :: 0 <= k < i && Used(segs[k]) ==> Copyable(segs[k], file)
    {
      var s := segs[i];
      if !s.load || s.memsz == 0 {
        LoadedSkips(image[..], segs, i, file, relocs, base);
        continue;
      }
      if s.filesz > s.memsz || s.offset + s.filesz > |file| {
        return false;
      }
      ghost var before := image[..];
      NextUntouched(before, segs, i, file, relocs, base, ranges);
      Place(s, file, relocs, image, base);
      LoadedMore(before, image[..], segs, i, file, relocs, base, ranges);
    }
    ok := true;
  }

  /**
   * The loader: what is acceptable as a whole and has its bytes in the file is loaded and relocated in place, and
   * nothing else is.
   */
  method Load(segs: seq<Segment>, file: seq<Byte>, relocs: seq<Reloc>, ranges: bool, relocatable: bool)
    returns (ok: bool, base: nat, image: array<Byte>)
    ensures ok <==>
            && Acceptable(segs, ranges, relocatable)
            && forall i :: 0 <= i < |segs| && Used(segs[i]) ==> Copyable(segs[i], file)
    ensures fresh(image)
    ensures (ok ==> Spans(segs, base, base + image.Length) && Loaded(image[..], segs, |segs|, file, relocs, base))
  {
    var top;
    ok, base, top := Validate(segs, ranges, relocatable);
    image := new Byte[if ok then top - base else 0](_ => 0);
    if ok {
      ok := CopyAll(segs, file, relocs, image, base, ranges);
    }
  }
}
