/**
 * The rebuild of the EFI memory map after boot services are left: every descriptor is cut along the edges of the
 * memory the loader owns, and the owned pieces are given back as conventional memory.
 */
module MemoryMap {
  import opened Words
  import opened Blocks

  const CONVENTIONAL: nat := 7

  datatype Desc = Desc(kind: nat, base: nat, virtual: nat, pages: nat, attribute: nat)

  datatype Region = Region(base: nat, length: nat, usable: bool)

  function Top(d: Desc): nat { d.base + 0x1000 * d.pages }

  predicate Covers(d: Desc, x: nat) { d.base <= x < Top(d) }

  /** A region that counts: usable, and ending within 64 bits. */
  predicate Counts(r: Region) { r.usable && r.base + r.length <= 0xffff_ffff_ffff_ffff }

  predicate Holds(r: Region, x: nat) { Counts(r) && r.base <= x < r.base + r.length }

  ghost predicate Owned(regions: seq<Region>, x: nat) { exists j :: 0 <= j < |regions| && Holds(regions[j], x) }

  predicate AlignedRegion(r: Region) { r.base % 0x1000 == 0 && r.length % 0x1000 == 0 }

  predicate Aligned(regions: seq<Region>) { forall j :: 0 <= j < |regions| ==> AlignedRegion(regions[j]) }

  /** Where a cut may fall. */
  function Edges(regions: seq<Region>): (s: set<nat>)
    ensures |s| <= 2 * |regions|
  {
    if regions == [] then {}
    else
      var r := regions[|regions| - 1];
      Edges(regions[..|regions| - 1]) + {r.base, r.base + r.length}
  }

  lemma {:induction false} EdgesHold(regions: seq<Region>, j: nat)
    requires j < |regions|
    ensures regions[j].base in Edges(regions) && regions[j].base + regions[j].length in Edges(regions)
  {
    if j < |regions| - 1 {
      EdgesHold(regions[..|regions| - 1], j);
    }
  }

  // ---------------------------------------------------------------- one run

  /** From cur to runTop everything or nothing is owned, as far as the regions seen say. */
  ghost predicate Uniform(regions: seq<Region>, n: nat, cur: nat, runTop: nat, owned: bool) {
    if owned then forall x :: cur <= x < runTop ==> Owned(regions, x)
    else forall j, x :: 0 <= j < n <= |regions| && cur <= x < runTop ==> !Holds(regions[j], x)
  }

  /** The longest run from cur that crosses no edge. */
  method FindRun(regions: seq<Region>, cur: nat, top: nat) returns (runTop: nat, owned: bool)
    requires Aligned(regions) && cur < top && cur % 0x1000 == 0 && top % 0x1000 == 0
    ensures cur < runTop <= top && runTop % 0x1000 == 0
    ensures forall x :: cur <= x < runTop ==> (Owned(regions, x) <==> owned)
    ensures runTop < top ==> runTop in Edges(regions)
  {
    runTop, owned := top, false;
    var j := 0;
    while j < |regions|
      invariant j <= |regions| && !owned && cur < runTop <= top && runTop % 0x1000 == 0
      invariant Uniform(regions, j, cur, runTop, false)
      invariant runTop < top ==> runTop in Edges(regions)
    {
      var r := regions[j];
      EdgesHold(regions, j);
      assert AlignedRegion(r);
      if Counts(r) {
        var regTop := r.base + r.length;
        if cur >= r.base && cur < regTop {
          owned := true;
          if regTop < runTop {
            runTop := regTop;
          }
          assert forall x :: cur <= x < runTop ==> Holds(regions[j], x);
          return;
        }
        if r.base > cur && r.base < runTop {
          runTop := r.base;
        }
      }
      j := j + 1;
    }
  }

  // ---------------------------------------------------------------- the map

  /** Some descriptor gives the address this kind and these attributes. */
  ghost predicate Describes(descs: seq<Desc>, x: nat, kind: nat, attribute: nat) {
    exists k :: 0 <= k < |descs| && Says(descs[k], x, kind, attribute)
  }

  predicate Says(d: Desc, x: nat, kind: nat, attribute: nat) {
    Covers(d, x) && d.kind == kind && d.attribute == attribute
  }

  /** The same with the loader's memory given back. */
  ghost predicate Returns(d: Desc, regions: seq<Region>, x: nat, kind: nat, attribute: nat) {
    Covers(d, x) && d.attribute == attribute && kind == if Owned(regions, x) then CONVENTIONAL else d.kind
  }

  function Cut(d: Desc, cur: nat, runTop: nat, owned: bool): Desc
    requires cur <= runTop
  {
    Desc(if owned then CONVENTIONAL else d.kind, cur, if cur != d.base then 0 else d.virtual, (runTop - cur) / 0x1000,
         d.attribute)
  }

  /** The pieces of a descriptor: end to end, each uniform, the first keeping the virtual address. */
  ghost predicate Pieces(out: seq<Desc>, d: Desc, regions: seq<Region>, cur: nat) {
    && (forall k :: 0 <= k < |out| ==> out[k].pages > 0 && out[k].attribute == d.attribute)
    && (forall k :: 0 <= k < |out| - 1 ==> Top(out[k]) == out[k + 1].base)
    && (if out == [] then cur == d.base else out[0].base == d.base && Top(out[|out| - 1]) == cur)
    && (forall k, x :: 0 <= k < |out| && Covers(out[k], x) ==>
          out[k].kind == if Owned(regions, x) then CONVENTIONAL else d.kind)
    && (forall k :: 0 <= k < |out| ==> out[k].virtual == if k == 0 then d.virtual else 0)
  }

  function Total(descs: seq<Desc>): nat {
    if descs == [] then 0 else Total(descs[..|descs| - 1]) + descs[|descs| - 1].pages
  }

  lemma {:induction false} TotalAppend(a: seq<Desc>, b: seq<Desc>)
    ensures Total(a + b) == Total(a) + Total(b)
  {
    if b == [] {
      assert a + b == a;
    } else {
      TotalAppend(a, b[..|b| - 1]);
      assert (a + b)[..|a + b| - 1] == a + b[..|b| - 1];
    }
  }

  /** Pieces laid end to end add up. */
  lemma {:induction false} PiecesTotal(out: seq<Desc>, d: Desc, regions: seq<Region>, cur: nat)
    requires Pieces(out, d, regions, cur)
    ensures cur == d.base + 0x1000 * Total(out)
  {
    if out != [] {
      var n := |out| - 1;
      PiecesTotal(out[..n], d, regions, if n == 0 then d.base else Top(out[n - 1]));
    }
  }

  lemma PiecesGrow(out: seq<Desc>, d: Desc, regions: seq<Region>, cur: nat, runTop: nat, owned: bool)
    requires Pieces(out, d, regions, cur) && cur < runTop && cur % 0x1000 == 0 && runTop % 0x1000 == 0
    requires forall x :: cur <= x < runTop ==> (Owned(regions, x) <==> owned)
    ensures Pieces(out + [Cut(d, cur, runTop, owned)], d, regions, runTop)
  {
    if out != [] {
      PiecesStart(out, d, regions, cur, |out| - 1);
    }
  }

  lemma {:induction false} PiecesStart(out: seq<Desc>, d: Desc, regions: seq<Region>, cur: nat, k: nat)
    requires Pieces(out, d, regions, cur) && k < |out|
    ensures d.base <= out[k].base < Top(out[k])
  {
    if k > 0 {
      PiecesStart(out, d, regions, cur, k - 1);
    }
  }

  /** An address the descriptor covers lies in one of its pieces. */
  lemma {:induction false} PiecesCover(out: seq<Desc>, d: Desc, regions: seq<Region>, cur: nat, x: nat)
    requires Pieces(out, d, regions, cur) && d.base <= x < cur
    ensures exists k :: 0 <= k < |out| && Covers(out[k], x)
    decreases |out|
  {
    var n := |out| - 1;
    if x < out[n].base {
      var rest := out[..n];
      PiecesCover(rest, d, regions, if n == 0 then d.base else Top(out[n - 1]), x);
      var k :| 0 <= k < |rest| && Covers(rest[k], x);
      assert Covers(out[k], x);
    } else {
      assert Covers(out[n], x);
    }
  }

  lemma {:induction false} PiecesEnd(out: seq<Desc>, d: Desc, regions: seq<Region>, cur: nat, k: nat)
    requires Pieces(out, d, regions, cur) && k < |out|
    ensures Top(out[k]) <= cur
    decreases |out| - k
  {
    if k + 1 < |out| {
      PiecesEnd(out, d, regions, cur, k + 1);
    }
  }

  /** Together the pieces describe what the descriptor did, with the owned part given back. */
  lemma PiecesDescribe(out: seq<Desc>, d: Desc, regions: seq<Region>, x: nat, kind: nat, attribute: nat)
    requires Pieces(out, d, regions, Top(d))
    ensures Describes(out, x, kind, attribute) <==> Returns(d, regions, x, kind, attribute)
  {
    if Returns(d, regions, x, kind, attribute) {
      PiecesCover(out, d, regions, Top(d), x);
      var k :| 0 <= k < |out| && Covers(out[k], x);
      assert Says(out[k], x, kind, attribute);
    }
    if Describes(out, x, kind, attribute) {
      var k :| 0 <= k < |out| && Says(out[k], x, kind, attribute);
      PiecesStart(out, d, regions, Top(d), k);
      PiecesEnd(out, d, regions, Top(d), k);
    }
  }

  /** The addresses a descriptor was cut at. */
  ghost predicate CutAt(cuts: set<nat>, pieces: seq<Desc>, d: Desc, regions: seq<Region>, cur: nat) {
    && |cuts| == (if pieces == [] then 0 else |pieces| - 1)
    && cuts <= Edges(regions) && forall c :: c in cuts ==> d.base < c < cur
  }

  /** Cuts one descriptor; full if the room runs out first. */
  method Split(d: Desc, regions: seq<Region>, room: nat) returns (pieces: seq<Desc>, full: bool, ghost cuts: set<nat>)
    requires Aligned(regions) && d.base % 0x1000 == 0 && d.pages > 0 && room > 0
    ensures if full then |pieces| == room else |pieces| < room && Pieces(pieces, d, regions, Top(d))
    ensures |pieces| == |cuts| + 1 && cuts <= Edges(regions) && forall c :: c in cuts ==> d.base < c < Top(d)
  {
    pieces, cuts := [], {};
    var cur, top := d.base, Top(d);
    while cur < top
      invariant d.base <= cur <= top && cur % 0x1000 == 0 && Pieces(pieces, d, regions, cur) && |pieces| < room
      invariant CutAt(cuts, pieces, d, regions, cur)
      invariant d.base < cur < top ==> cur in Edges(regions)
      invariant pieces == [] <==> cur == d.base
      decreases top - cur
    {
      var runTop, owned := FindRun(regions, cur, top);
      PiecesGrow(pieces, d, regions, cur, runTop, owned);
      if pieces != [] {
        cuts := cuts + {cur};
      }
      pieces := pieces + [Cut(d, cur, runTop, owned)];
      if |pieces| == room {
        return pieces, true, cuts;
      }
      cur := runTop;
    }
    full := false;
  }

  // ---------------------------------------------------------------- the whole map

  predicate PageAligned(descs: seq<Desc>) { forall k :: 0 <= k < |descs| ==> descs[k].base % 0x1000 == 0 }

  predicate Disjoint(descs: seq<Desc>) {
    forall i, j :: 0 <= i < j < |descs| ==> Top(descs[i]) <= descs[j].base || Top(descs[j]) <= descs[i].base
  }

  ghost predicate ReturnsSome(descs: seq<Desc>, regions: seq<Region>, x: nat, kind: nat, attribute: nat) {
    exists k :: 0 <= k < |descs| && Returns(descs[k], regions, x, kind, attribute)
  }

  /** One map describes the same memory as the other, with the loader's part given back. */
  ghost predicate Rebuilt(out: seq<Desc>, descs: seq<Desc>, regions: seq<Region>) {
    && Total(out) == Total(descs)
    && forall x, kind, attribute :: Describes(out, x, kind, attribute) <==>
         ReturnsSome(descs, regions, x, kind, attribute)
  }

  /** Part of a descriptor, which keeps the virtual address only at the start of it. */
  predicate Part(p: Desc, d: Desc) {
    && p.pages > 0 && d.base <= p.base && Top(p) <= Top(d) && p.attribute == d.attribute
    && p.virtual == if p.base == d.base then d.virtual else 0
  }

  ghost predicate AllParts(out: seq<Desc>, descs: seq<Desc>) {
    forall p :: p in out ==> exists d :: d in descs && Part(p, d)
  }

  lemma PiecesAreParts(pieces: seq<Desc>, d: Desc, regions: seq<Region>, k: nat)
    requires Pieces(pieces, d, regions, Top(d)) && k < |pieces|
    ensures Part(pieces[k], d)
  {
    PiecesStart(pieces, d, regions, Top(d), k);
    PiecesEnd(pieces, d, regions, Top(d), k);
    if k > 0 {
      PiecesStart(pieces, d, regions, Top(d), k - 1);
      assert Top(pieces[k - 1]) == pieces[k - 1 + 1].base;
    }
  }

  lemma PartsMore(out: seq<Desc>, pieces: seq<Desc>, descs: seq<Desc>, d: Desc, regions: seq<Region>)
    requires AllParts(out, descs) && Pieces(pieces, d, regions, Top(d))
    ensures AllParts(out + pieces, descs + [d])
  {
    forall p | p in out + pieces ensures exists e :: e in descs + [d] && Part(p, e) {
      if p in out {
        var e :| e in descs && Part(p, e);
        assert e in descs + [d];
      } else {
        var k :| 0 <= k < |pieces| && pieces[k] == p;
        PiecesAreParts(pieces, d, regions, k);
        assert d in descs + [d];
      }
    }
  }

  lemma PartsStay(out: seq<Desc>, descs: seq<Desc>, d: Desc)
    requires AllParts(out, descs)
    ensures AllParts(out, descs + [d])
  {
    forall p | p in out ensures exists e :: e in descs + [d] && Part(p, e) {
      var e :| e in descs && Part(p, e);
      assert e in descs + [d];
    }
  }

  lemma DescribesAppend(a: seq<Desc>, b: seq<Desc>, x: nat, kind: nat, attribute: nat)
    ensures Describes(a + b, x, kind, attribute) <==>
              Describes(a, x, kind, attribute) || Describes(b, x, kind, attribute)
  {
    var s := a + b;
    forall k | 0 <= k < |a| && Says(a[k], x, kind, attribute) ensures Describes(s, x, kind, attribute) {
      assert Says(s[k], x, kind, attribute);
    }
    forall k | 0 <= k < |b| && Says(b[k], x, kind, attribute) ensures Describes(s, x, kind, attribute) {
      assert Says(s[|a| + k], x, kind, attribute);
    }
  }

  lemma ReturnsAppend(descs: seq<Desc>, d: Desc, regions: seq<Region>, x: nat, kind: nat, attribute: nat)
    ensures ReturnsSome(descs + [d], regions, x, kind, attribute) <==>
            ReturnsSome(descs, regions, x, kind, attribute) || Returns(d, regions, x, kind, attribute)
  {
    var s := descs + [d];
    forall k | 0 <= k < |descs| && Returns(descs[k], regions, x, kind, attribute)
      ensures ReturnsSome(s, regions, x, kind, attribute)
    {
      assert Returns(s[k], regions, x, kind, attribute);
    }
    if Returns(d, regions, x, kind, attribute) {
      assert Returns(s[|descs|], regions, x, kind, attribute);
    }
  }

  lemma RebuiltMore(out: seq<Desc>, pieces: seq<Desc>, descs: seq<Desc>, d: Desc, regions: seq<Region>)
    requires Rebuilt(out, descs, regions) && Pieces(pieces, d, regions, Top(d))
    ensures Rebuilt(out + pieces, descs + [d], regions)
  {
    TotalAppend(out, pieces);
    assert (descs + [d])[..|descs|] == descs;
    PiecesTotal(pieces, d, regions, Top(d));
    forall x, kind, attribute
      ensures Describes(out + pieces, x, kind, attribute) <==> ReturnsSome(descs + [d], regions, x, kind, attribute)
    {
      DescribesAppend(out, pieces, x, kind, attribute);
      ReturnsAppend(descs, d, regions, x, kind, attribute);
      PiecesDescribe(pieces, d, regions, x, kind, attribute);
    }
  }

  /** Every cut so far is an edge inside one of the descriptors. */
  ghost predicate Cuts(cuts: set<nat>, descs: seq<Desc>, regions: seq<Region>) {
    && cuts <= Edges(regions)
    && forall c :: c in cuts ==> exists k :: 0 <= k < |descs| && descs[k].base < c < Top(descs[k])
  }

  lemma CutsMore(a: set<nat>, b: set<nat>, descs: seq<Desc>, d: Desc, regions: seq<Region>)
    requires Disjoint(descs + [d]) && Cuts(a, descs, regions)
    requires b <= Edges(regions) && forall c :: c in b ==> d.base < c < Top(d)
    ensures Cuts(a + b, descs + [d], regions) && |a + b| == |a| + |b|
  {
    var s := descs + [d];
    forall c | c in a ensures c !in b {
      var k :| 0 <= k < |descs| && descs[k].base < c < Top(descs[k]);
      assert s[k] == descs[k] && s[|descs|] == d;
    }
    assert a * b == {};
    forall c | c in a + b ensures exists k :: 0 <= k < |s| && s[k].base < c < Top(s[k]) {
      if c in a {
        var k :| 0 <= k < |descs| && descs[k].base < c < Top(descs[k]);
        assert s[k].base < c < Top(s[k]);
      } else {
        assert s[|descs|].base < c < Top(s[|descs|]);
      }
    }
  }

  lemma CutsFew(cuts: set<nat>, descs: seq<Desc>, regions: seq<Region>)
    requires Cuts(cuts, descs, regions)
    ensures |cuts| <= 2 * |regions|
  {
    SubsetSize(cuts, Edges(regions));
  }

  lemma {:induction false} SubsetSize(a: set<nat>, b: set<nat>)
    requires a <= b
    ensures |a| <= |b|
  {
    if a != {} {
      var x :| x in a;
      SubsetSize(a - {x}, b - {x});
    }
  }

  // ---------------------------------------------------------------- 64-bit addresses

  /** A descriptor as the loader's 64-bit arithmetic sees it: one that reaches the end of the address space wraps. */
  function Seen(d: Desc): Desc {
    var top := (d.base + 0x1000 * d.pages) % 0x1_0000_0000_0000_0000;
    d.(pages := if d.base < top then (top - d.base) / 0x1000 else 0)
  }

  function AllSeen(descs: seq<Desc>): (r: seq<Desc>)
    ensures |r| == |descs| && forall k :: 0 <= k < |descs| ==> r[k] == Seen(descs[k])
  {
    seq(|descs|, k requires 0 <= k < |descs| => Seen(descs[k]))
  }

  /** A descriptor that ends within 64 bits. */
  predicate Ends(d: Desc) { d.pages == 0 || Top(d) <= MAX64 }

  predicate AllEnd(descs: seq<Desc>) { forall k :: 0 <= k < |descs| ==> Ends(descs[k]) }

  predicate Fields(descs: seq<Desc>) { forall k :: 0 <= k < |descs| ==> descs[k].base <= MAX64 }

  /** Exactly the descriptors that end within 64 bits are seen whole; of the others pages are lost. */
  lemma SeenWhole(d: Desc)
    requires d.base % 0x1000 == 0 && d.base <= MAX64
    ensures Ends(d) ==> Seen(d) == d
    ensures !Ends(d) ==> Seen(d).pages < d.pages
    ensures Seen(d).base % 0x1000 == 0
  {
    var sum := d.base + 0x1000 * d.pages;
    var q, top := sum / 0x1_0000_0000_0000_0000, sum % 0x1_0000_0000_0000_0000;
    assert sum == 0x1_0000_0000_0000_0000 * q + top;
    if !Ends(d) {
      assert q >= 1;
    }
  }

  lemma {:induction false} TotalSeen(descs: seq<Desc>)
    requires PageAligned(descs) && Fields(descs)
    ensures Total(AllSeen(descs)) <= Total(descs)
    ensures Total(AllSeen(descs)) == Total(descs) ==> AllEnd(descs)
  {
    if descs != [] {
      var n := |descs| - 1;
      TotalSeen(descs[..n]);
      SeenWhole(descs[n]);
      assert AllSeen(descs)[..n] == AllSeen(descs[..n]);
    }
  }

  lemma SeenMap(descs: seq<Desc>)
    requires PageAligned(descs) && Fields(descs)
    ensures PageAligned(AllSeen(descs)) && (AllEnd(descs) ==> AllSeen(descs) == descs)
    ensures Disjoint(descs) ==> Disjoint(AllSeen(descs))
  {
    forall k | 0 <= k < |descs|
      ensures Seen(descs[k]).base == descs[k].base && Top(Seen(descs[k])) <= Top(descs[k])
      ensures Ends(descs[k]) ==> Seen(descs[k]) == descs[k]
    {
      SeenWhole(descs[k]);
    }
  }

  /** The rebuilt map is the firmware's exactly when no descriptor wraps. */
  lemma RebuiltWhenWhole(out: seq<Desc>, descs: seq<Desc>, regions: seq<Region>)
    requires PageAligned(descs) && Fields(descs) && Rebuilt(out, AllSeen(descs), regions)
    ensures Rebuilt(out, descs, regions) <==> AllEnd(descs)
  {
    SeenMap(descs);
    TotalSeen(descs);
  }

  /** A page at the very top of the address space is dropped, as its end is zero in 64 bits. */
  lemma LastPageLost()
    ensures var d := Desc(2, 0xffff_ffff_ffff_f000, 0, 1, 0); Seen(d).pages == 0 && !Ends(d)
  {
  }

  /**
   * The rebuild. It describes exactly the memory the firmware's map does, if and only if no descriptor wraps, and for
   * disjoint descriptors never needs more than two entries per region on top of the firmware's own.
   */
  method Rebuild(descs: seq<Desc>, regions: seq<Region>, limit: nat) returns (out: seq<Desc>, exhausted: bool)
    requires Aligned(regions) && PageAligned(descs) && Fields(descs) && (limit > 0 || descs == [])
    ensures !exhausted ==> Rebuilt(out, AllSeen(descs), regions) && (Rebuilt(out, descs, regions) <==> AllEnd(descs))
    ensures !exhausted ==> AllParts(out, AllSeen(descs)) && (|out| < limit || out == [])
    ensures Disjoint(descs) ==> |out| <= |descs| + 2 * |regions|
    ensures (Disjoint(descs) && |descs| + 2 * |regions| < limit) || descs == [] ==> !exhausted
  {
    out, exhausted := [], false;
    ghost var seen, cuts: set<nat> := AllSeen(descs), {};
    SeenMap(descs);
    for i := 0 to |descs|
      invariant !exhausted && (|out| < limit || out == [])
      invariant Rebuilding(out, seen, i, regions) && Few(|out|, cuts, seen, i, regions)
    {
      out, exhausted, cuts := Take(descs[i], out, regions, limit, seen, i, cuts);
      if exhausted {
        return;
      }
    }
    assert seen[..|descs|] == seen;
    RebuiltWhenWhole(out, descs, regions);
  }

  /** Adds one descriptor, in pieces. */
  method Take(d0: Desc, out0: seq<Desc>, regions: seq<Region>, limit: nat, ghost seen: seq<Desc>, ghost i: nat,
              ghost cuts0: set<nat>)
    returns (out: seq<Desc>, full: bool, ghost cuts: set<nat>)
    requires Aligned(regions) && PageAligned(seen) && i < |seen| && seen[i] == Seen(d0) && |out0| < limit
    requires Rebuilding(out0, seen, i, regions) && Few(|out0|, cuts0, seen, i, regions)
    ensures Few(|out|, cuts, seen, i + 1, regions)
    ensures if full then |out| == limit else |out| < limit && Rebuilding(out, seen, i + 1, regions)
  {
    out, full, cuts := out0, false, cuts0;
    var d := Seen(d0);
    if d.pages == 0 {
      RebuildingEmpty(out, cuts, seen, i, regions);
      return;
    }
    var pieces;
    ghost var more;
    pieces, full, more := Split(d, regions, limit - |out|);
    FewMore(|out|, cuts, |pieces|, more, seen, i, regions);
    if !full {
      RebuildingMore(out, pieces, seen, i, regions);
    }
    cuts := cuts + more;
    out := out + pieces;
  }

  /**
   * For disjoint descriptors the entries so far are the descriptors and their cuts, and there are only so many cuts.
   */
  ghost predicate Few(n: nat, cuts: set<nat>, descs: seq<Desc>, i: nat, regions: seq<Region>) {
    i <= |descs| && (Disjoint(descs) ==> Cuts(cuts, descs[..i], regions) && n <= i + |cuts| <= i + 2 * |regions|)
  }

  lemma FewMore(n: nat, cuts: set<nat>, m: nat, more: set<nat>, descs: seq<Desc>, i: nat, regions: seq<Region>)
    requires i < |descs| && Few(n, cuts, descs, i, regions) && m <= |more| + 1
    requires more <= Edges(regions) && forall c :: c in more ==> descs[i].base < c < Top(descs[i])
    ensures Few(n + m, cuts + more, descs, i + 1, regions)
  {
    if Disjoint(descs) {
      assert descs[..i + 1] == descs[..i] + [descs[i]];
      CutsMore(cuts, more, descs[..i], descs[i], regions);
      CutsFew(cuts + more, descs[..i + 1], regions);
    }
  }

  /** The first i descriptors are rebuilt. */
  ghost predicate Rebuilding(out: seq<Desc>, seen: seq<Desc>, i: nat, regions: seq<Region>) {
    i <= |seen| && Rebuilt(out, seen[..i], regions) && AllParts(out, seen[..i])
  }

  lemma RebuildingEmpty(out: seq<Desc>, cuts: set<nat>, seen: seq<Desc>, i: nat, regions: seq<Region>)
    requires i < |seen| && seen[i].pages == 0 && Rebuilding(out, seen, i, regions) && Few(|out|, cuts, seen, i, regions)
    ensures Rebuilding(out, seen, i + 1, regions) && Few(|out|, cuts, seen, i + 1, regions)
  {
    PartsStay(out, seen[..i], seen[i]);
    assert seen[..i + 1] == seen[..i] + [seen[i]] && cuts + {} == cuts;
    EmptyDescribes(out, seen[..i], seen[i], regions);
    FewMore(|out|, cuts, 0, {}, seen, i, regions);
  }

  lemma RebuildingMore(out: seq<Desc>, pieces: seq<Desc>, seen: seq<Desc>, i: nat, regions: seq<Region>)
    requires i < |seen| && Rebuilding(out, seen, i, regions) && Pieces(pieces, seen[i], regions, Top(seen[i]))
    ensures Rebuilding(out + pieces, seen, i + 1, regions)
  {
    PartsMore(out, pieces, seen[..i], seen[i], regions);
    assert seen[..i + 1] == seen[..i] + [seen[i]];
    RebuiltMore(out, pieces, seen[..i], seen[i], regions);
  }

  lemma EmptyDescribes(out: seq<Desc>, descs: seq<Desc>, d: Desc, regions: seq<Region>)
    requires Rebuilt(out, descs, regions) && d.pages == 0
    ensures Rebuilt(out, descs + [d], regions)
  {
    assert (descs + [d])[..|descs|] == descs;
    forall x, kind, attribute
      ensures ReturnsSome(descs + [d], regions, x, kind, attribute) <==> ReturnsSome(descs, regions, x, kind, attribute)
    {
      ReturnsAppend(descs, d, regions, x, kind, attribute);
    }
  }

  /** The buffers the loader asks for leave room: the copy has entries for every map that fits its own. */
  lemma BufferSuffices(mapSize: nat, mapAlloc: nat, descSize: nat, regions: nat)
    requires 0 < descSize <= mapSize <= mapAlloc
    ensures mapSize / descSize + 2 * regions < (2 * mapAlloc + 2 * regions * descSize) / descSize
  {
    var e := mapSize / descSize;
    var total := 2 * mapAlloc + 2 * regions * descSize;
    assert e * descSize <= mapSize;
    assert (2 * e + 2 * regions) * descSize == 2 * (e * descSize) + 2 * regions * descSize;
    QuotientAtLeast(total, 2 * e + 2 * regions, descSize);
    QuotientAtLeast(mapSize, 1, descSize);
  }

  /**
   * The rebuild in the buffers the loader asks for: a map of disjoint descriptors that fits the map buffer always
   * fits the copy, so the loader never gives up here.
   */
  method RebuildInBuffers(descs: seq<Desc>, regions: seq<Region>, mapSize: nat, mapAlloc: nat, descSize: nat)
    returns (out: seq<Desc>, exhausted: bool)
    requires Aligned(regions) && PageAligned(descs) && Fields(descs) && Disjoint(descs)
    requires 0 < descSize && mapSize <= mapAlloc && |descs| == mapSize / descSize
    ensures !exhausted && Rebuilt(out, AllSeen(descs), regions) && (Rebuilt(out, descs, regions) <==> AllEnd(descs))
    ensures AllParts(out, AllSeen(descs)) && |out| <= |descs| + 2 * |regions|
  {
    var limit := CopyEntries(|descs|, |regions|, mapSize, mapAlloc, descSize);
    out, exhausted := Rebuild(descs, regions, limit);
  }

  /** How many descriptors the copy has room for. */
  method CopyEntries(entries: nat, regions: nat, mapSize: nat, mapAlloc: nat, descSize: nat) returns (limit: nat)
    requires 0 < descSize && mapSize <= mapAlloc && entries == mapSize / descSize
    ensures limit == (2 * mapAlloc + 2 * regions * descSize) / descSize
    ensures entries > 0 ==> entries + 2 * regions < limit
  {
    if mapSize >= descSize {
      BufferSuffices(mapSize, mapAlloc, descSize, regions);
    } else {
      SmallQuotient(mapSize, descSize);
    }
    limit := (2 * mapAlloc + 2 * regions * descSize) / descSize;
  }

  lemma SmallQuotient(x: nat, k: nat)
    requires x < k
    ensures x / k == 0
  {
  }

  lemma QuotientAtLeast(x: nat, q: nat, k: nat)
    requires k > 0 && q * k <= x
    ensures x / k >= q
  {
    MulOrder(x / k, q, k);
  }
}
