/**
 * The installer's device layer: a one-block write-back cache over the medium, and the journal
 * from which a failed or unwanted installation is undone.
 */
module Device {
  import opened Numeral
  import opened Words
  import opened Blocks

  const NONE: nat := MAX64
  const MAX_SAVED: nat := 256

  /** What the medium does with one transfer: it completes, or it fails. A failed write may still land some bytes. */
  datatype Outcome = Done | Fails(landed: nat -> bool)

  /** A journal entry: the bytes a write replaced, and where. */
  datatype Saved = Saved(data: seq<Byte>, loc: nat)

  // ---------------------------------------------------------------- patches

  predicate Inside(loc: nat, count: nat, x: int) { loc <= x < loc + count }

  function Patch(d: seq<Byte>, loc: nat, data: seq<Byte>): (r: seq<Byte>)
    requires data == [] || loc + |data| <= |d|
    ensures |r| == |d|
    ensures forall x {:trigger r[x]} :: 0 <= x < |d| ==> r[x] == if Inside(loc, |data|, x) then data[x - loc] else d[x]
  {
    seq(|d|, x requires 0 <= x < |d| => if Inside(loc, |data|, x) then data[x - loc] else d[x])
  }

  /** A write that failed: each byte of its range either reached the medium or did not. */
  function Torn(d: seq<Byte>, loc: nat, data: seq<Byte>, landed: nat -> bool): (r: seq<Byte>)
    requires loc + |data| <= |d|
    ensures |r| == |d|
    ensures forall x :: 0 <= x < |d| ==> r[x] == d[x] || r[x] == Patch(d, loc, data)[x]
  {
    seq(|d|, x requires 0 <= x < |d| => if Inside(loc, |data|, x) && landed(x) then data[x - loc] else d[x])
  }

  lemma PatchSame(d: seq<Byte>, loc: nat, count: nat)
    requires loc + count <= |d|
    ensures Patch(d, loc, d[loc..loc + count]) == d
  {
  }

  lemma PatchWithin(d: seq<Byte>, base: nat, held: seq<Byte>, offset: nat, data: seq<Byte>)
    requires base + |held| <= |d| && offset + |data| <= |held|
    ensures Patch(d, base, Patch(held, offset, data)) == Patch(Patch(d, base, held), base + offset, data)
  {
  }

  lemma PatchGrows(d: seq<Byte>, loc: nat, data: seq<Byte>, p: nat, q: nat)
    requires p <= q <= |data| && (q == 0 || loc + q <= |d|)
    ensures Patch(Patch(d, loc, data[..p]), loc + p, data[p..q]) == Patch(d, loc, data[..q])
  {
  }

  lemma PatchSlice(d: seq<Byte>, loc: nat, data: seq<Byte>, offset: nat, count: nat)
    requires loc + |data| <= |d| && offset + count <= |data|
    ensures Patch(d, loc, data)[loc + offset..loc + offset + count] == data[offset..offset + count]
  {
  }

  /** The view is what it was, with the data written from loc on as far as its first p bytes. */
  predicate Written(view: seq<Byte>, before: seq<Byte>, loc: nat, data: seq<Byte>, p: nat) {
    p <= |data| && |before| == |view| && (p == 0 || loc + p <= |view|) && view == Patch(before, loc, data[..p])
  }

  lemma WrittenMore(view: seq<Byte>, view': seq<Byte>, before: seq<Byte>, loc: nat, data: seq<Byte>, p: nat, q: nat)
    requires Written(view, before, loc, data, p) && p < q <= |data| && loc + q <= |view|
    requires view' == Patch(view, loc + p, data[p..q])
    ensures Written(view', before, loc, data, q)
  {
    PatchGrows(before, loc, data, p, q);
  }

  /** Every byte of the medium is where it was or has caught up with the view. */
  predicate Between(disk: seq<Byte>, before: seq<Byte>, view: seq<Byte>) {
    |disk| == |before| == |view| && forall x :: 0 <= x < |disk| ==> disk[x] == before[x] || disk[x] == view[x]
  }

  /** The same off a range being written. */
  predicate Spread(disk: seq<Byte>, before: seq<Byte>, view: seq<Byte>, loc: nat, p: nat) {
    && |disk| == |before| == |view|
    && forall x :: 0 <= x < |disk| && !Inside(loc, p, x) ==> disk[x] == before[x] || disk[x] == view[x]
  }

  lemma SpreadMore(disk: seq<Byte>, disk': seq<Byte>, before: seq<Byte>, view0: seq<Byte>, view: seq<Byte>, loc: nat,
                   data: seq<Byte>, p: nat)
    requires Spread(disk, before, view0, loc, p) && Between(disk', disk, view) && Written(view, view0, loc, data, p)
    ensures Spread(disk', before, view0, loc, p)
  {
  }

  lemma SpreadWidens(disk: seq<Byte>, before: seq<Byte>, view: seq<Byte>, loc: nat, p: nat, q: nat)
    requires Spread(disk, before, view, loc, p) && p <= q
    ensures Spread(disk, before, view, loc, q)
  {
  }

  lemma StoredMore(disk: seq<Byte>, view: seq<Byte>, view': seq<Byte>, disk0: seq<Byte>, view0: seq<Byte>, loc: nat,
                   data: seq<Byte>, p: nat, q: nat)
    requires Written(view, view0, loc, data, p) && Spread(disk, disk0, view0, loc, p)
    requires p < q <= |data| && loc + q <= |view| && view' == Patch(view, loc + p, data[p..q])
    ensures Written(view', view0, loc, data, q) && Spread(disk, disk0, view0, loc, q)
  {
    WrittenMore(view, view', view0, loc, data, p, q);
    SpreadWidens(disk, disk0, view0, loc, p, q);
  }

  // ---------------------------------------------------------------- the journal

  predicate Holds(e: Saved, x: int) { Inside(e.loc, |e.data|, x) }

  predicate Covers(j: seq<Saved>, x: int) { exists k :: 0 <= k < |j| && Holds(j[k], x) }

  /** The oldest entry covering a byte holds the byte's original value. */
  ghost predicate Recorded(j: seq<Saved>, original: seq<Byte>, lost: set<int>) {
    forall k, x :: 0 <= k < |j| && Holds(j[k], x) && !Covers(j[..k], x) && x !in lost ==>
      x < |original| && j[k].data[x - j[k].loc] == original[x]
  }

  /** The same with the newest entry first. */
  ghost predicate RecordedReversed(j: seq<Saved>, original: seq<Byte>, lost: set<int>) {
    forall k, x :: 0 <= k < |j| && Holds(j[k], x) && !Covers(j[k + 1..], x) && x !in lost ==>
      x < |original| && j[k].data[x - j[k].loc] == original[x]
  }

  function Reversed(j: seq<Saved>): (r: seq<Saved>)
    ensures |r| == |j| && forall k :: 0 <= k < |j| ==> r[k] == j[|j| - 1 - k]
  {
    seq(|j|, k requires 0 <= k < |j| => j[|j| - 1 - k])
  }

  lemma ReversedCovers(j: seq<Saved>, k: nat, x: int)
    requires k < |j|
    ensures Covers(j[..k], x) ==> Covers(Reversed(j)[|j| - k..], x)
    ensures Covers(j, x) <==> Covers(Reversed(j), x)
  {
    var r := Reversed(j);
    forall i | 0 <= i < k && Holds(j[i], x) ensures Covers(r[|j| - k..], x) {
      assert r[|j| - k..][k - 1 - i] == j[i];
    }
    forall i | 0 <= i < |j| && Holds(j[i], x) ensures Covers(r, x) {
      assert r[|j| - 1 - i] == j[i];
    }
  }

  lemma ReversedRecords(j: seq<Saved>, original: seq<Byte>, lost: set<int>)
    requires Recorded(j, original, lost)
    ensures RecordedReversed(Reversed(j), original, lost)
    ensures forall x :: Covers(j, x) <==> Covers(Reversed(j), x)
  {
    var r := Reversed(j);
    forall k, x | 0 <= k < |r| && Holds(r[k], x) && !Covers(r[k + 1..], x) && x !in lost
      ensures x < |original| && r[k].data[x - r[k].loc] == original[x]
    {
      var i := |j| - 1 - k;
      ReversedCovers(j, i, x);
      assert r[|j| - i..] == r[k + 1..] && r[k] == j[i];
    }
    forall x ensures Covers(j, x) <==> Covers(r, x) {
      if |j| > 0 {
        ReversedCovers(j, 0, x);
      }
    }
  }

  lemma CoversMore(j: seq<Saved>, e: Saved, x: int)
    ensures Covers(j + [e], x) <==> Covers(j, x) || Holds(e, x)
  {
    var s := j + [e];
    forall k | 0 <= k < |j| && Holds(j[k], x) ensures Covers(s, x) {
      assert s[k] == j[k];
    }
    if Holds(e, x) {
      assert s[|j|] == e;
    }
  }

  /** Saving what is there now keeps the record, as long as the bytes no entry covers are still the original ones. */
  lemma SavingRecords(j: seq<Saved>, e: Saved, original: seq<Byte>, lost: set<int>)
    requires Recorded(j, original, lost)
    requires forall x :: Holds(e, x) && !Covers(j, x) && x !in lost ==>
               x < |original| && e.data[x - e.loc] == original[x]
    ensures Recorded(j + [e], original, lost)
  {
    var s := j + [e];
    forall k, x | 0 <= k < |s| && Holds(s[k], x) && !Covers(s[..k], x) && x !in lost
      ensures x < |original| && s[k].data[x - s[k].loc] == original[x]
    {
      if k < |j| {
        assert s[..k] == j[..k] && s[k] == j[k];
      } else {
        assert s[..k] == j;
      }
    }
  }

  /** Every byte an entry could put back, or that an interrupted write left without one. */
  ghost function Touched(j: seq<Saved>, lost: set<int>): iset<int> {
    iset x: int | x in lost || Covers(j, x)
  }

  /** Off the given bytes, neither the medium nor what is seen of it has changed. */
  ghost predicate Settled(disk: seq<Byte>, view: seq<Byte>, original: seq<Byte>, touched: iset<int>) {
    && |disk| == |view| == |original|
    && forall x :: 0 <= x < |disk| && x !in touched ==> disk[x] == original[x] && view[x] == original[x]
  }

  lemma StaysSettled(disk: seq<Byte>, disk': seq<Byte>, view: seq<Byte>, original: seq<Byte>, touched: iset<int>)
    requires Settled(disk, view, original, touched) && Between(disk', disk, view)
    ensures Settled(disk', view, original, touched)
  {
  }

  /** A write unsettles only the bytes it got to. */
  lemma WriteSettles(disk: seq<Byte>, disk': seq<Byte>, view: seq<Byte>, view': seq<Byte>, original: seq<Byte>,
                     touched: iset<int>, touched': iset<int>, loc: nat, data: seq<Byte>, p: nat)
    requires Settled(disk, view, original, touched)
    requires Written(view', view, loc, data, p) && Spread(disk', disk, view, loc, p)
    requires forall x :: x in touched || Inside(loc, p, x) ==> x in touched'
    ensures Settled(disk', view', original, touched')
  {
  }

  function Range(loc: nat, p: nat): set<int> {
    set x | loc <= x < loc + p && Inside(loc, p, x)
  }

  lemma LosingRecords(j: seq<Saved>, original: seq<Byte>, lost: set<int>, lost': set<int>)
    requires Recorded(j, original, lost) && lost <= lost'
    ensures Recorded(j, original, lost')
  {
  }

  /** Writing with the old bytes saved keeps the journal a record of the original. */
  lemma SavedSettles(disk: seq<Byte>, view: seq<Byte>, original: seq<Byte>, j: seq<Saved>, lost: set<int>, e: Saved)
    requires Settled(disk, view, original, Touched(j, lost)) && Recorded(j, original, lost)
    requires Sees(view, e.loc, |e.data|, e.data)
    ensures Recorded(j + [e], original, lost)
    ensures forall x :: x in Touched(j, lost) || Inside(e.loc, |e.data|, x) ==> x in Touched(j + [e], lost)
  {
    SavingRecords(j, e, original, lost);
    forall x ensures Covers(j + [e], x) <==> Covers(j, x) || Holds(e, x) {
      CoversMore(j, e, x);
    }
  }

  /** A completed write with its entry in the journal. */
  lemma KeepSettles(disk: seq<Byte>, disk': seq<Byte>, view: seq<Byte>, view': seq<Byte>, original: seq<Byte>,
                    j: seq<Saved>, lost: set<int>, e: Saved, data: seq<Byte>)
    requires Settled(disk, view, original, Touched(j, lost)) && Recorded(j, original, lost)
    requires |e.data| == |data| && Sees(view, e.loc, |data|, e.data)
    requires Written(view', view, e.loc, data, |data|) && Spread(disk', disk, view, e.loc, |data|)
    ensures Recorded(j + [e], original, lost) && Settled(disk', view', original, Touched(j + [e], lost))
  {
    SavedSettles(disk, view, original, j, lost, e);
    WriteSettles(disk, disk', view, view', original, Touched(j, lost), Touched(j + [e], lost), e.loc, data, |data|);
  }

  // ---------------------------------------------------------------- undoing

  /** Every byte that no entry still to be replayed covers is the original one. */
  ghost predicate Restored(view: seq<Byte>, original: seq<Byte>, lost: set<int>, rest: seq<Saved>) {
    |view| == |original| && forall x :: 0 <= x < |view| && x !in lost && !Covers(rest, x) ==> view[x] == original[x]
  }

  lemma CoversNext(j: seq<Saved>, x: int)
    requires j != []
    ensures Covers(j, x) ==> Holds(j[0], x) || Covers(j[1..], x)
  {
    forall k | 0 < k < |j| && Holds(j[k], x) ensures Covers(j[1..], x) {
      assert j[1..][k - 1] == j[k];
    }
  }

  lemma RestoreStep(view: seq<Byte>, view': seq<Byte>, original: seq<Byte>, lost: set<int>, j: seq<Saved>, i: nat)
    requires RecordedReversed(j, original, lost) && i < |j|
    requires Restored(view, original, lost, j[i..]) && Written(view', view, j[i].loc, j[i].data, |j[i].data|)
    ensures Restored(view', original, lost, j[i + 1..])
  {
    assert j[i].data[..|j[i].data|] == j[i].data;
    forall x | 0 <= x < |view| && x !in lost && !Covers(j[i + 1..], x) ensures view'[x] == original[x] {
      CoversNext(j[i..], x);
      assert j[i..][1..] == j[i + 1..];
    }
  }

  /** A replay cut short touches nothing outside its entry, which is still to be replayed. */
  lemma RestoreAgain(view: seq<Byte>, view': seq<Byte>, original: seq<Byte>, lost: set<int>, j: seq<Saved>, i: nat,
                     p: nat)
    requires i < |j| && Restored(view, original, lost, j[i..]) && Written(view', view, j[i].loc, j[i].data, p)
    ensures Restored(view', original, lost, j[i..])
  {
    forall x | Inside(j[i].loc, p, x) ensures Covers(j[i..], x) {
      assert Holds(j[i..][0], x);
    }
  }

  // ---------------------------------------------------------------- the device

  method ReverseLoop(j: seq<Saved>) returns (r: seq<Saved>)
    ensures r == Reversed(j)
  {
    r := j;
    for i := 0 to |j|
      invariant |r| == |j|
      invariant forall k :: |j| - i <= k < |j| ==> r[k] == j[|j| - 1 - k]
    {
      r := r[|j| - 1 - i := j[i]];
    }
  }

  /** What an installation asks of the device. */
  datatype Op = Get(loc: nat, count: nat) | Put(loc: nat, data: seq<Byte>)

  function Extent(op: Op): nat {
    if op.Put? then |op.data| else 0
  }

  function Effect(view: seq<Byte>, op: Op): (r: seq<Byte>)
    ensures |r| == |view|
  {
    if op.Put? && (op.data == [] || op.loc + |op.data| <= |view|) then Patch(view, op.loc, op.data) else view
  }

  function Effects(view: seq<Byte>, ops: seq<Op>): (r: seq<Byte>)
    ensures |r| == |view|
  {
    if ops == [] then view else Effect(Effects(view, ops[..|ops| - 1]), ops[|ops| - 1])
  }

  /** Whether the whole blocks a range touches are on a medium of the given size. */
  predicate Fits(block: nat, size: nat, loc: nat, count: nat) {
    0 < block && (count == 0 || Start(BlockOf(loc + count - 1, block), block) + block <= size)
  }

  predicate OpFits(op: Op, block: nat, size: nat) {
    Fits(block, size, op.loc, if op.Put? then |op.data| else op.count)
  }

  predicate AllFit(ops: seq<Op>, block: nat, size: nat) {
    forall k :: 0 <= k < |ops| ==> OpFits(ops[k], block, size)
  }

  predicate EntriesFit(journal: seq<Saved>, block: nat, size: nat) {
    forall e :: e in journal ==> e.loc <= NONE && Fits(block, size, e.loc, |e.data|)
  }

  lemma EntriesFitMore(journal: seq<Saved>, e: Saved, block: nat, size: nat)
    requires EntriesFit(journal, block, size) && e.loc <= NONE && Fits(block, size, e.loc, |e.data|)
    ensures EntriesFit(journal + [e], block, size)
  {
  }

  /** How many of the operations write. */
  function Puts(ops: seq<Op>): nat {
    if ops == [] then 0 else Puts(ops[..|ops| - 1]) + if ops[|ops| - 1].Put? then 1 else 0
  }

  lemma {:induction false} PutsPrefix(ops: seq<Op>, i: nat)
    requires i <= |ops|
    ensures Puts(ops[..i]) <= Puts(ops)
    decreases |ops|
  {
    if i < |ops| {
      PutsPrefix(ops[..|ops| - 1], i);
      assert ops[..|ops| - 1][..i] == ops[..i];
    } else {
      assert ops[..i] == ops;
    }
  }

  /** The first i operations have had their effect, were all in reach, and are in the journal as far as they wrote. */
  ghost predicate Performed(v: seq<Byte>, n: nat, view: seq<Byte>, n0: nat, ops: seq<Op>, i: nat, block: nat,
                            size: nat) {
    i <= |ops| && v == Effects(view, ops[..i]) && n == n0 + Puts(ops[..i]) && AllFit(ops[..i], block, size)
  }

  lemma PutsOne(op: Op)
    ensures Puts([op]) == if op.Put? then 1 else 0
  {
    assert [op][..0] == [];
  }

  lemma PerformedMore(v: seq<Byte>, n: nat, v': seq<Byte>, n': nat, view: seq<Byte>, n0: nat, ops: seq<Op>, i: nat,
                      block: nat, size: nat)
    requires Performed(v, n, view, n0, ops, i, block, size) && i < |ops|
    requires v' == Effect(v, ops[i]) && n' == n + Puts([ops[i]]) && OpFits(ops[i], block, size)
    ensures Performed(v', n', view, n0, ops, i + 1, block, size)
  {
    var more := ops[..i + 1];
    assert more[..i] == ops[..i] && more[i] == ops[i];
    PutsOne(ops[i]);
    forall k | 0 <= k <= i ensures OpFits(more[k], block, size) {
      if k < i {
        assert more[k] == ops[..i][k];
      }
    }
  }

  /** An operation that could not succeed spoils the whole run. */
  lemma Refused(v: seq<Byte>, n: nat, view: seq<Byte>, n0: nat, ops: seq<Op>, i: nat, block: nat, size: nat)
    requires Performed(v, n, view, n0, ops, i, block, size) && i < |ops|
    ensures AllFit(ops, block, size) && n0 + Puts(ops) <= MAX_SAVED ==>
              OpFits(ops[i], block, size) && n + Puts([ops[i]]) <= MAX_SAVED
  {
    var more := ops[..i + 1];
    assert more[..i] == ops[..i] && more[i] == ops[i];
    PutsOne(ops[i]);
    PutsPrefix(ops, i + 1);
  }

  class Disk {
    const block: nat
    const outcome: nat -> Outcome
    var clock: nat
    var disk: seq<Byte>
    var dirty: bool
    var cached: nat
    const cache: array<Byte>
    var uninstalling: bool
    var journal: seq<Saved>
    ghost const original: seq<Byte>
    ghost var lost: set<int>

    /** A device just opened, its first block read in. */
    constructor (medium: seq<Byte>, size: nat, behaviour: nat -> Outcome)
      requires 512 <= size <= |medium| < 0x8000_0000_0000_0000
      ensures Valid() && fresh(cache) && View() == disk == original == medium && block == size && outcome == behaviour
      ensures journal == [] && lost == {} && clock == 0
    {
      block, outcome, disk, original := size, behaviour, medium, medium;
      clock, dirty, cached, uninstalling, journal, lost := 0, false, 0, false, [], {};
      cache := new Byte[size](i requires 0 <= i < size => medium[i]);
      new;
      assert cache[..] == disk[0..block];
      CleanView();
    }

    /** The medium as a reader of it sees it: through the cache. */
    ghost function View(): (v: seq<Byte>)
      requires Sound()
      reads this, cache
      ensures |v| == |disk|
    {
      if cached == NONE then disk else Patch(disk, Start(cached, block), cache[..])
    }

    ghost predicate Sound()
      reads this, cache
    {
      && 512 <= block && |disk| < 0x8000_0000_0000_0000 && cache.Length == block && |disk| == |original|
      && (cached != NONE ==> Start(cached, block) + block <= |disk|)
      && (!dirty && cached != NONE ==> cache[..] == disk[Start(cached, block)..Start(cached, block) + block])
      && (dirty ==> cached != NONE)
    }

    /**
     * Between operations of an installation: every byte changed so far can be put back from the journal, or is lost.
     */
    ghost predicate Valid()
      reads this, cache
    {
      && Sound() && !uninstalling && |journal| <= MAX_SAVED && JournalFits()
      && Recorded(journal, original, lost) && Settled(disk, View(), original, Touched(journal, lost))
    }

    ghost predicate JournalFits()
      reads this
    {
      EntriesFit(journal, block, |disk|)
    }

    /** Whether the whole blocks the range touches are on the medium. */
    predicate Reaches(loc: nat, count: nat)
      reads this
    {
      count == 0 || Present(loc + count - 1)
    }

    ghost predicate Healthy()
      reads this
    {
      forall t :: t >= clock ==> outcome(t).Done?
    }

    /** None of the transfers made in a while failed. */
    ghost predicate Clean(from: nat, to: nat) {
      forall t :: from <= t < to ==> outcome(t).Done?
    }

    /** At most one of them did. */
    ghost predicate AtMostOne(from: nat, to: nat) {
      forall s, t :: from <= s < to && from <= t < to && !outcome(s).Done? && !outcome(t).Done? ==> s == t
    }

    method Flush() returns (ok: bool)
      requires Sound()
      modifies this`disk, this`dirty, this`clock
      ensures Sound() && View() == old(View()) && clock >= old(clock)
      ensures ok ==> disk == View() && !dirty
      ensures !ok ==> dirty
      ensures Clean(old(clock), clock) ==> ok
      ensures Between(disk, old(disk), View())
    {
      if !dirty {
        CleanView();
        return true;
      }
      var o := outcome(clock);
      clock := clock + 1;
      match o {
        case Done =>
          disk := Patch(disk, Start(cached, block), cache[..]);
          dirty := false;
          ok := true;
        case Fails(landed) =>
          disk := Torn(disk, Start(cached, block), cache[..], landed);
          ok := false;
      }
    }

    lemma CleanView()
      requires Sound() && !dirty
      ensures View() == disk
    {
      if cached != NONE {
        PatchSame(disk, Start(cached, block), block);
      }
    }

    method Fill(b: nat)
      requires cache.Length == block && Start(b, block) + block <= |disk|
      modifies cache
      ensures cache[..] == disk[Start(b, block)..Start(b, block) + block]
    {
      var at := Start(b, block);
      for i := 0 to block
        invariant forall k :: 0 <= k < i ==> cache[k] == disk[at + k]
      {
        cache[i] := disk[at + i];
      }
    }

    /** Brings a block into the cache, writing back the one it replaces. */
    method CacheBlock(b: nat) returns (ok: bool)
      requires Sound() && b < NONE
      modifies this`disk, this`dirty, this`clock, this`cached, cache
      ensures Sound() && View() == old(View()) && clock >= old(clock)
      ensures ok ==> cached == b
      ensures ok ==> Start(b, block) + block <= |disk|
      ensures Clean(old(clock), clock) ==> (ok <==> Start(b, block) + block <= |disk|)
      ensures Between(disk, old(disk), View())
    {
      if cached == b {
        return true;
      }
      if dirty {
        ok := Flush();
        if !ok {
          return;
        }
      }
      CleanView();
      ghost var view := View();
      var o := outcome(clock);
      clock := clock + 1;
      cached := NONE;
      ok := o.Done? && Start(b, block) + block <= |disk|;
      if ok {
        Fill(b);
        cached := b;
        CleanView();
      }
      assert View() == view;
    }

    /** Whether the block holding a byte is wholly on the medium. */
    predicate Present(x: nat)
      reads this
    {
      0 < block && Start(BlockOf(x, block), block) + block <= |disk|
    }

    /** The part of a transfer that falls into its first block, with that block cached. */
    method Prepare(loc: nat, count: nat) returns (ok: bool, offset: nat, chunk: nat)
      requires Sound() && loc <= NONE && count > 0
      modifies this`disk, this`dirty, this`clock, this`cached, cache
      ensures Sound() && View() == old(View()) && clock >= old(clock)
      ensures ok ==> cached != NONE && offset + chunk <= block && Start(cached, block) + offset == loc
      ensures ok ==> 0 < chunk <= count && Present(loc + chunk - 1)
      ensures Clean(old(clock), clock) ==> (ok <==> Present(loc))
      ensures Between(disk, old(disk), View())
    {
      var b;
      b, offset := Locate(loc, block);
      chunk := count;
      ok := CacheBlock(b);
      if ok {
        if chunk > block - offset {
          chunk := block - offset;
        }
        SameBlock(loc, loc + chunk - 1, block);
      }
    }

    /** Reads what of a range falls into its first block. */
    method ReadChunk(loc: nat, count: nat) returns (ok: bool, part: seq<Byte>)
      requires Sound() && loc <= NONE && count > 0
      modifies this`disk, this`dirty, this`clock, this`cached, cache
      ensures Sound() && View() == old(View()) && clock >= old(clock)
      ensures ok ==> 0 < |part| <= count && Present(loc + |part| - 1) && Sees(View(), loc, |part|, part)
      ensures Clean(old(clock), clock) ==> (ok <==> Present(loc))
      ensures Between(disk, old(disk), View())
    {
      var offset, chunk;
      ok, offset, chunk := Prepare(loc, count);
      part := [];
      if ok {
        PatchSlice(disk, Start(cached, block), cache[..], offset, chunk);
        part := cache[offset..offset + chunk];
      }
    }

    /** Part of the way through a read. */
    ghost predicate Reading(disk0: seq<Byte>, view: seq<Byte>, loc: nat, p: nat, buffer: seq<Byte>)
      reads this, cache
    {
      Sound() && View() == view && Reaches(loc, p) && Sees(view, loc, p, buffer) && Between(disk, disk0, view)
    }

    /** Reads the next chunk of a range. */
    method ReadMore(loc: nat, count: nat, progress: nat, buffer: seq<Byte>, ghost disk0: seq<Byte>,
                    ghost view: seq<Byte>)
      returns (ok: bool, part: seq<Byte>)
      requires loc <= NONE && progress < count && Reading(disk0, view, loc, progress, buffer)
      modifies this`disk, this`dirty, this`clock, this`cached, cache
      ensures clock >= old(clock)
      ensures ok ==> 0 < |part| <= count - progress && Reading(disk0, view, loc, progress + |part|, buffer + part)
      ensures !ok ==> Reading(disk0, view, loc, progress, buffer)
      ensures Clean(old(clock), clock) ==> (ok <==> Present(loc + progress))
    {
      ok, part := ReadChunk(loc + progress, count - progress);
      if ok {
        SeesMore(view, loc, progress, buffer, |part|, part);
      }
    }

    /** A read through the cache is a read of the medium as it is seen. */
    method Read(loc: nat, count: nat) returns (ok: bool, buffer: seq<Byte>)
      requires Sound() && loc <= NONE
      modifies this`disk, this`dirty, this`clock, this`cached, cache
      ensures Sound() && View() == old(View()) && clock >= old(clock)
      ensures ok ==> Reaches(loc, count) && Sees(View(), loc, count, buffer)
      ensures Clean(old(clock), clock) ==> (ok <==> Reaches(loc, count))
      ensures Between(disk, old(disk), View())
    {
      ghost var p;
      ok, buffer, p := ReadAll(loc, count, disk, View());
    }

    /** The reading loop: block by block through the cache. */
    method ReadAll(loc: nat, count: nat, ghost disk0: seq<Byte>, ghost view: seq<Byte>)
      returns (ok: bool, buffer: seq<Byte>, ghost p: nat)
      requires loc <= NONE && Reading(disk0, view, loc, 0, [])
      modifies this`disk, this`dirty, this`clock, this`cached, cache
      ensures clock >= old(clock) && Reading(disk0, view, loc, p, buffer)
      ensures ok ==> p == count
      ensures Clean(old(clock), clock) ==> (ok <==> Reaches(loc, count))
    {
      buffer := [];
      var progress := 0;
      while progress < count
        invariant progress <= count && clock >= old(clock) && Reading(disk0, view, loc, progress, buffer)
      {
        var part;
        ok, part := ReadMore(loc, count, progress, buffer, disk0, view);
        if !ok {
          BlockOrder(loc + progress, loc + count - 1, block);
          p := progress;
          return;
        }
        buffer := buffer + part;
        progress := progress + |part|;
      }
      p := progress;
      ok := true;
    }

    /** Replaces the cached part of a block. */
    method Overwrite(offset: nat, data: seq<Byte>, ghost loc: nat)
      requires Sound() && cached != NONE && offset + |data| <= block && loc == Start(cached, block) + offset
      modifies this`dirty, cache
      ensures Sound() && loc + |data| <= |disk|
      ensures View() == Patch(old(View()), loc, data)
    {
      ghost var before := cache[..];
      for i := 0 to |data|
        invariant forall k :: 0 <= k < block ==>
                    cache[k] == if Inside(offset, i, k) then data[k - offset] else before[k]
      {
        cache[offset + i] := data[i];
      }
      dirty := true;
      assert cache[..] == Patch(before, offset, data);
      PatchWithin(disk, Start(cached, block), before, offset, data);
    }

    /** Part of the way through a write. */
    ghost predicate Storing(disk0: seq<Byte>, view0: seq<Byte>, loc: nat, data: seq<Byte>, p: nat)
      reads this, cache
    {
      && Sound() && Written(View(), view0, loc, data, p) && Reaches(loc, p)
      && Spread(disk, disk0, view0, loc, p)
    }

    /** Writes what of the rest of a range falls into its first block. */
    method StoreChunk(data: seq<Byte>, loc: nat, progress: nat, ghost disk0: seq<Byte>, ghost view0: seq<Byte>)
      returns (ok: bool, chunk: nat)
      requires loc <= NONE && progress < |data| && Storing(disk0, view0, loc, data, progress)
      modifies this`disk, this`dirty, this`clock, this`cached, cache
      ensures clock >= old(clock)
      ensures ok ==> chunk > 0 && Storing(disk0, view0, loc, data, progress + chunk)
      ensures !ok ==> Storing(disk0, view0, loc, data, progress)
      ensures Clean(old(clock), clock) ==> (ok <==> Present(loc + progress))
    {
      ghost var view := View();
      var offset;
      ok, offset, chunk := Prepare(loc + progress, |data| - progress);
      SpreadMore(old(disk), disk, disk0, view0, view, loc, data, progress);
      if ok {
        StoreCached(data, loc, progress, offset, chunk, disk0, view0);
      }
    }

    method StoreCached(data: seq<Byte>, loc: nat, progress: nat, offset: nat, chunk: nat, ghost disk0: seq<Byte>,
                       ghost view0: seq<Byte>)
      requires Storing(disk0, view0, loc, data, progress)
      requires cached != NONE && offset + chunk <= block && Start(cached, block) + offset == loc + progress
      requires 0 < chunk <= |data| - progress && Reaches(loc, progress + chunk)
      modifies this`dirty, cache
      ensures Storing(disk0, view0, loc, data, progress + chunk)
    {
      ghost var disk1, view, part := disk, View(), data[progress..progress + chunk];
      Overwrite(offset, data[progress..progress + chunk], loc + progress);
      ghost var view' := View();
      assert view' == Patch(view, loc + progress, part);
      StoredMore(disk1, view, view', disk0, view0, loc, data, progress, progress + chunk);
    }

    /** The writing loop: block by block through the cache. */
    method Store(data: seq<Byte>, loc: nat) returns (ok: bool, ghost p: nat)
      requires Sound() && loc <= NONE
      modifies this`disk, this`dirty, this`clock, this`cached, cache
      ensures clock >= old(clock) && Storing(old(disk), old(View()), loc, data, p)
      ensures ok <==> p == |data|
      ensures Clean(old(clock), clock) ==> (ok <==> Reaches(loc, |data|))
    {
      var progress := 0;
      ghost var disk0, view0 := disk, View();
      while progress < |data|
        invariant progress <= |data| && clock >= old(clock) && Storing(disk0, view0, loc, data, progress)
      {
        var chunk;
        ok, chunk := StoreChunk(data, loc, progress, disk0, view0);
        if !ok {
          BlockOrder(loc + progress, loc + |data| - 1, block);
          p := progress;
          return;
        }
        progress := progress + chunk;
      }
      p := progress;
      ok := true;
    }

    /** A write of the installer. A completed one is in the journal; an interrupted one loses the bytes it reached. */
    method Write(data: seq<Byte>, loc: nat) returns (ok: bool, ghost p: nat)
      requires Valid() && loc <= NONE
      modifies this, cache
      ensures Valid() && clock >= old(clock) && Written(View(), old(View()), loc, data, p)
      ensures ok ==> p == |data| && lost == old(lost) && Reaches(loc, |data|)
      ensures ok ==> |journal| == |old(journal)| + 1 && journal[..|old(journal)|] == old(journal)
      ensures ok ==> journal[|old(journal)|].loc == loc
                     && Sees(old(View()), loc, |data|, journal[|old(journal)|].data)
      ensures !ok ==> journal == old(journal) && lost == old(lost) + Range(loc, p)
      ensures old(Healthy()) ==> (ok <==> |old(journal)| < MAX_SAVED && Reaches(loc, |data|)) && (!ok ==> p == 0)
    {
      p := 0;
      if |journal| >= MAX_SAVED {
        return false, 0;
      }
      ghost var view := View();
      var saved;
      ok, saved := Read(loc, |data|);
      StaysSettled(old(disk), disk, view, original, Touched(journal, lost));
      if !ok {
        return;
      }
      ok, p := StoreSaved(data, loc, Saved(saved, loc));
    }

    /** The write proper, and its entry in the journal once it is complete. */
    method StoreSaved(data: seq<Byte>, loc: nat, e: Saved) returns (ok: bool, ghost p: nat)
      requires Valid() && loc <= NONE && |journal| < MAX_SAVED && Reaches(loc, |data|)
      requires e.loc == loc && |e.data| == |data| && Sees(View(), loc, |data|, e.data)
      modifies this, cache
      ensures Valid() && clock >= old(clock) && Written(View(), old(View()), loc, data, p)
      ensures ok ==> p == |data| && journal == old(journal) + [e] && lost == old(lost)
      ensures !ok ==> journal == old(journal) && lost == old(lost) + Range(loc, p)
      ensures old(Healthy()) ==> ok
    {
      ghost var disk0, view := disk, View();
      ok, p := Store(data, loc);
      if ok {
        Keep(e, data, loc, disk0, view);
      } else {
        Lose(data, loc, p, disk0, view);
      }
    }

    /** A completed write goes into the journal. */
    method Keep(e: Saved, data: seq<Byte>, loc: nat, ghost disk0: seq<Byte>, ghost view: seq<Byte>)
      requires !uninstalling && |journal| < MAX_SAVED && JournalFits() && loc <= NONE && |disk0| == |view| == |disk|
      requires e.loc == loc && |e.data| == |data| && Sees(view, loc, |data|, e.data)
      requires Storing(disk0, view, loc, data, |data|)
      requires Recorded(journal, original, lost) && Settled(disk0, view, original, Touched(journal, lost))
      modifies this`journal
      ensures Valid() && journal == old(journal) + [e]
    {
      KeepSettles(disk0, disk, view, View(), original, journal, lost, e, data);
      EntriesFitMore(journal, e, block, |disk|);
      journal := journal + [e];
    }

    /** An interrupted write loses the bytes it reached. */
    method Lose(data: seq<Byte>, loc: nat, ghost p: nat, ghost disk0: seq<Byte>, ghost view: seq<Byte>)
      requires !uninstalling && |journal| <= MAX_SAVED && JournalFits() && |disk0| == |view| == |disk|
      requires Storing(disk0, view, loc, data, p)
      requires Recorded(journal, original, lost) && Settled(disk0, view, original, Touched(journal, lost))
      modifies this`lost
      ensures Valid() && lost == old(lost) + Range(loc, p)
    {
      lost := lost + Range(loc, p);
      LosingRecords(journal, original, old(lost), lost);
      WriteSettles(disk0, disk, view, View(), original, Touched(journal, old(lost)), Touched(journal, lost), loc, data,
                   p);
    }

    /** Newest entry first, as the installer leaves the journal. */
    method ReverseJournal()
      requires Valid()
      modifies this`journal
      ensures journal == Reversed(old(journal)) && Undoable()
    {
      ReversedRecords(journal, original, lost);
      var reversed := ReverseLoop(journal);
      journal := reversed;
    }

    /** The journal, newest entry first, can put every byte back whatever the cache holds. */
    ghost predicate Undoable()
      reads this, cache
    {
      && Sound() && JournalFits() && RecordedReversed(journal, original, lost)
      && Restored(disk, original, lost, journal)
    }

    method DropCache()
      requires Sound()
      modifies this`dirty, this`cached
      ensures Sound() && View() == disk
    {
      dirty, cached := false, NONE;
    }

    /** Replays one entry, once more if the first try fails. */
    method Replay(i: nat) returns (wrote: bool, flushed: bool)
      requires Sound() && JournalFits() && RecordedReversed(journal, original, lost) && i < |journal|
      modifies this`disk, this`dirty, this`clock, this`cached, cache
      ensures Sound() && clock >= old(clock)
      ensures wrote && flushed && Restored(old(View()), original, lost, journal[i..]) ==>
                Restored(View(), original, lost, journal[i + 1..])
      ensures AtMostOne(old(clock), clock) ==> wrote && flushed
    {
      var e := journal[i];
      ghost var p;
      flushed := true;
      wrote, p := Store(e.data, e.loc);
      if !wrote {
        if Restored(old(View()), original, lost, journal[i..]) {
          RestoreAgain(old(View()), View(), original, lost, journal, i, p);
        }
        flushed := Flush();
        DropCache();
        ghost var view := View();
        wrote, p := Store(e.data, e.loc);
        if Restored(view, original, lost, journal[i..]) && wrote {
          RestoreStep(view, View(), original, lost, journal, i);
        }
      } else if Restored(old(View()), original, lost, journal[i..]) {
        RestoreStep(old(View()), View(), original, lost, journal, i);
      }
    }

    /** No entry met more than one failure: the transfers for entry i are those from starts[i] on. */
    ghost predicate Recovers(starts: seq<nat>) {
      forall i :: 0 <= i < |starts| - 1 ==> AtMostOne(starts[i], starts[i + 1])
    }

    lemma RecoversMore(starts: seq<nat>, next: nat)
      requires starts != []
      ensures Recovers(starts + [next]) <==> Recovers(starts) && AtMostOne(starts[|starts| - 1], next)
    {
      var more, n := starts + [next], |starts| - 1;
      if Recovers(more) {
        forall i | 0 <= i < n ensures AtMostOne(starts[i], starts[i + 1]) {
          assert AtMostOne(more[i], more[i + 1]);
        }
        assert AtMostOne(more[n], more[n + 1]);
      }
    }

    /**
     * The undo: drop the cache, replay the journal, flush. If it reports success the medium is the original one; and it
     * does so whenever no entry met more than one failure and the last flush met none.
     */
    method Uninstall() returns (ret: bool, ghost starts: seq<nat>)
      requires Undoable()
      modifies this`disk, this`dirty, this`clock, this`cached, this`uninstalling, cache
      ensures Sound() && (ret ==> Restored(disk, original, lost, []))
      ensures |starts| == |journal| + 1 && starts[0] == old(clock) && starts[|journal|] <= clock
      ensures Recovers(starts) && Clean(starts[|journal|], clock) ==> ret
      ensures old(Healthy()) ==> ret
    {
      uninstalling := true;
      DropCache();
      var writeFail, flushFail;
      writeFail, flushFail, starts := ReplayAll();
      var ok := Flush();
      if !ok {
        flushFail := true;
      }
      ret := !writeFail && !flushFail;
    }

    /** The replay of the whole journal. */
    method ReplayAll() returns (writeFail: bool, flushFail: bool, ghost starts: seq<nat>)
      requires Sound() && JournalFits() && RecordedReversed(journal, original, lost)
      requires Restored(View(), original, lost, journal)
      modifies this`disk, this`dirty, this`clock, this`cached, cache
      ensures Sound() && clock >= old(clock)
      ensures !flushFail && !writeFail ==> Restored(View(), original, lost, [])
      ensures |starts| == |journal| + 1 && starts[0] == old(clock) && starts[|journal|] == clock
      ensures Recovers(starts) ==> !flushFail && !writeFail
      ensures old(Healthy()) ==> Recovers(starts)
    {
      writeFail, flushFail, starts := false, false, [clock];
      var i := 0;
      assert journal[0..] == journal;
      while i < |journal|
        invariant i <= |journal| && Sound() && JournalFits() && clock >= old(clock)
        invariant !flushFail && !writeFail ==> Restored(View(), original, lost, journal[i..])
        invariant |starts| == i + 1 && starts[0] == old(clock) && starts[i] == clock
        invariant Recovers(starts) ==> !flushFail && !writeFail
        invariant old(Healthy()) ==> Recovers(starts)
      {
        ghost var before := starts;
        var wrote, flushed := Replay(i);
        starts := starts + [clock];
        RecoversMore(before, clock);
        writeFail, flushFail := writeFail || !wrote, flushFail || !flushed;
        i := i + 1;
      }
      assert journal[|journal|..] == [];
    }

    /**
     * The failed installation's way out: whatever was completed is undone, even from a cache that never reached the
     * medium.
     */
    method Rollback() returns (ret: bool)
      requires Valid()
      modifies this, cache
      ensures |disk| == |original|
      ensures ret ==> forall x :: 0 <= x < |disk| && x !in old(lost) ==> disk[x] == original[x]
      ensures ret && old(lost) == {} ==> disk == original
      ensures old(Healthy()) ==> ret
    {
      ReverseJournal();
      ghost var starts;
      ret, starts := Uninstall();
    }

    /** A read between writes; the journal still undoes everything. */
    method Fetch(loc: nat, count: nat) returns (ok: bool, buffer: seq<Byte>)
      requires Valid() && loc <= NONE
      modifies this`disk, this`dirty, this`clock, this`cached, cache
      ensures Valid() && View() == old(View()) && clock >= old(clock)
      ensures ok ==> Sees(View(), loc, count, buffer) && Fits(block, |original|, loc, count)
      ensures old(Healthy()) ==> (ok <==> Fits(block, |original|, loc, count))
    {
      ghost var view := View();
      ok, buffer := Read(loc, count);
      StaysSettled(old(disk), disk, view, original, Touched(journal, lost));
    }

    /** One operation of an installation. */
    method Perform(op: Op) returns (ok: bool)
      requires Valid() && op.loc <= NONE
      modifies this, cache
      ensures Valid() && clock >= old(clock)
      ensures ok ==> View() == Effect(old(View()), op) && lost == old(lost) && |journal| == |old(journal)| + Puts([op])
      ensures ok ==> OpFits(op, block, |original|)
      ensures !ok ==> old(lost) <= lost <= old(lost) + Range(op.loc, Extent(op))
      ensures old(Healthy()) ==> lost == old(lost)
      ensures old(Healthy()) ==> (ok <==> OpFits(op, block, |original|) && |old(journal)| + Puts([op]) <= MAX_SAVED)
    {
      match op {
        case Get(loc, count) =>
          var buffer;
          ok, buffer := Fetch(loc, count);
        case Put(loc, data) =>
          ghost var p;
          ok, p := Write(data, loc);
          assert data[..|data|] == data;
      }
    }

    /** The operations in turn, up to the first failure, which on a healthy device is one that was bound to fail. */
    method PerformAll(ops: seq<Op>) returns (ok: bool, ghost broken: Op)
      requires Valid() && lost == {}
      requires forall k :: 0 <= k < |ops| ==> ops[k].loc <= NONE
      modifies this, cache
      ensures Valid() && clock >= old(clock)
      ensures ok ==> View() == Effects(old(View()), ops) && lost == {} && |journal| == |old(journal)| + Puts(ops)
      ensures ok ==> AllFit(ops, block, |original|)
      ensures lost <= Range(broken.loc, Extent(broken))
      ensures old(Healthy()) ==> lost == {}
      ensures old(Healthy()) ==> (ok <==> AllFit(ops, block, |original|) && |old(journal)| + Puts(ops) <= MAX_SAVED)
    {
      broken := Get(0, 0);
      ghost var view := View();
      var i := 0;
      while i < |ops|
        invariant i <= |ops| && Valid() && clock >= old(clock) && lost == {}
        invariant Performed(View(), |journal|, view, |old(journal)|, ops, i, block, |original|)
      {
        ghost var v, n := View(), |journal|;
        ok := Perform(ops[i]);
        if !ok {
          broken := ops[i];
          Refused(v, n, view, |old(journal)|, ops, i, block, |original|);
          return;
        }
        PerformedMore(v, n, View(), |journal|, view, |old(journal)|, ops, i, block, |original|);
        i := i + 1;
      }
      assert ops[..i] == ops;
      ok := true;
    }

    /** Writes the cache back; the journal still undoes everything. */
    method Commit() returns (ok: bool)
      requires Valid()
      modifies this`disk, this`dirty, this`clock
      ensures Valid() && View() == old(View()) && clock >= old(clock)
      ensures ok ==> disk == View()
      ensures old(Healthy()) ==> ok
    {
      ghost var view := View();
      ok := Flush();
      StaysSettled(old(disk), disk, view, original, Touched(journal, lost));
    }

    /**
     * A whole installation: the operations in turn, a flush, and a roll-back on the first failure.
     * On a healthy device it is all or nothing.
     */
    method Install(ops: seq<Op>) returns (ok: bool, restored: bool, ghost broken: Op)
      requires Valid() && View() == original && lost == {}
      requires forall k :: 0 <= k < |ops| ==> ops[k].loc <= NONE
      modifies this, cache
      ensures |disk| == |original|
      ensures ok ==> disk == Effects(original, ops)
      ensures old(Healthy()) ==> (ok <==> AllFit(ops, block, |original|) && |old(journal)| + Puts(ops) <= MAX_SAVED)
      ensures !ok && restored ==>
                forall x :: 0 <= x < |disk| && !Inside(broken.loc, Extent(broken), x) ==> disk[x] == original[x]
      ensures old(Healthy()) && !ok ==> restored && disk == original
    {
      restored := false;
      ok, broken := PerformAll(ops);
      if ok {
        ok := Commit();
      }
      if !ok {
        restored := Rollback();
      }
    }
  }

  // ---------------------------------------------------------------- the end of the medium

  /** Whether the last byte of a logical block can be read; an offset past 64 bits cannot. */
  predicate Probe(size: nat, b: nat, lb: nat) {
    Start(b, lb) <= NONE && Start(b, lb) + lb - 1 <= NONE && Start(b, lb) + lb - 1 < size
  }

  lemma {:induction false} ProbeBelow(size: nat, a: nat, b: nat, lb: nat)
    requires a <= b && Probe(size, b, lb)
    ensures Probe(size, a, lb)
    decreases b
  {
    if a < b {
      ProbeBelow(size, a, b - 1, lb);
    }
  }

  /** Doubling past the end and halving back finds the last whole block, whatever the size of the medium. */
  method LastBlock(size: nat, lb: nat) returns (found: bool, last: nat)
    requires 2 <= lb && size < 0x8000_0000_0000_0000
    ensures found <==> lb <= size
    ensures found ==> forall b: nat :: Probe(size, b, lb) <==> b <= last
  {
    var lo: nat, hi: nat := 0, 1;
    last := 0;
    if !Probe(size, 0, lb) {
      return false, 0;
    }
    while Probe(size, hi, lb)
      invariant lo < hi && Probe(size, lo, lb)
      decreases size - hi
    {
      StartGrows(hi, lb);
      lo := hi;
      if hi > 0xffff_ffff_ffff_ffff / 2 {
        found := false;
        return;
      }
      hi := hi * 2;
    }
    while lo + 1 < hi
      invariant lo < hi && Probe(size, lo, lb) && !Probe(size, hi, lb)
    {
      var mid := lo + (hi - lo) / 2;
      if Probe(size, mid, lb) {
        lo := mid;
      } else {
        hi := mid;
      }
    }
    forall b: nat ensures Probe(size, b, lb) <==> b <= lo {
      if b <= lo {
        ProbeBelow(size, b, lo, lb);
      } else if Probe(size, b, lb) {
        ProbeBelow(size, hi, b, lb);
      }
    }
    return true, lo;
  }
}
