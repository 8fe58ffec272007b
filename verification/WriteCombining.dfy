/**
 * Write combining for the framebuffer in the firmware's own page tables: large pages are split, leaves retyped, and
 * every firmware slot written is logged so that all of it can be taken back.
 */
module WriteCombining {
  import opened PageTables

  const MAX_SAVED: nat := 1024
  const WC: nat := 1
  const ALL: set<nat> := {0, 1, 2, 3, 4, 5, 6, 7}

  /** A logged slot: entry index of a table, and what it held. */
  datatype Saved = Saved(table: nat, index: nat, value: Entry)

  /** What a slot holds once the log is played back, newest first, over its present value. */
  function Value(log: seq<Saved>, t: nat, i: nat, now: Entry): Entry {
    if log == [] then now
    else
      var last := log[|log| - 1];
      Value(log[..|log| - 1], t, i, if last.table == t && last.index == i then last.value else now)
  }

  lemma ValueSaved(log: seq<Saved>, s: Saved, t: nat, i: nat, now: Entry)
    ensures Value(log + [s], t, i, now) == Value(log, t, i, if s.table == t && s.index == i then s.value else now)
  {
    assert (log + [s])[..|log|] == log;
  }

  // ---------------------------------------------------------------- what retyping does to one address

  /** What the walk is to do: the pages from base to end get type wc, with gigabyte pages if there are such. */
  datatype Job = Job(base: nat, end: nat, wc: nat, gib: bool)

  /** The pages of a framebuffer, in part or in whole. */
  function JobOf(base: nat, size: nat, wc: nat, gib: bool): Job {
    Job(base / 0x1000, (base + size + 0xfff) / 0x1000, wc, gib)
  }

  /** The page holds a byte of the range. */
  predicate Meets(page: nat, base: nat, size: nat) {
    size > 0 && page * 0x1000 < base + size && base < (page + 1) * 0x1000
  }

  /** The job's pages are exactly those that hold a byte of the framebuffer. */
  lemma JobPages(base: nat, size: nat, wc: nat, gib: bool, page: nat)
    requires size > 0
    ensures var job := JobOf(base, size, wc, gib); job.base <= page < job.end <==> Meets(page, base, size)
    ensures Meets(page, base, size) <==> exists a :: base <= a < base + size && a / 0x1000 == page
  {
    if Meets(page, base, size) {
      var a := if base < page * 0x1000 then page * 0x1000 else base;
      assert base <= a < base + size && a / 0x1000 == page;
    }
  }

  /** A slot that becomes a leaf: wholly in the range, and of a size leaves come in. */
  predicate Retypes(lvl: nat, va: nat, job: Job) {
    Level(lvl) && lvl <= 3 && (lvl < 3 || job.gib) && job.base <= va && va + At(1, lvl) <= job.end
  }

  /** Whether the page is mapped through a table that gives way to a leaf. */
  function Replaced(mem: Memory, t: nat, path: seq<nat>, tva: nat, job: Job): bool
    requires Path(path)
    decreases |path|, 1
  {
    path != [] && t in mem && |mem[t]| == 512
    && ReplacedEntry(mem, mem[t][path[0]], |path|, path[1..], tva + At(path[0], |path|), job)
  }

  function ReplacedEntry(mem: Memory, e: Entry, lvl: nat, rest: seq<nat>, va: nat, job: Job): bool
    requires Path(rest) && lvl == |rest| + 1
    decreases |rest|, 2
  {
    IsTable(e, lvl) && (Retypes(lvl, va, job) || Replaced(mem, e.frame, rest, va, job))
  }

  lemma {:induction false} ReplacedKept(mem: Memory, mem': Memory, t: nat, path: seq<nat>, tva: nat, job: Job)
    requires Path(path) && Tree(mem, t, |path|) && Agree(mem, mem', Owned(mem, t, |path|))
    ensures Replaced(mem', t, path, tva, job) == Replaced(mem, t, path, tva, job)
    decreases |path|, 1
  {
    assert t in Owned(mem, t, |path|);
    if path != [] {
      var e := mem[t][path[0]];
      assert Grows(mem, e, |path|);
      assert forall x :: x in Below(mem, e, |path|) ==> x in Owned(mem, t, |path|);
      ReplacedEntryKept(mem, mem', e, |path|, path[1..], tva + At(path[0], |path|), job);
    }
  }

  lemma {:induction false} ReplacedEntryKept(mem: Memory, mem': Memory, e: Entry, lvl: nat, rest: seq<nat>, va: nat,
                                             job: Job)
    requires Path(rest) && lvl == |rest| + 1 && Grows(mem, e, lvl) && Agree(mem, mem', Below(mem, e, lvl))
    ensures ReplacedEntry(mem', e, lvl, rest, va, job) == ReplacedEntry(mem, e, lvl, rest, va, job)
    decreases |rest|, 2
  {
    if lvl > 1 && IsTable(e, lvl) {
      ReplacedKept(mem, mem', e.frame, rest, va, job);
    }
  }

  /**
   * A mapping keeps its rights, unless the table it went through gave way: then, and for a page not mapped before, user
   * mode has no access, and otherwise no right is lost.
   */
  predicate Rights(m: Mapping, m': Mapping, replaced: bool)
    requires m'.Mapped?
  {
    if m.Mapped? && !replaced then m'.rw == m.rw && m'.us == m.us && m'.nx == m.nx
    else !m'.us && (m.Mapped? ==> (m.rw ==> m'.rw) && (m'.nx ==> m.nx))
  }

  /**
   * Off the range the mapping is kept. On it, the page is mapped with the given type and rights as above, where it was
   * before or, if it was not mapped or its table gave way, to its own address; or, with the log full, it is kept.
   */
  predicate Effect(m: Mapping, m': Mapping, va: nat, job: Job, replaced: bool, full: bool) {
    if job.base <= va < job.end then
      || (full && m' == m)
      || (&& m'.Mapped? && m'.pat == job.wc && Rights(m, m', replaced)
          && m'.frame == if m.Mapped? && !replaced then m.frame else va)
    else m' == m
  }

  ghost predicate Remapped(mem: Memory, mem': Memory, t: nat, lvl: nat, tva: nat, job: Job, full: bool) {
    forall path :: Path(path) && |path| == lvl ==>
      Effect(Walk(mem, t, path), Walk(mem', t, path), tva + Page(path), job, Replaced(mem, t, path, tva, job), full)
  }

  ghost predicate EntryRemapped(mem: Memory, e: Entry, mem': Memory, e': Entry, lvl: nat, va: nat, job: Job, full: bool)
    requires Level(lvl)
  {
    forall rest :: Path(rest) && |rest| + 1 == lvl ==>
      Effect(WalkEntry(mem, e, lvl, rest), WalkEntry(mem', e', lvl, rest), va + Page(rest), job,
             ReplacedEntry(mem, e, lvl, rest, va, job), full)
  }

  /** The entries before i are retyped, the rest still as they were. */
  ghost predicate Progress(mem: Memory, mem': Memory, t: nat, lvl: nat, i: nat, tva: nat, job: Job, full: bool)
    requires Level(lvl)
  {
    forall path :: Path(path) && |path| == lvl ==>
      if path[0] < i then
        Effect(Walk(mem, t, path), Walk(mem', t, path), tva + Page(path), job, Replaced(mem, t, path, tva, job), full)
      else
        && Walk(mem', t, path) == Walk(mem, t, path)
        && Replaced(mem', t, path, tva, job) == Replaced(mem, t, path, tva, job)
  }

  // ---------------------------------------------------------------- new entries

  /** The address of slot k of a level is aligned to the level's leaf size. */
  lemma SlotAligned(k: nat, lvl: nat)
    requires 1 <= lvl <= 3
    ensures Base(At(k, lvl), lvl) == At(k, lvl)
  {
  }

  lemma SlotNumber(k: nat, i: nat, lvl: nat)
    requires Level(lvl)
    ensures At(512 * k, lvl) + At(i, lvl) == At(512 * k + i, lvl)
  {
  }

  /** A leaf of the given frame, rights and type. */
  predicate Leaf(n: Entry, lvl: nat, frame: nat, rw: bool, us: bool, nx: bool, pat: nat) {
    && n.p && IsLeaf(n, lvl) && Base(n.frame, lvl) == frame
    && n.rw == rw && n.us == us && n.nx == nx && PatIndex(n, lvl == 1) == pat
  }

  function MakeLeaf(frame: nat, lvl: nat, rw: bool, us: bool, nx: bool, pat: nat): Entry
    requires pat < 8
  {
    SetPat(Entry(true, rw, us, false, false, lvl >= 2, frame, nx, 0), pat, lvl == 1)
  }

  lemma LowBitFree(frame: nat, lvl: nat, bit: nat)
    requires 2 <= lvl <= 3 && Base(frame, lvl) == frame && bit <= 1
    ensures frame % 2 == 0 && Base(frame + bit, lvl) == frame
  {
    if lvl == 2 {
      assert frame == 512 * (frame / 512);
    } else {
      assert frame == 0x4_0000 * (frame / 0x4_0000);
    }
  }

  /** Setting the PAT bit of a leaf leaves its frame. */
  lemma MakesLeaf(frame: nat, lvl: nat, rw: bool, us: bool, nx: bool, pat: nat)
    requires pat < 8 && 1 <= lvl <= 3 && Base(frame, lvl) == frame
    ensures Leaf(MakeLeaf(frame, lvl, rw, us, nx, pat), lvl, frame, rw, us, nx, pat)
  {
    if lvl > 1 {
      LowBitFree(frame, lvl, 0);
      LowBitFree(frame, lvl, 1);
    }
  }

  /** The retyped leaf for a slot that lies wholly in the range. */
  function Retyped(e: Entry, lvl: nat, va: nat, wc: nat): Entry
    requires wc < 8
  {
    if e.p && IsLeaf(e, lvl) then MakeLeaf(Base(e.frame, lvl), lvl, e.rw, e.us, e.nx, wc)
    else MakeLeaf(va, lvl, true, false, false, wc)
  }

  lemma RetypedLeaf(e: Entry, lvl: nat, k: nat, wc: nat)
    requires wc < 8 && 1 <= lvl <= 3
    ensures var n := Retyped(e, lvl, At(k, lvl), wc);
            if e.p && IsLeaf(e, lvl) then Leaf(n, lvl, Base(e.frame, lvl), e.rw, e.us, e.nx, wc)
            else Leaf(n, lvl, At(k, lvl), true, false, false, wc)
  {
    if e.p && IsLeaf(e, lvl) {
      MakesLeaf(Base(e.frame, lvl), lvl, e.rw, e.us, e.nx, wc);
    } else {
      SlotAligned(k, lvl);
      MakesLeaf(At(k, lvl), lvl, true, false, false, wc);
    }
  }

  lemma RetypedMaps(mem: Memory, mem': Memory, e: Entry, n: Entry, lvl: nat, va: nat, job: Job, full: bool)
    requires job.wc < 8 && Retypes(lvl, va, job)
    requires if e.p && IsLeaf(e, lvl) then Leaf(n, lvl, Base(e.frame, lvl), e.rw, e.us, e.nx, job.wc)
             else Leaf(n, lvl, va, true, false, false, job.wc)
    ensures EntryRemapped(mem, e, mem', n, lvl, va, job, full)
  {
  }

  function Pointer(child: nat): Entry {
    Entry(true, true, true, false, false, false, child, false, 0)
  }

  /** Entry i of the table a large leaf is split into. */
  function SplitEntry(e: Entry, lvl: nat, i: nat): Entry
    requires 2 <= lvl <= 3
  {
    MakeLeaf(Base(e.frame, lvl) + At(i, lvl - 1), lvl - 1, e.rw, e.us, e.nx, PatIndex(e, false))
  }

  lemma SplitEntryLeaf(e: Entry, lvl: nat, i: nat)
    requires 2 <= lvl <= 3
    ensures Leaf(SplitEntry(e, lvl, i), lvl - 1, Base(e.frame, lvl) + At(i, lvl - 1), e.rw, e.us, e.nx,
                 PatIndex(e, false))
  {
    MakesLeaf(Base(e.frame, lvl) + At(i, lvl - 1), lvl - 1, e.rw, e.us, e.nx, PatIndex(e, false));
  }

  /** The table of a split leaf maps every page below it as the leaf did. */
  lemma SplitMaps(mem: Memory, e: Entry, lvl: nat, child: nat, rest: seq<nat>)
    requires 2 <= lvl <= 3 && e.p && e.b7 && Path(rest) && |rest| == lvl - 1
    requires child in mem && |mem[child]| == 512
    requires Leaf(mem[child][rest[0]], lvl - 1, Base(e.frame, lvl) + At(rest[0], lvl - 1), e.rw, e.us, e.nx,
                  PatIndex(e, false))
    ensures WalkEntry(mem, Pointer(child), lvl, rest) == WalkEntry(mem, e, lvl, rest)
  {
    var c := mem[child][rest[0]];
    assert Page(rest) == At(rest[0], lvl - 1) + Page(rest[1..]);
    assert WalkEntry(mem, c, lvl - 1, rest[1..]) == WalkEntry(mem, e, lvl, rest);
    assert Walk(mem, child, rest) == WalkEntry(mem, c, lvl - 1, rest[1..]);
  }

  lemma EmptyMaps(mem: Memory, e: Entry, lvl: nat, child: nat, rest: seq<nat>)
    requires 2 <= lvl <= 5 && !e.p && Path(rest) && |rest| == lvl - 1
    requires child in mem && |mem[child]| == 512 && forall i :: 0 <= i < 512 ==> mem[child][i] == EMPTY
    ensures WalkEntry(mem, Pointer(child), lvl, rest) == WalkEntry(mem, e, lvl, rest)
  {
    assert Walk(mem, child, rest) == WalkEntry(mem, EMPTY, lvl - 1, rest[1..]);
  }

  // ---------------------------------------------------------------- the walk over the tables

  lemma EffectUnder(e: Entry, m: Mapping, m': Mapping, va: nat, job: Job, replaced: bool, full: bool)
    requires e.p && Effect(m, m', va, job, replaced, full)
    ensures Effect(Under(e, m), Under(e, m'), va, job, replaced, full)
  {
  }

  /** Retyping the table below an entry retypes the entry. */
  lemma TableRemapped(mem: Memory, mem': Memory, e: Entry, lvl: nat, va: nat, job: Job, full: bool)
    requires Level(lvl) && lvl > 1 && IsTable(e, lvl) && !Retypes(lvl, va, job)
    requires Remapped(mem, mem', e.frame, lvl - 1, va, job, full)
    ensures EntryRemapped(mem, e, mem', e, lvl, va, job, full)
  {
    forall rest | Path(rest) && |rest| + 1 == lvl
      ensures Effect(WalkEntry(mem, e, lvl, rest), WalkEntry(mem', e, lvl, rest), va + Page(rest), job,
                     ReplacedEntry(mem, e, lvl, rest, va, job), full)
    {
      EffectUnder(e, Walk(mem, e.frame, rest), Walk(mem', e.frame, rest), va + Page(rest), job,
                  Replaced(mem, e.frame, rest, va, job), full);
    }
  }

  /** The same for an entry whose table is new and maps what the entry did. */
  lemma NewTableRemapped(mem0: Memory, e: Entry, mem: Memory, mem': Memory, child: nat, lvl: nat, va: nat, job: Job,
                         full: bool)
    requires Level(lvl) && lvl > 1 && !IsTable(e, lvl) && !Retypes(lvl, va, job) && Flat(mem, child, lvl - 1)
    requires Remapped(mem, mem', child, lvl - 1, va, job, full)
    requires forall rest :: Path(rest) && |rest| + 1 == lvl ==>
               WalkEntry(mem, Pointer(child), lvl, rest) == WalkEntry(mem0, e, lvl, rest)
    ensures EntryRemapped(mem0, e, mem', Pointer(child), lvl, va, job, full)
  {
    TableRemapped(mem, mem', Pointer(child), lvl, va, job, full);
    forall rest | Path(rest) && |rest| + 1 == lvl
      ensures Effect(WalkEntry(mem0, e, lvl, rest), WalkEntry(mem', Pointer(child), lvl, rest), va + Page(rest), job,
                     ReplacedEntry(mem0, e, lvl, rest, va, job), full)
    {
      assert !ReplacedEntry(mem, mem[child][rest[0]], lvl - 1, rest[1..], va + At(rest[0], lvl - 1), job);
      assert !Replaced(mem, child, rest, va, job);
    }
  }

  lemma ProgressStep(mem0: Memory, mem: Memory, mem': Memory, t: nat, lvl: nat, i: nat, tva: nat, job: Job,
                     full: bool, full': bool)
    requires Level(lvl) && i < 512 && Tree(mem, t, lvl) && EntryChanged(mem, mem', t, lvl, i)
    requires Progress(mem0, mem, t, lvl, i, tva, job, full) && (full ==> full')
    requires EntryRemapped(mem, mem[t][i], mem', mem'[t][i], lvl, tva + At(i, lvl), job, full')
    ensures Progress(mem0, mem', t, lvl, i + 1, tva, job, full')
  {
    forall path | Path(path) && |path| == lvl
      ensures if path[0] < i + 1 then
                Effect(Walk(mem0, t, path), Walk(mem', t, path), tva + Page(path), job,
                       Replaced(mem0, t, path, tva, job), full')
              else
                && Walk(mem', t, path) == Walk(mem0, t, path)
                && Replaced(mem', t, path, tva, job) == Replaced(mem0, t, path, tva, job)
    {
      if path[0] != i {
        OtherWalks(mem, mem', t, lvl, i, path);
        OtherReplaced(mem, mem', t, lvl, i, path, tva, job);
      } else {
        EntryOnPath(mem, mem', t, lvl, i, path, tva, job, full');
      }
    }
  }

  lemma OtherReplaced(mem: Memory, mem': Memory, t: nat, lvl: nat, i: nat, path: seq<nat>, tva: nat, job: Job)
    requires Tree(mem, t, lvl) && i < 512 && EntryChanged(mem, mem', t, lvl, i)
    requires Path(path) && |path| == lvl && lvl > 0 && path[0] != i
    ensures Replaced(mem', t, path, tva, job) == Replaced(mem, t, path, tva, job)
  {
    OtherEntry(mem, mem', t, lvl, i, path, tva + At(path[0], lvl), job);
    SameEntry(mem, mem', t, path, tva, tva + At(path[0], lvl), job);
  }

  lemma OtherEntry(mem: Memory, mem': Memory, t: nat, lvl: nat, i: nat, path: seq<nat>, va: nat, job: Job)
    requires Tree(mem, t, lvl) && i < 512 && EntryChanged(mem, mem', t, lvl, i)
    requires Path(path) && |path| == lvl && lvl > 0 && path[0] != i
    ensures t in mem' && |mem'[t]| == 512 && mem'[t][path[0]] == mem[t][path[0]]
    ensures ReplacedEntry(mem', mem[t][path[0]], lvl, path[1..], va, job)
         == ReplacedEntry(mem, mem[t][path[0]], lvl, path[1..], va, job)
  {
    OthersAgree(mem, mem', t, lvl, i, path[0]);
    ReplacedEntryKept(mem, mem', mem[t][path[0]], lvl, path[1..], va, job);
  }

  lemma SameEntry(mem: Memory, mem': Memory, t: nat, path: seq<nat>, tva: nat, va: nat, job: Job)
    requires Path(path) && path != [] && t in mem && t in mem' && |mem[t]| == |mem'[t]| == 512
    requires mem'[t][path[0]] == mem[t][path[0]] && va == tva + At(path[0], |path|)
    requires ReplacedEntry(mem', mem[t][path[0]], |path|, path[1..], va, job)
          == ReplacedEntry(mem, mem[t][path[0]], |path|, path[1..], va, job)
    ensures Replaced(mem', t, path, tva, job) == Replaced(mem, t, path, tva, job)
  {
  }

  lemma EntryOnPath(mem: Memory, mem': Memory, t: nat, lvl: nat, i: nat, path: seq<nat>, tva: nat, job: Job, full: bool)
    requires Level(lvl) && i < 512 && t in mem && |mem[t]| == 512 && t in mem' && |mem'[t]| == 512
    requires EntryRemapped(mem, mem[t][i], mem', mem'[t][i], lvl, tva + At(i, lvl), job, full)
    requires Path(path) && |path| == lvl && path[0] == i
    ensures Effect(Walk(mem, t, path), Walk(mem', t, path), tva + Page(path), job, Replaced(mem, t, path, tva, job),
                   full)
  {
    assert Path(path[1..]) && Page(path) == At(i, lvl) + Page(path[1..]);
    assert Walk(mem', t, path) == WalkEntry(mem', mem'[t][i], lvl, path[1..]);
    assert Walk(mem, t, path) == WalkEntry(mem, mem[t][i], lvl, path[1..]);
  }

  /** A slot outside the range needs no work. */
  lemma ProgressSkip(mem0: Memory, mem: Memory, t: nat, lvl: nat, i: nat, j: nat, tva: nat, job: Job, full: bool)
    requires Level(lvl) && i <= j <= 512 && Progress(mem0, mem, t, lvl, i, tva, job, full)
    requires tva + At(i, lvl) >= job.end || tva + At(j, lvl) <= job.base
    ensures Progress(mem0, mem, t, lvl, j, tva, job, full)
  {
    forall path | Path(path) && |path| == lvl && i <= path[0] < j
      ensures Effect(Walk(mem0, t, path), Walk(mem, t, path), tva + Page(path), job,
                     Replaced(mem0, t, path, tva, job), full)
    {
      assert Path(path[1..]) && Page(path) == At(path[0], lvl) + Page(path[1..]);
      assert path[1..] != [] ==> Page(path[1..]) < At(1, lvl);
      assert At(i, lvl) <= At(path[0], lvl) && At(path[0], lvl) + At(1, lvl) <= At(j, lvl);
    }
  }

  // ---------------------------------------------------------------- the log

  /** Playing the log back over the memory gives every firmware slot its first value. */
  ghost predicate Logged(original: Memory, mem: Memory, log: seq<Saved>) {
    && (forall t :: t in original ==> t in mem && |mem[t]| == 512 && |original[t]| == 512)
    && (forall t, i :: t in original && 0 <= i < 512 ==> Value(log, t, i, mem[t][i]) == original[t][i])
  }

  predicate Wide(mem: Memory) {
    forall t :: t in mem ==> |mem[t]| == 512
  }

  function Put(mem: Memory, t: nat, i: nat, v: Entry): Memory
    requires t in mem && i < |mem[t]|
  {
    mem[t := mem[t][i := v]]
  }

  lemma SavingLogs(original: Memory, mem: Memory, log: seq<Saved>, t: nat, i: nat)
    requires Logged(original, mem, log) && t in mem && |mem[t]| == 512 && i < 512
    ensures Logged(original, mem, log + [Saved(t, i, mem[t][i])])
  {
    var s := Saved(t, i, mem[t][i]);
    forall t', i' | t' in original && 0 <= i' < 512
      ensures Value(log + [s], t', i', mem[t'][i']) == original[t'][i']
    {
      ValueSaved(log, s, t', i', mem[t'][i']);
    }
  }

  /** A slot just logged, or of a table of our own, may be written. */
  ghost predicate Writable(original: Memory, log: seq<Saved>, t: nat, i: nat) {
    t !in original || (log != [] && log[|log| - 1].table == t && log[|log| - 1].index == i)
  }

  lemma PuttingLogs(original: Memory, mem: Memory, log: seq<Saved>, t: nat, i: nat, v: Entry)
    requires Logged(original, mem, log) && t in mem && |mem[t]| == 512 && i < 512 && Writable(original, log, t, i)
    ensures Logged(original, Put(mem, t, i, v), log)
  {
    var mem' := Put(mem, t, i, v);
    forall t', i' | t' in original && 0 <= i' < 512
      ensures t' in mem' && |mem'[t']| == 512 && Value(log, t', i', mem'[t'][i']) == original[t'][i']
    {
      assert Value(log, t', i', mem[t'][i']) == original[t'][i'];
    }
  }

  // ---------------------------------------------------------------- one slot

  /** What visiting slot i of a table does. */
  ghost predicate Visited(mem: Memory, mem': Memory, t: nat, lvl: nat, i: nat, va: nat, job: Job, full: bool) {
    && Level(lvl) && i < 512 && t in mem && |mem[t]| == 512 && EntryChanged(mem, mem', t, lvl, i)
    && EntryRemapped(mem, mem[t][i], mem', mem'[t][i], lvl, va, job, full)
  }

  lemma VisitedNothing(mem: Memory, t: nat, lvl: nat, i: nat, va: nat, job: Job)
    requires Level(lvl) && i < 512 && Tree(mem, t, lvl)
    ensures Visited(mem, mem, t, lvl, i, va, job, true)
  {
    assert Grows(mem, mem[t][i], lvl);
  }

  lemma VisitedLeaf(mem: Memory, t: nat, lvl: nat, i: nat, n: Entry, va: nat, job: Job, full: bool)
    requires 1 <= lvl <= 3 && i < 512 && Tree(mem, t, lvl) && IsLeaf(n, lvl)
    requires EntryRemapped(mem, mem[t][i], Put(mem, t, i, n), n, lvl, va, job, full)
    ensures Visited(mem, Put(mem, t, i, n), t, lvl, i, va, job, full)
  {
  }

  /** Retyping the table below an entry changes nothing else. */
  lemma VisitedTable(mem: Memory, mem': Memory, t: nat, lvl: nat, i: nat, va: nat, job: Job, full: bool)
    requires Level(lvl) && lvl > 1 && i < 512 && Tree(mem, t, lvl) && IsTable(mem[t][i], lvl)
    requires Tree(mem', mem[t][i].frame, lvl - 1) && Contained(mem, mem', mem[t][i].frame, lvl - 1)
    requires !Retypes(lvl, va, job)
    requires Remapped(mem, mem', mem[t][i].frame, lvl - 1, va, job, full)
    ensures Visited(mem, mem', t, lvl, i, va, job, full)
  {
    assert t !in Below(mem, mem[t][i], lvl);
    TableRemapped(mem, mem', mem[t][i], lvl, va, job, full);
  }

  /** A table of our own: not in memory before, and holding no further tables. */
  ghost predicate Flat(mem: Memory, child: nat, lvl: nat) {
    child in mem && |mem[child]| == 512 && forall i :: 0 <= i < 512 ==> !IsTable(mem[child][i], lvl)
  }

  lemma FlatTree(mem: Memory, child: nat, lvl: nat)
    requires Flat(mem, child, lvl)
    ensures Tree(mem, child, lvl) && forall x :: x in Owned(mem, child, lvl) <==> x == child
  {
  }

  /** A new table hangs below entry i, mapping what the entry did. */
  ghost predicate Hung(mem0: Memory, mem: Memory, t: nat, lvl: nat, i: nat, child: nat) {
    && 2 <= lvl <= 5 && i < 512 && t in mem0 && |mem0[t]| == 512 && child !in mem0 && Flat(mem, child, lvl - 1)
    && mem == Put(mem0[child := mem[child]], t, i, Pointer(child))
    && forall rest :: Path(rest) && |rest| + 1 == lvl ==>
         WalkEntry(mem, Pointer(child), lvl, rest) == WalkEntry(mem0, mem0[t][i], lvl, rest)
  }

  lemma NewTableHung(mem0: Memory, mem: Memory, mem': Memory, t: nat, lvl: nat, i: nat, child: nat)
    requires Tree(mem0, t, lvl) && Hung(mem0, mem, t, lvl, i, child)
    requires Tree(mem', child, lvl - 1) && Contained(mem, mem', child, lvl - 1)
    ensures EntryChanged(mem0, mem', t, lvl, i) && mem'[t][i] == Pointer(child)
  {
    FlatTree(mem, child, lvl - 1);
    assert mem'[t] == mem[t];
    assert forall x :: x in mem0 && x != t ==> mem'[x] == mem[x] == mem0[x];
  }

  /** Hanging a new table below an entry and retyping it changes nothing else. */
  lemma VisitedNewTable(mem0: Memory, mem: Memory, mem': Memory, t: nat, lvl: nat, i: nat, child: nat, va: nat,
                        job: Job, full: bool)
    requires Tree(mem0, t, lvl) && Hung(mem0, mem, t, lvl, i, child) && !Retypes(lvl, va, job)
    requires !IsTable(mem0[t][i], lvl)
    requires Tree(mem', child, lvl - 1) && Contained(mem, mem', child, lvl - 1)
    requires Remapped(mem, mem', child, lvl - 1, va, job, full)
    ensures Visited(mem0, mem', t, lvl, i, va, job, full)
  {
    NewTableHung(mem0, mem, mem', t, lvl, i, child);
    NewTableRemapped(mem0, mem0[t][i], mem, mem', child, lvl, va, job, full);
  }

  /** The first i slots of a table have been visited. */
  ghost predicate Walking(mem0: Memory, mem: Memory, t: nat, lvl: nat, i: nat, tva: nat, job: Job, full: bool) {
    && Level(lvl) && Tree(mem, t, lvl) && Contained(mem0, mem, t, lvl)
    && Progress(mem0, mem, t, lvl, i, tva, job, full)
  }

  lemma WalkStep(mem0: Memory, mem: Memory, mem': Memory, t: nat, lvl: nat, i: nat, tva: nat, job: Job,
                 full: bool, full': bool)
    requires Walking(mem0, mem, t, lvl, i, tva, job, full) && (full ==> full')
    requires i < 512 && Visited(mem, mem', t, lvl, i, tva + At(i, lvl), job, full')
    ensures Walking(mem0, mem', t, lvl, i + 1, tva, job, full')
  {
    EntryChangedTree(mem, mem', t, lvl, i);
    ContainedThrough(mem0, mem, mem', t, lvl);
    ProgressStep(mem0, mem, mem', t, lvl, i, tva, job, full, full');
  }

  lemma WalkSkip(mem0: Memory, mem: Memory, t: nat, lvl: nat, i: nat, j: nat, tva: nat, job: Job, full: bool)
    requires Walking(mem0, mem, t, lvl, i, tva, job, full) && i <= j <= 512
    requires tva + At(i, lvl) >= job.end || tva + At(j, lvl) <= job.base
    ensures Walking(mem0, mem, t, lvl, j, tva, job, full)
  {
    ProgressSkip(mem0, mem, t, lvl, i, j, tva, job, full);
  }

  lemma WalkDone(mem0: Memory, mem: Memory, t: nat, lvl: nat, tva: nat, job: Job, full: bool)
    requires Walking(mem0, mem, t, lvl, 512, tva, job, full)
    ensures Tree(mem, t, lvl) && Contained(mem0, mem, t, lvl) && Remapped(mem0, mem, t, lvl, tva, job, full)
  {
  }

  /** From slot i on a table of our own holds no tables. */
  ghost predicate FlatFrom(mem: Memory, t: nat, lvl: nat, i: nat) {
    t in mem && |mem[t]| == 512 && forall j :: i <= j < 512 ==> !IsTable(mem[t][j], lvl)
  }

  lemma StaysFlat(mem: Memory, mem': Memory, t: nat, lvl: nat, i: nat, va: nat, job: Job, full: bool)
    requires FlatFrom(mem, t, lvl, i) && i < 512 && Visited(mem, mem', t, lvl, i, va, job, full)
    ensures FlatFrom(mem', t, lvl, i + 1)
  {
  }

  // ---------------------------------------------------------------- which types are in use

  /** The PAT indices that the present entries of a table and of the tables below it select. */
  ghost function Selected(mem: Memory, t: nat, lvl: nat): iset<nat>
    decreases lvl, 1
  {
    if t in mem then iset i, x | 0 <= i < |mem[t]| && x in Selects(mem, mem[t][i], lvl) :: x else iset{}
  }

  ghost function Selects(mem: Memory, e: Entry, lvl: nat): iset<nat>
    decreases lvl, 0
  {
    if !e.p then iset{}
    else if IsLeaf(e, lvl) then iset{PatIndex(e, lvl == 1)}
    else iset{WalkIndex(e)} + if lvl > 1 then Selected(mem, e.frame, lvl - 1) else iset{}
  }

  lemma {:induction false} SelectedSmall(mem: Memory, t: nat, lvl: nat, x: nat)
    requires x in Selected(mem, t, lvl)
    ensures x < 8
    decreases lvl
  {
    var i :| 0 <= i < |mem[t]| && x in Selects(mem, mem[t][i], lvl);
    var e := mem[t][i];
    if !IsLeaf(e, lvl) && x != WalkIndex(e) {
      SelectedSmall(mem, e.frame, lvl - 1, x);
    }
  }

  /** The type of every mapping is one of those selected. */
  lemma {:induction false} WalkSelects(mem: Memory, t: nat, path: seq<nat>)
    requires Path(path) && path != [] && Walk(mem, t, path).Mapped?
    ensures Walk(mem, t, path).pat in Selected(mem, t, |path|)
    decreases |path|
  {
    var e := mem[t][path[0]];
    if !IsLeaf(e, |path|) {
      WalkSelects(mem, e.frame, path[1..]);
    }
    assert Walk(mem, t, path).pat in Selects(mem, e, |path|);
  }

  /** Every page mapped before and off the range keeps its mapping, and what its type means. */
  ghost predicate TypesKept(mem: Memory, pat: seq<nat>, mem': Memory, pat': seq<nat>, t: nat, lvl: nat, base: nat,
                            size: nat)
    requires |pat| == |pat'| == 8
  {
    forall path :: Path(path) && |path| == lvl && Walk(mem, t, path).Mapped? && !Meets(Page(path), base, size) ==>
      var m := Walk(mem, t, path); Walk(mem', t, path) == m && m.pat < 8 && pat'[m.pat] == pat[m.pat]
  }

  lemma OffRangeKept(mem: Memory, pat: seq<nat>, mem': Memory, pat': seq<nat>, t: nat, lvl: nat, base: nat, size: nat)
    requires |pat| == |pat'| == 8 && lvl > 0
    requires forall x :: x in Selected(mem, t, lvl) ==> x < 8 && pat'[x] == pat[x]
    requires forall path :: Path(path) && |path| == lvl && !Meets(Page(path), base, size) ==>
               Walk(mem', t, path) == Walk(mem, t, path)
    ensures TypesKept(mem, pat, mem', pat', t, lvl, base, size)
  {
    forall path | Path(path) && |path| == lvl && Walk(mem, t, path).Mapped?
      ensures Walk(mem, t, path).pat < 8 && pat'[Walk(mem, t, path).pat] == pat[Walk(mem, t, path).pat]
    {
      WalkSelects(mem, t, path);
    }
  }

  /**
   * What a framebuffer's pages come to: mapped write-combining, with frame and rights unless the table gave way, or as
   * they were with the log full; all other pages as they were.
   */
  ghost predicate Combined(mem: Memory, mem': Memory, t: nat, lvl: nat, base: nat, size: nat, job: Job, full: bool) {
    forall path :: Path(path) && |path| == lvl ==>
      var m, m', replaced := Walk(mem, t, path), Walk(mem', t, path), Replaced(mem, t, path, 0, job);
      if Meets(Page(path), base, size) then
        || (full && m' == m)
        || (&& m'.Mapped? && m'.pat == job.wc && Rights(m, m', replaced)
            && m'.frame == if m.Mapped? && !replaced then m.frame else Page(path))
      else m' == m
  }

  lemma RemappedCombines(mem: Memory, mem': Memory, t: nat, lvl: nat, base: nat, size: nat, wc: nat, gib: bool,
                         full: bool)
    requires size > 0 && Remapped(mem, mem', t, lvl, 0, JobOf(base, size, wc, gib), full)
    ensures Combined(mem, mem', t, lvl, base, size, JobOf(base, size, wc, gib), full)
  {
    var job := JobOf(base, size, wc, gib);
    forall path | Path(path) && |path| == lvl ensures job.base <= Page(path) < job.end <==>
      Meets(Page(path), base, size) {
      JobPages(base, size, wc, gib, Page(path));
    }
  }

  lemma CombinedKeeps(mem: Memory, pat: seq<nat>, mem': Memory, pat': seq<nat>, t: nat, lvl: nat, base: nat, size: nat,
                      job: Job, full: bool)
    requires |pat| == |pat'| == 8 && lvl > 0 && Combined(mem, mem', t, lvl, base, size, job, full)
    requires forall x :: x in Selected(mem, t, lvl) ==> x < 8 && pat'[x] == pat[x]
    ensures TypesKept(mem, pat, mem', pat', t, lvl, base, size)
  {
    OffRangeKept(mem, pat, mem', pat', t, lvl, base, size);
  }

  /** The indices the first i entries select. */
  ghost predicate Scanned(mem: Memory, t: nat, lvl: nat, i: nat, used0: set<nat>, used: set<nat>) {
    && t in mem && |mem[t]| == 512 && i <= 512 && used0 <= used
    && (forall j, x :: 0 <= j < i && x in Selects(mem, mem[t][j], lvl) ==> x in used)
    && (forall x :: x in used ==> x in used0 || x in Selected(mem, t, lvl))
  }

  lemma ScannedMore(mem: Memory, t: nat, lvl: nat, i: nat, used0: set<nat>, before: set<nat>, used: set<nat>)
    requires Scanned(mem, t, lvl, i, used0, before) && i < 512
    requires forall x :: x in used <==> x in before || x in Selects(mem, mem[t][i], lvl)
    ensures Scanned(mem, t, lvl, i + 1, used0, used)
  {
  }

  lemma SelectedAllSmall(mem: Memory, t: nat, lvl: nat)
    ensures forall x :: x in Selected(mem, t, lvl) ==> x < 8
  {
    forall x | x in Selected(mem, t, lvl) ensures x < 8 {
      SelectedSmall(mem, t, lvl, x);
    }
  }

  method FindType(pat: seq<nat>) returns (i: int)
    requires |pat| == 8
    ensures -1 <= i < 8 && (i >= 0 ==> pat[i] == WC) && (i < 0 ==> WC !in pat)
  {
    for k := 0 to 8
      invariant WC !in pat[..k]
    {
      if pat[k] == WC {
        return k;
      }
    }
    return -1;
  }

  /** An index not in use, from the upper half if there is one. */
  method FreeSlot(used: set<nat>) returns (slot: int)
    ensures -1 <= slot < 8 && (slot >= 0 ==> slot !in used) && (slot < 0 ==> forall j: nat :: j < 8 ==> j in used)
    ensures slot < 4 ==> forall j: nat :: 4 <= j < 8 ==> j in used
  {
    for i := 4 to 8
      invariant forall j: nat :: 4 <= j < i ==> j in used
    {
      if i !in used {
        return i;
      }
    }
    for i := 0 to 4
      invariant forall j: nat :: 0 <= j < i ==> j in used
    {
      if i !in used {
        return i;
      }
    }
    return -1;
  }

  class Tables {
    const root: nat
    const levels: nat
    var mem: Memory
    var next: nat
    var log: seq<Saved>
    var wc: int
    var gib: bool
    var pat: seq<nat>
    var savedPat: seq<nat>
    var patModified: bool
    const cr3Index: nat
    const hasPat: bool
    const hasGib: bool
    ghost const original: Memory
    ghost const originalPat: seq<nat>

    /** Every firmware slot can be had back from the log, and the memory from next on is free. */
    ghost predicate Sound()
      reads this
    {
      && |log| <= MAX_SAVED && Wide(mem) && Logged(original, mem, log)
      && (forall s :: s in log ==> s.table in mem && s.index < 512)
      && (forall t :: t in mem ==> t < next)
    }

    ghost predicate Full()
      reads this
    {
      |log| >= MAX_SAVED
    }

    /** The job is the one set up: the type found, and the leaf sizes there are. */
    ghost predicate Doing(job: Job)
      reads this
    {
      job.wc == wc && job.wc < 8 && job.gib == gib
    }

    method SaveSlot(t: nat, i: nat) returns (ok: bool)
      requires Sound() && t in mem && i < 512
      modifies this`log
      ensures Sound() && (ok <==> |old(log)| < MAX_SAVED)
      ensures log == if ok then old(log) + [Saved(t, i, mem[t][i])] else old(log)
    {
      if |log| >= MAX_SAVED {
        return false;
      }
      SavingLogs(original, mem, log, t, i);
      log := log + [Saved(t, i, mem[t][i])];
      return true;
    }

    method SetSlot(t: nat, i: nat, v: Entry)
      requires Sound() && t in mem && i < 512 && Writable(original, log, t, i)
      modifies this`mem
      ensures Sound() && mem == Put(old(mem), t, i, v)
    {
      PuttingLogs(original, mem, log, t, i, v);
      mem := Put(mem, t, i, v);
    }

    method Alloc(table: seq<Entry>) returns (a: nat)
      requires Sound() && |table| == 512
      modifies this`mem, this`next
      ensures Sound() && a !in old(mem) && a !in original && mem == old(mem)[a := table]
    {
      a := next;
      next := next + 1;
      mem := mem[a := table];
    }

    /** The slot lies wholly in the range: it becomes a leaf of the new type. */
    method Retype(t: nat, lvl: nat, i: nat, va: nat, job: Job, pristine: bool, ghost k: nat)
      requires Sound() && Doing(job) && i < 512 && Tree(mem, t, lvl) && Retypes(lvl, va, job)
      requires (!pristine ==> t !in original) && va == At(k, lvl)
      modifies this`mem, this`log
      ensures Sound() && |old(log)| <= |log| && Visited(old(mem), mem, t, lvl, i, va, job, Full())
    {
      var leaf := Retyped(mem[t][i], lvl, va, wc);
      RetypedLeaf(mem[t][i], lvl, k, wc);
      if pristine {
        var saved := SaveSlot(t, i);
        if !saved {
          VisitedNothing(mem, t, lvl, i, va, job);
          return;
        }
      }
      RetypedMaps(mem, Put(mem, t, i, leaf), mem[t][i], leaf, lvl, va, job, Full());
      VisitedLeaf(mem, t, lvl, i, leaf, va, job, Full());
      SetSlot(t, i, leaf);
    }

    /** The table a leaf is split into, or an empty one. */
    method NewTable(e: Entry, lvl: nat) returns (child: nat)
      requires Sound() && 2 <= lvl <= 5 && (e.p ==> IsLeaf(e, lvl))
      modifies this`mem, this`next
      ensures Sound() && child !in old(mem) && child !in original
      ensures child in mem && mem == old(mem)[child := mem[child]] && Flat(mem, child, lvl - 1)
      ensures forall rest :: Path(rest) && |rest| + 1 == lvl ==>
                WalkEntry(mem, Pointer(child), lvl, rest) == WalkEntry(mem, e, lvl, rest)
    {
      if e.p {
        child := Alloc(seq(512, i requires 0 <= i < 512 => SplitEntry(e, lvl, i)));
        forall i | 0 <= i < 512
          ensures Leaf(mem[child][i], lvl - 1, Base(e.frame, lvl) + At(i, lvl - 1), e.rw, e.us, e.nx,
                       PatIndex(e, false))
        {
          SplitEntryLeaf(e, lvl, i);
        }
        forall rest | Path(rest) && |rest| + 1 == lvl
          ensures WalkEntry(mem, Pointer(child), lvl, rest) == WalkEntry(mem, e, lvl, rest)
        {
          SplitMaps(mem, e, lvl, child, rest);
        }
      } else {
        child := Alloc(seq(512, i => EMPTY));
        forall rest | Path(rest) && |rest| + 1 == lvl
          ensures WalkEntry(mem, Pointer(child), lvl, rest) == WalkEntry(mem, e, lvl, rest)
        {
          EmptyMaps(mem, e, lvl, child, rest);
        }
      }
    }

    /** The slot lies partly in the range and holds no table: it gets one. */
    method Grow(t: nat, lvl: nat, i: nat, va: nat, job: Job, pristine: bool, ghost k: nat)
      requires Sound() && Doing(job) && 2 <= lvl <= 5 && i < 512 && Tree(mem, t, lvl)
      requires (mem[t][i].p ==> IsLeaf(mem[t][i], lvl)) && (!pristine ==> t !in original) && va == At(k, lvl)
      requires !Retypes(lvl, va, job)
      modifies this`mem, this`log, this`next
      ensures Sound() && |old(log)| <= |log| && Visited(old(mem), mem, t, lvl, i, va, job, Full())
      decreases lvl, 1
    {
      if pristine {
        var saved := SaveSlot(t, i);
        if !saved {
          VisitedNothing(mem, t, lvl, i, va, job);
          return;
        }
      }
      Sprout(t, lvl, i, va, job, k);
    }

    method Sprout(t: nat, lvl: nat, i: nat, va: nat, job: Job, ghost k: nat)
      requires Sound() && Doing(job) && 2 <= lvl <= 5 && i < 512 && Tree(mem, t, lvl)
      requires (mem[t][i].p ==> IsLeaf(mem[t][i], lvl)) && Writable(original, log, t, i) && va == At(k, lvl)
      requires !Retypes(lvl, va, job)
      modifies this`mem, this`log, this`next
      ensures Sound() && |old(log)| <= |log| && Visited(old(mem), mem, t, lvl, i, va, job, Full())
      decreases lvl, 0
    {
      ghost var mem0 := mem;
      var child := Hang(t, lvl, i);
      ghost var mem1 := mem;
      FlatTree(mem, child, lvl - 1);
      WcWalk(child, lvl - 1, va, job, false, k);
      VisitedNewTable(mem0, mem1, mem, t, lvl, i, child, va, job, Full());
    }

    /** Points the slot at a new table that maps what the slot did. */
    method Hang(t: nat, lvl: nat, i: nat) returns (child: nat)
      requires Sound() && 2 <= lvl <= 5 && i < 512 && t in mem && Writable(original, log, t, i)
      requires mem[t][i].p ==> IsLeaf(mem[t][i], lvl)
      modifies this`mem, this`next
      ensures Sound() && child !in original && Hung(old(mem), mem, t, lvl, i, child)
    {
      var e := mem[t][i];
      ghost var mem0 := mem;
      child := NewTable(e, lvl);
      ghost var mem1 := mem;
      SetSlot(t, i, Pointer(child));
      HungWalks(mem0, mem1, mem, t, i, child, e, lvl);
    }

    /** The slot holds a table: the walk goes on there. */
    method Descend(t: nat, lvl: nat, i: nat, va: nat, job: Job, pristine: bool, ghost k: nat)
      requires Sound() && Doing(job) && 2 <= lvl <= 5 && i < 512 && Tree(mem, t, lvl)
      requires IsTable(mem[t][i], lvl) && pristine && va == At(k, lvl) && !Retypes(lvl, va, job)
      modifies this`mem, this`log, this`next
      ensures Sound() && |old(log)| <= |log| && Visited(old(mem), mem, t, lvl, i, va, job, Full())
      decreases lvl, 0
    {
      ghost var mem0 := mem;
      assert Grows(mem, mem[t][i], lvl);
      WcWalk(mem[t][i].frame, lvl - 1, va, job, pristine, k);
      VisitedTable(mem0, mem, t, lvl, i, va, job, Full());
    }

    /** One slot of the walk. */
    method Visit(t: nat, lvl: nat, i: nat, va: nat, job: Job, pristine: bool, ghost k: nat)
      requires Sound() && Doing(job) && Level(lvl) && i < 512 && Tree(mem, t, lvl)
      requires (!pristine ==> t !in original && !IsTable(mem[t][i], lvl)) && va == At(k, lvl)
      requires va < job.end && va + At(1, lvl) > job.base
      modifies this`mem, this`log, this`next
      ensures Sound() && |old(log)| <= |log| && Visited(old(mem), mem, t, lvl, i, va, job, Full())
      decreases lvl, 2
    {
      var e := mem[t][i];
      var fully := va >= job.base && va + At(1, lvl) <= job.end;
      if fully && lvl <= 3 && (lvl < 3 || gib) {
        Retype(t, lvl, i, va, job, pristine, k);
      } else if e.p && !IsLeaf(e, lvl) {
        Descend(t, lvl, i, va, job, pristine, k);
      } else {
        Grow(t, lvl, i, va, job, pristine, k);
      }
    }

    /** The walk over a table: k is the slot the table hangs below, among all slots of the level above. */
    method WcWalk(t: nat, lvl: nat, tva: nat, job: Job, pristine: bool, ghost k: nat)
      requires Sound() && Doing(job) && Level(lvl) && Tree(mem, t, lvl) && tva == At(512 * k, lvl)
      requires !pristine ==> t !in original && Flat(mem, t, lvl)
      modifies this`mem, this`log, this`next
      ensures Sound() && |old(log)| <= |log| && Tree(mem, t, lvl) && Contained(old(mem), mem, t, lvl)
      ensures Remapped(old(mem), mem, t, lvl, tva, job, Full())
      decreases lvl, 5
    {
      ghost var mem0 := mem;
      var i := 0;
      while i < 512
        invariant i <= 512 && Sound() && |old(log)| <= |log| && Walking(mem0, mem, t, lvl, i, tva, job, Full())
        invariant !pristine ==> FlatFrom(mem, t, lvl, i)
      {
        i := Turn(t, lvl, i, tva, job, pristine, k, mem0);
      }
      WalkDone(mem0, mem, t, lvl, tva, job, Full());
    }

    /** A slot that touches the range. */
    method Work(t: nat, lvl: nat, i: nat, tva: nat, job: Job, pristine: bool, ghost k: nat, ghost mem0: Memory)
      requires Sound() && Doing(job) && Level(lvl) && i < 512 && tva + At(i, lvl) == At(k, lvl)
      requires tva + At(i, lvl) < job.end && tva + At(i, lvl) + At(1, lvl) > job.base
      requires Walking(mem0, mem, t, lvl, i, tva, job, Full())
      requires !pristine ==> t !in original && FlatFrom(mem, t, lvl, i)
      modifies this`mem, this`log, this`next
      ensures Sound() && |old(log)| <= |log|
      ensures Walking(mem0, mem, t, lvl, i + 1, tva, job, Full())
      ensures !pristine ==> FlatFrom(mem, t, lvl, i + 1)
      decreases lvl, 3
    {
      ghost var before, full := mem, Full();
      Visit(t, lvl, i, tva + At(i, lvl), job, pristine, k);
      WalkStep(mem0, before, mem, t, lvl, i, tva, job, full, Full());
      if !pristine {
        StaysFlat(before, mem, t, lvl, i, tva + At(i, lvl), job, Full());
      }
    }

    /** One turn of the loop over a table's slots. */
    method Turn(t: nat, lvl: nat, i: nat, tva: nat, job: Job, pristine: bool, ghost k: nat, ghost mem0: Memory)
      returns (i': nat)
      requires Sound() && Doing(job) && Level(lvl) && i < 512 && tva == At(512 * k, lvl)
      requires Walking(mem0, mem, t, lvl, i, tva, job, Full())
      requires !pristine ==> t !in original && FlatFrom(mem, t, lvl, i)
      modifies this`mem, this`log, this`next
      ensures Sound() && |old(log)| <= |log| && i < i' <= 512
      ensures Walking(mem0, mem, t, lvl, i', tva, job, Full())
      ensures !pristine ==> FlatFrom(mem, t, lvl, i')
      decreases lvl, 4
    {
      var va := tva + At(i, lvl);
      if va >= job.end {
        WalkSkip(mem0, mem, t, lvl, i, 512, tva, job, Full());
        i' := 512;
      } else if va + At(1, lvl) <= job.base {
        WalkSkip(mem0, mem, t, lvl, i, i + 1, tva, job, Full());
        i' := i + 1;
      } else {
        SlotNumber(k, i, lvl);
        Work(t, lvl, i, tva, job, pristine, 512 * k + i, mem0);
        i' := i + 1;
      }
    }

    /** Between calls. */
    ghost predicate Valid()
      reads this
    {
      && Sound() && Level(levels) && Tree(mem, root, levels) && Tree(original, root, levels)
      && |pat| == 8 && cr3Index < 8 && -1 <= wc < 8 && (wc >= 0 ==> pat[wc] == WC)
      && (if patModified then wc >= 0 && savedPat == originalPat && |savedPat| == 8 else pat == originalPat)
    }

    /** Adds to the set of indices in use those a table selects; nothing more can be learnt once all eight are. */
    method ScanWalk(t: nat, lvl: nat, used0: set<nat>) returns (used: set<nat>)
      requires Tree(mem, t, lvl) && lvl >= 1
      ensures forall x :: x in used <==> x in used0 || x in Selected(mem, t, lvl)
      decreases lvl, 1
    {
      used := used0;
      for i := 0 to 512
        invariant Scanned(mem, t, lvl, i, used0, used)
      {
        if ALL <= used {
          SelectedAllSmall(mem, t, lvl);
          return;
        }
        ghost var before := used;
        used := ScanEntry(t, lvl, i, used);
        ScannedMore(mem, t, lvl, i, used0, before, used);
      }
    }

    method ScanEntry(t: nat, lvl: nat, i: nat, used0: set<nat>) returns (used: set<nat>)
      requires Tree(mem, t, lvl) && lvl >= 1 && i < 512
      ensures forall x :: x in used <==> x in used0 || x in Selects(mem, mem[t][i], lvl)
      decreases lvl, 0
    {
      used := used0;
      var e := mem[t][i];
      if e.p {
        if lvl == 1 || (lvl <= 3 && e.b7) {
          used := used + {PatIndex(e, lvl == 1)};
        } else {
          assert Grows(mem, e, lvl);
          used := used + {WalkIndex(e)};
          used := ScanWalk(e.frame, lvl - 1, used);
        }
      }
    }

    /** Finds or makes a write-combining type without changing the type of any mapping there is. */
    method EnsureSlot() returns (ok: bool)
      requires Valid()
      modifies this`wc, this`pat, this`savedPat, this`patModified
      ensures Valid() && (ok <==> wc >= 0)
      ensures forall x :: x in Selected(mem, root, levels) || x == cr3Index ==> x < 8 && pat[x] == old(pat[x])
      ensures !ok ==> pat == old(pat)
      ensures !ok && hasPat ==>
                WC !in pat && forall x :: 0 <= x < 8 ==> x in Selected(mem, root, levels) || x == cr3Index
    {
      SelectedAllSmall(mem, root, levels);
      if wc >= 0 {
        return true;
      }
      if !hasPat {
        return false;
      }
      var found := FindType(pat);
      if found >= 0 {
        wc := found;
        return true;
      }
      var used := ScanWalk(root, levels, {cr3Index});
      var slot := FreeSlot(used);
      if slot < 0 {
        return false;
      }
      savedPat := pat;
      patModified := true;
      pat := pat[slot := WC];
      wc := slot;
      return true;
    }

    /** The tables as the firmware leaves them. */
    constructor (tables: Memory, top: nat, depth: nat, types: seq<nat>, cr3: nat, patThere: bool, gibThere: bool,
                 free: nat)
      requires Level(depth) && Tree(tables, top, depth) && Wide(tables) && |types| == 8 && cr3 < 8
      requires forall t :: t in tables ==> t < free
      ensures Valid() && mem == original == tables && root == top && levels == depth && pat == originalPat == types
    {
      root, levels, mem, next, log, wc, gib := top, depth, tables, free, [], -1, false;
      pat, savedPat, patModified := types, types, false;
      cr3Index, hasPat, hasGib := cr3, patThere, gibThere;
      original, originalPat := tables, types;
    }

    /**
     * Makes a framebuffer write-combining. Addresses off its pages keep mapping and memory type; those on it come out
     * mapped write-combining, or as they were when the log ran full.
     */
    method SetFramebuffer(base: nat, size: nat) returns (applied: bool)
      requires Valid() && base < 0x1_0000_0000_0000_0000 && size < 0x1_0000_0000_0000_0000
      modifies this`mem, this`log, this`next, this`wc, this`gib, this`pat, this`savedPat, this`patModified
      ensures Valid()
      ensures !applied ==> mem == old(mem)
      ensures applied <==> size > 0 && wc >= 0 && base + size + 0xfff <= 0xffff_ffff_ffff_ffff
      ensures applied ==> wc < 8 && pat[wc] == WC && gib == hasGib
      ensures applied ==> Combined(old(mem), mem, root, levels, base, size, JobOf(base, size, wc, gib), Full())
      ensures forall x :: x in Selected(old(mem), root, levels) ==> x < 8 && pat[x] == old(pat[x])
      ensures TypesKept(old(mem), old(pat), mem, pat, root, levels, base, if applied then size else 0)
    {
      SelectedAllSmall(mem, root, levels);
      applied := false;
      if size == 0 {
        OffRangeKept(mem, pat, mem, pat, root, levels, base, 0);
        return;
      }
      ghost var before := mem;
      var ok := EnsureSlot();
      if !ok || base + size > 0xffff_ffff_ffff_ffff || base + size + 0xfff > 0xffff_ffff_ffff_ffff {
        OffRangeKept(mem, old(pat), mem, pat, root, levels, base, 0);
        return;
      }
      WalkRange(base, size);
      applied := true;
      RemappedCombines(before, mem, root, levels, base, size, wc, gib, Full());
      CombinedKeeps(before, old(pat), mem, pat, root, levels, base, size, JobOf(base, size, wc, gib), Full());
    }

    /** Retypes a range, once there is an index for it. */
    method WalkRange(base: nat, size: nat)
      requires Sound() && Level(levels) && Tree(mem, root, levels) && 0 <= wc < 8
      modifies this`mem, this`log, this`next, this`gib
      ensures Sound() && Tree(mem, root, levels) && gib == hasGib
      ensures Remapped(old(mem), mem, root, levels, 0, JobOf(base, size, wc, gib), Full())
    {
      gib := hasGib;
      assert At(512 * 0, levels) == 0;
      WcWalk(root, levels, 0, JobOf(base, size, wc, gib), true, 0);
    }

    /** Plays the log back, newest slot first. */
    method PlayBack()
      requires Sound()
      modifies this`mem, this`log
      ensures Sound() && log == [] && forall t :: t in original ==> t in mem && mem[t] == original[t]
    {
      while log != []
        invariant Sound()
        decreases |log|
      {
        var s := log[|log| - 1];
        PlayBackStep(original, mem, log);
        mem := Put(mem, s.table, s.index, s.value);
        log := log[..|log| - 1];
      }
      NothingLogged(original, mem);
    }

    /** Takes everything back: every firmware slot, the PAT, and so the mapping and type of every address. */
    method Restore()
      requires Valid()
      modifies this`mem, this`log, this`wc, this`pat, this`patModified
      ensures Valid() && forall t :: t in original ==> t in mem && mem[t] == original[t]
      ensures pat == originalPat
      ensures forall path :: Path(path) && |path| == levels ==> Walk(mem, root, path) == Walk(original, root, path)
    {
      if log != [] || patModified {
        PlayBack();
        if patModified {
          pat := savedPat;
        }
        patModified := false;
        wc := -1;
      } else {
        NothingLogged(original, mem);
      }
      TreeKept(original, mem, root, levels);
      forall path | Path(path) && |path| == levels ensures Walk(mem, root, path) == Walk(original, root, path) {
        WalkKept(original, mem, root, path);
      }
    }
  }

  lemma NothingLogged(original: Memory, mem: Memory)
    requires Logged(original, mem, [])
    ensures forall t :: t in original ==> t in mem && mem[t] == original[t]
  {
    forall t | t in original ensures mem[t] == original[t] {
      assert forall i :: 0 <= i < 512 ==> mem[t][i] == Value([], t, i, mem[t][i]) == original[t][i];
    }
  }

  lemma PlayBackStep(original: Memory, mem: Memory, log: seq<Saved>)
    requires log != [] && Logged(original, mem, log)
    requires forall s :: s in log ==> s.table in mem && |mem[s.table]| == 512 && s.index < 512
    ensures var s := log[|log| - 1]; Logged(original, Put(mem, s.table, s.index, s.value), log[..|log| - 1])
  {
  }

  /** Hanging the new table into its slot leaves the table itself. */
  lemma HungWalks(mem0: Memory, mem1: Memory, mem2: Memory, t: nat, i: nat, child: nat, e: Entry, lvl: nat)
    requires 2 <= lvl <= 5 && child !in mem0 && t in mem0 && i < |mem0[t]| && (e.p ==> IsLeaf(e, lvl))
    requires Flat(mem1, child, lvl - 1) && mem1 == mem0[child := mem1[child]] && mem2 == Put(mem1, t, i, Pointer(child))
    requires forall rest :: Path(rest) && |rest| + 1 == lvl ==>
               WalkEntry(mem1, Pointer(child), lvl, rest) == WalkEntry(mem1, e, lvl, rest)
    ensures forall rest :: Path(rest) && |rest| + 1 == lvl ==>
              WalkEntry(mem2, Pointer(child), lvl, rest) == WalkEntry(mem0, e, lvl, rest)
  {
    FlatTree(mem1, child, lvl - 1);
    forall rest | Path(rest) && |rest| + 1 == lvl
      ensures WalkEntry(mem2, Pointer(child), lvl, rest) == WalkEntry(mem0, e, lvl, rest)
    {
      assert WalkEntry(mem1, e, lvl, rest) == WalkEntry(mem0, e, lvl, rest);
      WalkKept(mem1, mem2, child, rest);
    }
  }
}
