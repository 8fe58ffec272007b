/**
 * The firmware's page tables: entries, the tree they form in memory, and what the hardware's walk makes of an address.
 * Addresses are counted in pages of 4 KiB.
 */
module PageTables {
  /**
   * The bits of an entry. Bit 7 is the page-size bit of a directory entry and the PAT bit of a 4 KiB leaf; the lowest
   * bit of the frame is the PAT bit of a larger leaf. The remaining bits play no part.
   */
  datatype Entry = Entry(p: bool, rw: bool, us: bool, pwt: bool, pcd: bool, b7: bool, frame: nat, nx: bool, rest: nat)

  const EMPTY: Entry := Entry(false, false, false, false, false, false, 0, false, 0)

  type Memory = map<nat, seq<Entry>>

  /** Where an address goes: the page frame, the rights gathered on the way and the PAT index. */
  datatype Mapping = Unmapped | Mapped(frame: nat, rw: bool, us: bool, nx: bool, pat: nat)

  // ---------------------------------------------------------------- levels

  predicate Level(lvl: nat) { 1 <= lvl <= 5 }

  /** i entries of a table at the given level, in pages. */
  function At(i: nat, lvl: nat): nat
    requires Level(lvl)
  {
    if lvl == 1 then i
    else if lvl == 2 then 512 * i
    else if lvl == 3 then 0x4_0000 * i
    else if lvl == 4 then 0x800_0000 * i
    else 0x10_0000_0000 * i
  }

  /** A frame with the bits below the size of a leaf cleared. */
  function Base(frame: nat, lvl: nat): nat {
    if lvl == 2 then frame - frame % 512 else if lvl == 3 then frame - frame % 0x4_0000 else frame
  }

  /** The index into each table on the way down to a page. */
  predicate Path(path: seq<nat>) {
    |path| <= 5 && forall k :: 0 <= k < |path| ==> path[k] < 512
  }

  function Page(path: seq<nat>): (va: nat)
    requires Path(path)
    ensures path == [] ==> va == 0
    ensures path != [] ==> va < At(512, |path|)
  {
    if path == [] then 0 else At(path[0], |path|) + Page(path[1..])
  }

  // ---------------------------------------------------------------- memory types

  function Index(pat: bool, pcd: bool, pwt: bool): nat {
    (if pat then 4 else 0) + (if pcd then 2 else 0) + (if pwt then 1 else 0)
  }

  function PatIndex(e: Entry, leaf4k: bool): nat {
    Index(if leaf4k then e.b7 else e.frame % 2 == 1, e.pcd, e.pwt)
  }

  function WalkIndex(e: Entry): nat { Index(false, e.pcd, e.pwt) }

  function SetPat(e: Entry, index: nat, leaf4k: bool): (r: Entry)
    requires index < 8
    ensures PatIndex(r, leaf4k) == index
    ensures r.p == e.p && r.rw == e.rw && r.us == e.us && r.nx == e.nx
    ensures if leaf4k then r.frame == e.frame else r.b7 == e.b7 && r.frame / 2 == e.frame / 2
  {
    var pwt, pcd, pat := index % 2 == 1, index / 2 % 2 == 1, index / 4 == 1;
    if leaf4k then e.(pwt := pwt, pcd := pcd, b7 := pat)
    else e.(pwt := pwt, pcd := pcd, frame := e.frame - e.frame % 2 + if pat then 1 else 0)
  }

  // ---------------------------------------------------------------- the walk

  predicate IsLeaf(e: Entry, lvl: nat) { lvl == 1 || (lvl <= 3 && e.b7) }

  predicate IsTable(e: Entry, lvl: nat) { e.p && !IsLeaf(e, lvl) }

  /** Rights are those of every entry on the way. */
  function Under(e: Entry, m: Mapping): Mapping {
    match m
    case Unmapped => Unmapped
    case Mapped(f, rw, us, nx, pat) => Mapped(f, e.rw && rw, e.us && us, e.nx || nx, pat)
  }

  function Walk(mem: Memory, t: nat, path: seq<nat>): Mapping
    requires Path(path)
    decreases |path|, 1
  {
    if path == [] || t !in mem || |mem[t]| != 512 then Unmapped
    else WalkEntry(mem, mem[t][path[0]], |path|, path[1..])
  }

  function WalkEntry(mem: Memory, e: Entry, lvl: nat, rest: seq<nat>): Mapping
    requires Path(rest) && lvl == |rest| + 1
    decreases |rest|, 2
  {
    if !e.p then Unmapped
    else if IsLeaf(e, lvl) then Mapped(Base(e.frame, lvl) + Page(rest), e.rw, e.us, e.nx, PatIndex(e, lvl == 1))
    else Under(e, Walk(mem, e.frame, rest))
  }

  // ---------------------------------------------------------------- the tree

  /** The tables reached from a table. */
  ghost function Owned(mem: Memory, t: nat, lvl: nat): iset<nat>
    decreases lvl, 1
  {
    iset{t} + if t in mem then iset i, x | 0 <= i < |mem[t]| && x in Below(mem, mem[t][i], lvl) :: x else iset{}
  }

  ghost function Below(mem: Memory, e: Entry, lvl: nat): iset<nat>
    decreases lvl, 0
  {
    if lvl > 1 && IsTable(e, lvl) then Owned(mem, e.frame, lvl - 1) else iset{}
  }

  /** No table is reached twice. */
  ghost predicate Tree(mem: Memory, t: nat, lvl: nat)
    decreases lvl, 1
  {
    && t in mem && |mem[t]| == 512
    && (forall i :: 0 <= i < 512 ==> Grows(mem, mem[t][i], lvl) && t !in Below(mem, mem[t][i], lvl))
    && (forall i, j, x :: 0 <= i < j < 512 && x in Below(mem, mem[t][i], lvl) ==> x !in Below(mem, mem[t][j], lvl))
  }

  ghost predicate Grows(mem: Memory, e: Entry, lvl: nat)
    decreases lvl, 0
  {
    lvl > 1 && IsTable(e, lvl) ==> Tree(mem, e.frame, lvl - 1)
  }

  /** Two memories agree on a set of tables. */
  ghost predicate Agree(mem: Memory, mem': Memory, s: iset<nat>) {
    forall x :: x in s && x in mem ==> x in mem' && mem'[x] == mem[x]
  }

  lemma {:induction false} TreeKept(mem: Memory, mem': Memory, t: nat, lvl: nat)
    requires Tree(mem, t, lvl) && Agree(mem, mem', Owned(mem, t, lvl))
    ensures Tree(mem', t, lvl) && Owned(mem', t, lvl) == Owned(mem, t, lvl)
    decreases lvl, 1
  {
    assert t in Owned(mem, t, lvl);
    assert mem'[t] == mem[t];
    forall i | 0 <= i < 512
      ensures Grows(mem', mem[t][i], lvl) && Below(mem', mem[t][i], lvl) == Below(mem, mem[t][i], lvl)
    {
      assert Grows(mem, mem[t][i], lvl);
      assert forall x :: x in Below(mem, mem[t][i], lvl) ==> x in Owned(mem, t, lvl);
      EntryKept(mem, mem', mem[t][i], lvl);
    }
  }

  lemma {:induction false} EntryKept(mem: Memory, mem': Memory, e: Entry, lvl: nat)
    requires Grows(mem, e, lvl) && Agree(mem, mem', Below(mem, e, lvl))
    ensures Grows(mem', e, lvl) && Below(mem', e, lvl) == Below(mem, e, lvl)
    decreases lvl, 0
  {
    if lvl > 1 && IsTable(e, lvl) {
      TreeKept(mem, mem', e.frame, lvl - 1);
    }
  }

  lemma {:induction false} WalkKept(mem: Memory, mem': Memory, t: nat, path: seq<nat>)
    requires Path(path) && Tree(mem, t, |path|) && Agree(mem, mem', Owned(mem, t, |path|))
    ensures Walk(mem', t, path) == Walk(mem, t, path)
    decreases |path|, 1
  {
    assert t in Owned(mem, t, |path|);
    if path != [] {
      var e := mem[t][path[0]];
      assert Grows(mem, e, |path|);
      assert forall x :: x in Below(mem, e, |path|) ==> x in Owned(mem, t, |path|);
      WalkEntryKept(mem, mem', e, |path|, path[1..]);
    }
  }

  lemma {:induction false} WalkEntryKept(mem: Memory, mem': Memory, e: Entry, lvl: nat, rest: seq<nat>)
    requires Path(rest) && lvl == |rest| + 1 && Grows(mem, e, lvl) && Agree(mem, mem', Below(mem, e, lvl))
    ensures WalkEntry(mem', e, lvl, rest) == WalkEntry(mem, e, lvl, rest)
    decreases |rest|, 2
  {
    if lvl > 1 && IsTable(e, lvl) {
      WalkKept(mem, mem', e.frame, rest);
    }
  }

  lemma OwnedInMemory(mem: Memory, t: nat, lvl: nat)
    requires Tree(mem, t, lvl)
    ensures forall x :: x in Owned(mem, t, lvl) ==> x in mem
    decreases lvl
  {
    forall i | 0 <= i < 512 ensures forall x :: x in Below(mem, mem[t][i], lvl) ==> x in mem {
      assert Grows(mem, mem[t][i], lvl);
      if lvl > 1 && IsTable(mem[t][i], lvl) {
        OwnedInMemory(mem, mem[t][i].frame, lvl - 1);
      }
    }
  }

  // ---------------------------------------------------------------- changes confined to a subtree

  ghost predicate Extends(mem: Memory, mem': Memory) {
    forall x :: x in mem ==> x in mem'
  }

  /** Outside the tables of t nothing has changed, and t has taken in only new tables. */
  ghost predicate Contained(mem: Memory, mem': Memory, t: nat, lvl: nat) {
    && Extends(mem, mem')
    && (forall x :: x in mem && x !in Owned(mem, t, lvl) ==> mem'[x] == mem[x])
    && (forall x :: x in Owned(mem', t, lvl) && x in mem ==> x in Owned(mem, t, lvl))
  }

  lemma ContainedThrough(a: Memory, b: Memory, c: Memory, t: nat, lvl: nat)
    requires Contained(a, b, t, lvl) && Contained(b, c, t, lvl)
    ensures Contained(a, c, t, lvl)
  {
  }

  /** Only entry i of t and the tables below it have changed. */
  ghost predicate EntryChanged(mem: Memory, mem': Memory, t: nat, lvl: nat, i: nat)
    requires t in mem && |mem[t]| == 512 && i < 512
  {
    && Extends(mem, mem') && |mem'[t]| == 512
    && (forall j :: 0 <= j < 512 && j != i ==> mem'[t][j] == mem[t][j])
    && (forall x :: x in mem && x != t && x !in Below(mem, mem[t][i], lvl) ==> mem'[x] == mem[x])
    && Grows(mem', mem'[t][i], lvl)
    && (forall x :: x in Below(mem', mem'[t][i], lvl) && x in mem ==> x in Below(mem, mem[t][i], lvl))
  }

  lemma OthersAgree(mem: Memory, mem': Memory, t: nat, lvl: nat, i: nat, j: nat)
    requires Tree(mem, t, lvl) && i < 512 && j < 512 && i != j && EntryChanged(mem, mem', t, lvl, i)
    ensures Agree(mem, mem', Below(mem, mem[t][j], lvl)) && Grows(mem, mem[t][j], lvl)
  {
    assert Grows(mem, mem[t][j], lvl) && t !in Below(mem, mem[t][j], lvl);
    forall x | x in Below(mem, mem[t][j], lvl) && x in mem ensures mem'[x] == mem[x] {
      assert x !in Below(mem, mem[t][i], lvl);
    }
  }

  lemma EntryChangedTree(mem: Memory, mem': Memory, t: nat, lvl: nat, i: nat)
    requires Tree(mem, t, lvl) && i < 512 && EntryChanged(mem, mem', t, lvl, i)
    ensures Tree(mem', t, lvl) && Contained(mem, mem', t, lvl)
  {
    OwnedInMemory(mem, t, lvl);
    forall j | 0 <= j < 512 && j != i
      ensures Grows(mem', mem'[t][j], lvl) && Below(mem', mem'[t][j], lvl) == Below(mem, mem[t][j], lvl)
    {
      OthersAgree(mem, mem', t, lvl, i, j);
      EntryKept(mem, mem', mem[t][j], lvl);
    }
    forall j, x | 0 <= j < 512 && x in Below(mem', mem'[t][j], lvl) && x in mem
      ensures x in Below(mem, mem[t][j], lvl)
    {
    }
    forall j | 0 <= j < 512 ensures forall x :: x in Below(mem, mem[t][j], lvl) ==> x in mem {
      assert forall x :: x in Below(mem, mem[t][j], lvl) ==> x in Owned(mem, t, lvl);
    }
  }

  lemma OtherWalks(mem: Memory, mem': Memory, t: nat, lvl: nat, i: nat, path: seq<nat>)
    requires Tree(mem, t, lvl) && i < 512 && EntryChanged(mem, mem', t, lvl, i)
    requires Path(path) && |path| == lvl && lvl > 0 && path[0] != i
    ensures Walk(mem', t, path) == Walk(mem, t, path)
  {
    OthersAgree(mem, mem', t, lvl, i, path[0]);
    WalkEntryKept(mem, mem', mem[t][path[0]], lvl, path[1..]);
  }
}
