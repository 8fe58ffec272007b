/**
 * The menu flattened into rows, and the test of a row against a path.
 */
module MenuRows {
  import opened MenuPath
  import opened Menu

  const NO_PARENT: int := -1
  const MAX_DEPTH: nat := 64
  const PATH_MAX: nat := 1024

  datatype Row = Row(name: string, parent: int, depth: nat, duplicate: nat, directory: bool, expanded: bool,
                     hasNext: bool)

  function MakeRow(t: Tree, first: Tree, i: nat, here: Address, e: set<Address>, parent: int, depth: nat): Row
    requires t.Entry?
  {
    Row(t.name, parent, depth, Same(first, t.name, i), t.sub.Entry?, here in e, t.next.Entry?)
  }

  function DataBelow(t: Tree, here: Address, e: set<Address>, depth: nat, at: nat): seq<Row>
    requires t.Entry?
    decreases t, 0
  {
    if Open(t, here, e) then Data(t.sub, t.sub, here, 0, e, at, depth + 1, at + 1) else []
  }

  /** What the rows of the siblings from the i-th on say, the first of them being row number at. */
  function Data(t: Tree, first: Tree, prefix: Address, i: nat, e: set<Address>, parent: int, depth: nat,
                at: nat): seq<Row>
    decreases t, 1
  {
    if t.Nil? then []
    else if Skipped(t) then Data(t.next, first, prefix, i + 1, e, parent, depth, at)
    else
      var below := DataBelow(t, prefix + [i], e, depth, at);
      [MakeRow(t, first, i, prefix + [i], e, parent, depth)] + below
      + Data(t.next, first, prefix, i + 1, e, parent, depth, at + 1 + |below|)
  }

  lemma {:induction false} DataSize(t: Tree, first: Tree, prefix: Address, i: nat, e: set<Address>, parent: int,
                                    depth: nat, at: nat)
    ensures |Data(t, first, prefix, i, e, parent, depth, at)| == |Rows(t, prefix, i, e)|
    decreases t
  {
    if t.Entry? {
      if !Skipped(t) {
        DataSize(t.sub, t.sub, prefix + [i], 0, e, at, depth + 1, at + 1);
        DataSize(t.next, first, prefix, i + 1, e, parent, depth, at + 1 + |DataBelow(t, prefix + [i], e, depth, at)|);
      } else {
        DataSize(t.next, first, prefix, i + 1, e, parent, depth, at);
      }
    }
  }

  // ---------------------------------------------------------------- the code

  class Model {
    const rows: array<Row>
    const entries: array<Address>

    constructor (count: nat)
      ensures fresh(rows) && fresh(entries) && rows.Length == entries.Length == count
    {
      rows := new Row[count](_ => Row([], NO_PARENT, 0, 0, false, false, false));
      entries := new Address[count](_ => []);
    }

    /** How many siblings before the entry bear its name. */
    method Duplicates(t: Tree, name: string, n: nat) returns (count: nat)
      requires Nth(t, n).Entry?
      ensures count == Same(t, name, n)
    {
      var prior, i := t, 0;
      count := 0;
      while i < n
        invariant i <= n && prior == Nth(t, i) && count == Same(t, name, i)
      {
        NthEntry(t, i, n);
        NthNext(t, i);
        SameNext(t, name, i);
        if !Skipped(prior) && prior.name == name {
          count := count + 1;
        }
        prior, i := prior.next, i + 1;
      }
    }

    method Set(index: nat, row: Row, here: Address)
      requires index < rows.Length && rows.Length == entries.Length
      modifies rows, entries
      ensures rows[..index + 1] == old(rows[..index]) + [row] && entries[..index + 1] == old(entries[..index]) + [here]
    {
      rows[index] := row;
      entries[index] := here;
      assert rows[..index] == old(rows[..index]) && entries[..index] == old(entries[..index]);
    }

    /** Writes the rows of a list of entries from the given row on. */
    method Project(t: Tree, prefix: Address, e: set<Address>, parent: int, depth: nat, index0: nat) returns (index: nat)
      requires index0 + |Rows(t, prefix, 0, e)| <= rows.Length == entries.Length
      modifies rows, entries
      ensures index == index0 + |Rows(t, prefix, 0, e)|
      ensures entries[..index] == old(entries[..index0]) + Rows(t, prefix, 0, e)
      ensures rows[..index] == old(rows[..index0]) + Data(t, t, prefix, 0, e, parent, depth, index0)
      decreases Size(t), 1
    {
      var cur, i := t, 0;
      index := index0;
      ghost var all := old(entries[..index0]) + Rows(t, prefix, 0, e);
      ghost var data := old(rows[..index0]) + Data(t, t, prefix, 0, e, parent, depth, index0);
      while cur.Entry?
        invariant cur == Nth(t, i) && Size(cur) <= Size(t)
        invariant index + |Rows(cur, prefix, i, e)| == index0 + |Rows(t, prefix, 0, e)|
        invariant entries[..index] + Rows(cur, prefix, i, e) == all
        invariant rows[..index] + Data(cur, t, prefix, i, e, parent, depth, index) == data
        decreases Size(cur)
      {
        NthNext(t, i);
        if !Skipped(cur) {
          index := ProjectEntry(cur, t, prefix, i, e, parent, depth, index);
        }
        cur, i := cur.next, i + 1;
      }
      EmptyTail(entries[..index], all);
      EmptyTail(rows[..index], data);
    }

    /** Writes an entry's own row and those below it. */
    method ProjectEntry(cur: Tree, t: Tree, prefix: Address, i: nat, e: set<Address>, parent: int, depth: nat,
                        index0: nat)
      returns (index: nat)
      requires cur.Entry? && cur == Nth(t, i) && !Skipped(cur)
      requires index0 + |Rows(cur, prefix, i, e)| <= rows.Length == entries.Length
      modifies rows, entries
      ensures index == index0 + 1 + |Below(cur, prefix + [i], e)|
      ensures entries[..index] + Rows(cur.next, prefix, i + 1, e) == old(entries[..index0]) + Rows(cur, prefix, i, e)
      ensures rows[..index] + Data(cur.next, t, prefix, i + 1, e, parent, depth, index)
           == old(rows[..index0]) + Data(cur, t, prefix, i, e, parent, depth, index0)
      decreases Size(cur), 0
    {
      var here := prefix + [i];
      var dup := Duplicates(t, cur.name, i);
      Set(index0, Row(cur.name, parent, depth, dup, cur.sub.Entry?, here in e, cur.next.Entry?), here);
      index := index0 + 1;
      ghost var mine, row := entries[..index], rows[..index];
      DataSize(cur.sub, cur.sub, here, 0, e, index0, depth + 1, index0 + 1);
      if cur.sub.Entry? && here in e {
        index := Project(cur.sub, here, e, index0, depth + 1, index);
      } else {
        EmptyTail(mine, mine + []);
        EmptyTail(row, row + []);
      }
      Join(old(entries[..index0]), [here], Below(cur, here, e), Rows(cur.next, prefix, i + 1, e));
      Join(old(rows[..index0]), [MakeRow(cur, t, i, here, e, parent, depth)], DataBelow(cur, here, e, depth, index0),
           Data(cur.next, t, prefix, i + 1, e, parent, depth, index));
    }
  }

  lemma NthEntry(t: Tree, i: nat, j: nat)
    requires i <= j && Nth(t, j).Entry?
    ensures Nth(t, i).Entry?
  {
    if Nth(t, i).Nil? {
      NthNil(t, i, j);
    }
  }

  lemma EmptyTail<T>(a: seq<T>, b: seq<T>)
    requires a + [] == b
    ensures a == b
  {
    assert a + [] == a;
  }

  lemma Join<T>(a: seq<T>, b: seq<T>, c: seq<T>, d: seq<T>)
    ensures a + b + c + d == a + (b + c + d)
  {
  }

  // ---------------------------------------------------------------- what rows say of their entries

  /** Parents come before their children. */
  predicate WellFormed(rows: seq<Row>) {
    forall k :: 0 <= k < |rows| ==> -1 <= rows[k].parent < k
  }

  /** The names and ordinals from the top down to a row. */
  function ChainOf(rows: seq<Row>, k: nat): seq<Component>
    requires WellFormed(rows) && k < |rows|
    decreases k
  {
    (if rows[k].parent < 0 then [] else ChainOf(rows, rows[k].parent)) + [Component(rows[k].name, rows[k].duplicate)]
  }

  /** Rows from at on are those of a list of entries. */
  ghost predicate Segment(rows: seq<Row>, entries: seq<Address>, t: Tree, first: Tree, prefix: Address, i: nat,
                          e: set<Address>, parent: int, depth: nat, at: nat)
  {
    var n := |Rows(t, prefix, i, e)|;
    && at + n <= |rows| == |entries| && t == Nth(first, i) && -1 <= parent < at
    && entries[at..at + n] == Rows(t, prefix, i, e)
    && rows[at..at + n] == Data(t, first, prefix, i, e, parent, depth, at)
  }

  lemma SegmentSkips(rows: seq<Row>, entries: seq<Address>, t: Tree, first: Tree, prefix: Address, i: nat,
                     e: set<Address>, parent: int, depth: nat, at: nat)
    requires Segment(rows, entries, t, first, prefix, i, e, parent, depth, at) && t.Entry? && Skipped(t)
    ensures Segment(rows, entries, t.next, first, prefix, i + 1, e, parent, depth, at)
    ensures |Rows(t, prefix, i, e)| == |Rows(t.next, prefix, i + 1, e)|
  {
    NthNext(first, i);
  }

  /** A list's rows are its first entry's row, the rows below that, and the rows of the rest. */
  lemma SegmentSplits(rows: seq<Row>, entries: seq<Address>, t: Tree, first: Tree, prefix: Address, i: nat,
                      e: set<Address>, parent: int, depth: nat, at: nat, here: Address, b: nat)
    requires Segment(rows, entries, t, first, prefix, i, e, parent, depth, at) && t.Entry? && !Skipped(t)
    requires here == prefix + [i] && b == |Below(t, here, e)|
    ensures at + 1 + b <= |rows| && rows[at] == MakeRow(t, first, i, here, e, parent, depth) && entries[at] == here
    ensures Open(t, here, e) ==> Segment(rows, entries, t.sub, t.sub, here, 0, e, at, depth + 1, at + 1)
    ensures Segment(rows, entries, t.next, first, prefix, i + 1, e, parent, depth, at + 1 + b)
    ensures |Rows(t, prefix, i, e)| == 1 + b + |Rows(t.next, prefix, i + 1, e)|
  {
    SegmentParts(rows, entries, t, first, prefix, i, e, parent, depth, at, here, b);
    NthNext(first, i);
    assert rows[at..at + 1][0] == rows[at] && entries[at..at + 1][0] == entries[at];
  }

  lemma SegmentParts(rows: seq<Row>, entries: seq<Address>, t: Tree, first: Tree, prefix: Address, i: nat,
                     e: set<Address>, parent: int, depth: nat, at: nat, here: Address, b: nat)
    requires Segment(rows, entries, t, first, prefix, i, e, parent, depth, at) && t.Entry? && !Skipped(t)
    requires here == prefix + [i] && b == |Below(t, here, e)|
    ensures var end := at + 1 + b; var n := |Rows(t.next, prefix, i + 1, e)|;
            && end + n <= |rows| == |entries| && |Rows(t, prefix, i, e)| == 1 + b + n
            && entries[at..at + 1] == [here] && entries[at + 1..end] == Below(t, here, e)
            && entries[end..end + n] == Rows(t.next, prefix, i + 1, e)
            && rows[at..at + 1] == [MakeRow(t, first, i, here, e, parent, depth)]
            && rows[at + 1..end] == DataBelow(t, here, e, depth, at)
            && rows[end..end + n] == Data(t.next, first, prefix, i + 1, e, parent, depth, end)
  {
    RowsCons(t, first, prefix, i, e, parent, depth, at, here, b);
    var row, below := MakeRow(t, first, i, here, e, parent, depth), Below(t, here, e);
    var db := DataBelow(t, here, e, depth, at);
    var rest, rd := Rows(t.next, prefix, i + 1, e), Data(t.next, first, prefix, i + 1, e, parent, depth, at + 1 + b);
    Three(entries, at, [here], below, rest);
    Three(rows, at, [row], db, rd);
  }

  lemma RowsCons(t: Tree, first: Tree, prefix: Address, i: nat, e: set<Address>, parent: int, depth: nat, at: nat,
                 here: Address, b: nat)
    requires t.Entry? && !Skipped(t) && here == prefix + [i] && b == |Below(t, here, e)|
    ensures Rows(t, prefix, i, e) == [here] + Below(t, here, e) + Rows(t.next, prefix, i + 1, e)
    ensures Data(t, first, prefix, i, e, parent, depth, at)
         == [MakeRow(t, first, i, here, e, parent, depth)] + DataBelow(t, here, e, depth, at)
            + Data(t.next, first, prefix, i + 1, e, parent, depth, at + 1 + b)
    ensures |DataBelow(t, here, e, depth, at)| == b
    ensures |Data(t.next, first, prefix, i + 1, e, parent, depth, at + 1 + b)| == |Rows(t.next, prefix, i + 1, e)|
  {
    DataSize(t.sub, t.sub, here, 0, e, at, depth + 1, at + 1);
    DataSize(t.next, first, prefix, i + 1, e, parent, depth, at + 1 + b);
  }

  lemma Three<T>(s: seq<T>, at: nat, a: seq<T>, b: seq<T>, c: seq<T>)
    requires at + |a| + |b| + |c| <= |s| && s[at..at + (|a| + |b| + |c|)] == a + b + c
    ensures s[at..at + |a|] == a && s[at + |a|..at + |a| + |b|] == b && s[at + |a| + |b|..at + |a| + |b| + |c|] == c
  {
    var part := s[at..at + (|a| + |b| + |c|)];
    Slice(s, at, |part|, 0, |a|);
    Slice(s, at, |part|, |a|, |a| + |b|);
    Slice(s, at, |part|, |a| + |b|, |part|);
    assert part[0..|a|] == a && part[|a|..|a| + |b|] == b && part[|a| + |b|..|part|] == c;
  }

  lemma Slice<T>(s: seq<T>, at: nat, n: nat, lo: nat, hi: nat)
    requires lo <= hi <= n && at + n <= |s|
    ensures s[at..at + n][lo..hi] == s[at + lo..at + hi]
  {
    var part, a, b := s[at..at + n], s[at..at + n][lo..hi], s[at + lo..at + hi];
    assert |a| == |b|;
    forall k | 0 <= k < |a| ensures a[k] == b[k] {
      assert a[k] == part[lo + k];
    }
  }

  lemma {:induction false} SegmentFormed(rows: seq<Row>, entries: seq<Address>, t: Tree, first: Tree, prefix: Address,
                                         i: nat, e: set<Address>, parent: int, depth: nat, at: nat)
    requires Segment(rows, entries, t, first, prefix, i, e, parent, depth, at)
    ensures forall k :: at <= k < at + |Rows(t, prefix, i, e)| ==> -1 <= rows[k].parent < k
    decreases t
  {
    if t.Entry? {
      if Skipped(t) {
        SegmentSkips(rows, entries, t, first, prefix, i, e, parent, depth, at);
        SegmentFormed(rows, entries, t.next, first, prefix, i + 1, e, parent, depth, at);
      } else {
        var here := prefix + [i];
        SegmentSplits(rows, entries, t, first, prefix, i, e, parent, depth, at, here, |Below(t, here, e)|);
        SegmentFormed(rows, entries, t.next, first, prefix, i + 1, e, parent, depth, at + 1 + |Below(t, here, e)|);
        if Open(t, here, e) {
          SegmentFormed(rows, entries, t.sub, t.sub, here, 0, e, at, depth + 1, at + 1);
        }
      }
    }
  }

  function Ancestors(rows: seq<Row>, parent: int): seq<Component>
    requires WellFormed(rows) && -1 <= parent < |rows|
  {
    if parent < 0 then [] else ChainOf(rows, parent)
  }

  /** A row's chain is its entry's. */
  ghost predicate Faithful(rows: seq<Row>, entries: seq<Address>, first: Tree, prefix: Address, parent: int, k: nat)
    requires WellFormed(rows) && |rows| == |entries| && k < |rows| && -1 <= parent < |rows|
  {
    && prefix <= entries[k] && Valid(first, entries[k][|prefix|..])
    && ChainOf(rows, k) == Ancestors(rows, parent) + Chain(first, entries[k][|prefix|..])
  }

  lemma FaithfulHere(rows: seq<Row>, entries: seq<Address>, first: Tree, prefix: Address, i: nat, parent: int, k: nat)
    requires WellFormed(rows) && |rows| == |entries| && k < |rows| && -1 <= parent < |rows| && rows[k].parent == parent
    requires Nth(first, i).Entry? && !Skipped(Nth(first, i)) && entries[k] == prefix + [i]
    requires rows[k].name == Nth(first, i).name && rows[k].duplicate == Same(first, rows[k].name, i)
    ensures Faithful(rows, entries, first, prefix, parent, k)
  {
    assert entries[k][|prefix|..] == [i];
  }

  lemma FaithfulBelow(rows: seq<Row>, entries: seq<Address>, first: Tree, prefix: Address, i: nat, parent: int,
                      at: nat, k: nat)
    requires WellFormed(rows) && |rows| == |entries| && k < |rows| && at < |rows| && -1 <= parent < |rows|
    requires Nth(first, i).Entry? && !Skipped(Nth(first, i)) && entries[at] == prefix + [i]
    requires Faithful(rows, entries, first, prefix, parent, at)
    requires Faithful(rows, entries, Nth(first, i).sub, prefix + [i], at, k)
    ensures Faithful(rows, entries, first, prefix, parent, k)
  {
    var here := prefix + [i];
    var a, rest := entries[k][|prefix|..], entries[k][|here|..];
    assert entries[k][|prefix|] == here[|prefix|];
    assert a == [i] + rest && a[1..] == rest && entries[at][|prefix|..] == [i];
    assert Chain(first, [i]) == [Step(first, i)];
    Chained(Ancestors(rows, parent), Step(first, i), Chain(Nth(first, i).sub, rest));
  }

  lemma Chained(a: seq<Component>, c: Component, b: seq<Component>)
    ensures a + [c] + b == a + ([c] + b)
  {
  }

  /** Every row written for a list of entries has its entry's chain. */
  lemma {:induction false} SegmentFaithful(rows: seq<Row>, entries: seq<Address>, t: Tree, first: Tree,
                                           prefix: Address, i: nat, e: set<Address>, parent: int, depth: nat, at: nat,
                                           k: nat)
    requires WellFormed(rows) && Segment(rows, entries, t, first, prefix, i, e, parent, depth, at)
    requires at <= k < at + |Rows(t, prefix, i, e)|
    ensures Faithful(rows, entries, first, prefix, parent, k)
    decreases t
  {
    if Skipped(t) {
      SegmentSkips(rows, entries, t, first, prefix, i, e, parent, depth, at);
      SegmentFaithful(rows, entries, t.next, first, prefix, i + 1, e, parent, depth, at, k);
    } else {
      var here := prefix + [i];
      var next := at + 1 + |Below(t, here, e)|;
      SegmentSplits(rows, entries, t, first, prefix, i, e, parent, depth, at, here, |Below(t, here, e)|);
      if k >= next {
        SegmentFaithful(rows, entries, t.next, first, prefix, i + 1, e, parent, depth, next, k);
      } else {
        FaithfulHere(rows, entries, first, prefix, i, parent, at);
        if k > at {
          SegmentFaithful(rows, entries, t.sub, t.sub, here, 0, e, at, depth + 1, at + 1, k);
          FaithfulBelow(rows, entries, first, prefix, i, parent, at, k);
        }
      }
    }
  }

  // ---------------------------------------------------------------- what else a row says

  /** The entry at an address. */
  function EntryAt(t: Tree, a: Address): (r: Tree)
    requires Valid(t, a)
    ensures r.Entry?
    decreases |a|
  {
    if |a| == 1 then Nth(t, a[0]) else EntryAt(Nth(t, a[0]).sub, a[1..])
  }

  /** A row says how deep its entry is, and whether that is a directory, is expanded, and has a sibling after it. */
  predicate Tells(r: Row, a: Address, first: Tree, prefix: Address, depth: nat, e: set<Address>) {
    && prefix <= a && Valid(first, a[|prefix|..])
    && var entry := EntryAt(first, a[|prefix|..]);
       && r.depth == depth + |a| - |prefix| - 1 && r.directory == entry.sub.Entry?
       && r.expanded == (a in e) && r.hasNext == entry.next.Entry?
  }

  lemma TellsHere(t: Tree, first: Tree, prefix: Address, i: nat, e: set<Address>, parent: int, depth: nat)
    requires t.Entry? && t == Nth(first, i) && !Skipped(t)
    ensures Tells(MakeRow(t, first, i, prefix + [i], e, parent, depth), prefix + [i], first, prefix, depth, e)
  {
    assert (prefix + [i])[|prefix|..] == [i];
  }

  lemma TellsBelow(r: Row, a: Address, first: Tree, prefix: Address, i: nat, depth: nat, e: set<Address>)
    requires Nth(first, i).Entry? && !Skipped(Nth(first, i))
    requires Tells(r, a, Nth(first, i).sub, prefix + [i], depth + 1, e)
    ensures Tells(r, a, first, prefix, depth, e)
  {
    var here := prefix + [i];
    var rest := a[|here|..];
    assert a[|prefix|] == here[|prefix|];
    assert a[|prefix|..] == [i] + rest && ([i] + rest)[1..] == rest;
  }

  lemma {:induction false} SegmentTells(rows: seq<Row>, entries: seq<Address>, t: Tree, first: Tree, prefix: Address,
                                        i: nat, e: set<Address>, parent: int, depth: nat, at: nat, k: nat)
    requires Segment(rows, entries, t, first, prefix, i, e, parent, depth, at)
    requires at <= k < at + |Rows(t, prefix, i, e)|
    ensures Tells(rows[k], entries[k], first, prefix, depth, e)
    decreases t
  {
    if Skipped(t) {
      SegmentSkips(rows, entries, t, first, prefix, i, e, parent, depth, at);
      SegmentTells(rows, entries, t.next, first, prefix, i + 1, e, parent, depth, at, k);
    } else {
      var here := prefix + [i];
      var next := at + 1 + |Below(t, here, e)|;
      SegmentSplits(rows, entries, t, first, prefix, i, e, parent, depth, at, here, |Below(t, here, e)|);
      if k >= next {
        SegmentTells(rows, entries, t.next, first, prefix, i + 1, e, parent, depth, next, k);
      } else if k > at {
        SegmentTells(rows, entries, t.sub, t.sub, here, 0, e, at, depth + 1, at + 1, k);
        TellsBelow(rows[k], entries[k], first, prefix, i, depth, e);
      } else {
        TellsHere(t, first, prefix, i, e, parent, depth);
      }
    }
  }

  // ---------------------------------------------------------------- one row for each entry

  /** No entry has two rows. */
  lemma {:induction false} RowsDistinct(t: Tree, prefix: Address, i: nat, e: set<Address>, j: nat, k: nat)
    requires j < k < |Rows(t, prefix, i, e)|
    ensures Rows(t, prefix, i, e)[j] != Rows(t, prefix, i, e)[k]
    decreases t
  {
    if Skipped(t) {
      RowsDistinct(t.next, prefix, i + 1, e, j, k);
    } else {
      var here, below, next := prefix + [i], Below(t, prefix + [i], e), Rows(t.next, prefix, i + 1, e);
      var b := |below|;
      if j > b {
        RowsDistinct(t.next, prefix, i + 1, e, j - 1 - b, k - 1 - b);
      } else if k > b {
        RowsUnder(t.next, prefix, i + 1, e, k - 1 - b);
        if j > 0 {
          RowsUnder(t.sub, here, 0, e, j - 1);
          assert below[j - 1][|prefix|] == here[|prefix|];
        }
      } else {
        RowsUnder(t.sub, here, 0, e, k - 1);
        if j > 0 {
          RowsDistinct(t.sub, here, 0, e, j - 1, k - 1);
        }
      }
    }
  }

  /** The rows of the whole menu. */
  ghost predicate Projection(rows: seq<Row>, entries: seq<Address>, tree: Tree, e: set<Address>) {
    entries == Rows(tree, [], 0, e) && rows == Data(tree, tree, [], 0, e, NO_PARENT, 0, 0)
  }

  lemma ProjectionFormed(rows: seq<Row>, entries: seq<Address>, tree: Tree, e: set<Address>)
    requires Projection(rows, entries, tree, e)
    ensures |rows| == |entries| && WellFormed(rows)
    ensures forall k :: 0 <= k < |rows| ==> Valid(tree, entries[k]) && ChainOf(rows, k) == Chain(tree, entries[k])
  {
    DataSize(tree, tree, [], 0, e, NO_PARENT, 0, 0);
    assert rows[0..0 + |rows|] == rows && entries[0..0 + |rows|] == entries;
    SegmentFormed(rows, entries, tree, tree, [], 0, e, NO_PARENT, 0, 0);
    forall k | 0 <= k < |rows| ensures Valid(tree, entries[k]) && ChainOf(rows, k) == Chain(tree, entries[k]) {
      SegmentFaithful(rows, entries, tree, tree, [], 0, e, NO_PARENT, 0, 0, k);
      assert entries[k][0..] == entries[k];
    }
  }

  /** In the whole menu every row tells what its entry is. */
  lemma ProjectionTells(rows: seq<Row>, entries: seq<Address>, tree: Tree, e: set<Address>, k: nat)
    requires Projection(rows, entries, tree, e) && k < |entries|
    ensures |rows| == |entries| && Tells(rows[k], entries[k], tree, [], 0, e)
  {
    DataSize(tree, tree, [], 0, e, NO_PARENT, 0, 0);
    assert rows[0..0 + |rows|] == rows && entries[0..0 + |rows|] == entries;
    SegmentTells(rows, entries, tree, tree, [], 0, e, NO_PARENT, 0, 0, k);
  }

  /** A visible entry's path matches its own row and no other. */
  lemma OnlyItsRow(rows: seq<Row>, entries: seq<Address>, tree: Tree, e: set<Address>, goal: Address, idx: nat, k: nat)
    requires Projection(rows, entries, tree, e) && Valid(tree, goal) && Proper(Chain(tree, goal))
    requires idx < |entries| && entries[idx] == goal && k < |rows|
    ensures |rows| == |entries| && WellFormed(rows)
    ensures Matches(ChainOf(rows, k), Text(Chain(tree, goal))) <==> k == idx
  {
    ProjectionFormed(rows, entries, tree, e);
    MatchesOwn(Chain(tree, goal));
    if Matches(ChainOf(rows, k), Text(Chain(tree, goal))) {
      MatchesOnly(ChainOf(rows, k), Chain(tree, goal));
      ChainInjective(tree, entries[k], goal);
    }
    if k < idx {
      RowsDistinct(tree, [], 0, e, k, idx);
    } else if idx < k {
      RowsDistinct(tree, [], 0, e, idx, k);
    }
  }

  // ---------------------------------------------------------------- testing a row

  /** The chain of a row is as long as the row is deep. */
  method Climb(rows: seq<Row>, index: nat) returns (ok: bool, chain: seq<nat>)
    requires WellFormed(rows) && index < |rows|
    ensures ok <==> |ChainOf(rows, index)| <= MAX_DEPTH
    ensures forall k :: 0 <= k < |chain| ==> chain[k] < |rows|
    ensures ok ==> Components(rows, chain) == ChainOf(rows, index)
  {
    chain := [];
    var at: int := index;
    EmptyTail(ChainOf(rows, index), ChainOf(rows, index) + []);
    while at != NO_PARENT
      invariant -1 <= at < |rows| && |chain| <= MAX_DEPTH && forall k :: 0 <= k < |chain| ==> chain[k] < |rows|
      invariant Ancestors(rows, at) + Components(rows, chain) == ChainOf(rows, index)
      decreases at
    {
      if |chain| == MAX_DEPTH {
        ComponentsSize(rows, chain);
        assert |Ancestors(rows, at)| > 0;
        return false, chain;
      }
      ComponentsGrow(rows, chain, at);
      chain := chain + [at];
      at := rows[at].parent;
    }
    ComponentsSize(rows, chain);
    ok := true;
  }

  /** The components of rows listed from the bottom up. */
  function Components(rows: seq<Row>, chain: seq<nat>): seq<Component>
    requires forall k :: 0 <= k < |chain| ==> chain[k] < |rows|
  {
    if chain == [] then []
    else
      var r := rows[chain[|chain| - 1]];
      [Component(r.name, r.duplicate)] + Components(rows, chain[..|chain| - 1])
  }

  lemma ComponentsSize(rows: seq<Row>, chain: seq<nat>)
    requires forall k :: 0 <= k < |chain| ==> chain[k] < |rows|
    ensures |Components(rows, chain)| == |chain|
  {
  }

  lemma ComponentsGrow(rows: seq<Row>, chain: seq<nat>, at: nat)
    requires WellFormed(rows) && at < |rows| && forall k :: 0 <= k < |chain| ==> chain[k] < |rows|
    ensures Ancestors(rows, at) + Components(rows, chain)
         == Ancestors(rows, rows[at].parent) + Components(rows, chain + [at])
  {
    assert (chain + [at])[..|chain|] == chain;
    Chained(Ancestors(rows, rows[at].parent), Component(rows[at].name, rows[at].duplicate), Components(rows, chain));
  }

  /** Whether a row is the one a path names: its chain, read from the top, is the path. */
  method RowMatches(rows: seq<Row>, index: nat, path: string) returns (same: bool)
    requires WellFormed(rows) && index < |rows|
    ensures same <==> |ChainOf(rows, index)| <= MAX_DEPTH && Matches(ChainOf(rows, index), path)
  {
    var ok, chain := Climb(rows, index);
    if !ok {
      return false;
    }
    same := MatchRows(rows, chain, path);
  }

  /** The loop over the chain, from the top down. */
  method MatchRows(rows: seq<Row>, chain: seq<nat>, path: string) returns (same: bool)
    requires forall k :: 0 <= k < |chain| ==> chain[k] < |rows|
    ensures same <==> Matches(Components(rows, chain), path)
  {
    var p := path;
    var count := |chain|;
    assert chain[..count] == chain;
    while count != 0
      invariant count <= |chain|
      invariant Matches(Components(rows, chain[..count]), p) == Matches(Components(rows, chain), path)
    {
      assert chain[..count][..count - 1] == chain[..count - 1];
      MatchesSteps(rows, chain[..count], p);
      var m := TakeRow(rows[chain[count - 1]], p, count > 1);
      if m.Fails? {
        return false;
      }
      p := m.rest;
      count := count - 1;
    }
    assert chain[..0] == [];
    same := p == [];
  }

  /** A component off the path, with the separator if more is to come. */
  function StepOff(c: Component, path: string, more: bool): Match {
    match MatchComponent(c, path)
    case Fails => Fails
    case Left(rest) => if !more then Left(rest) else if rest == [] || rest[0] != '/' then Fails else Left(rest[1..])
  }

  lemma MatchesSteps(rows: seq<Row>, chain: seq<nat>, path: string)
    requires chain != [] && forall k :: 0 <= k < |chain| ==> chain[k] < |rows|
    ensures var n := |chain| - 1; var r := rows[chain[n]];
            var m := StepOff(Component(r.name, r.duplicate), path, n > 0);
            Matches(Components(rows, chain), path) <==> m.Left? && Matches(Components(rows, chain[..n]), m.rest)
  {
    var n := |chain| - 1;
    var all := Components(rows, chain);
    ComponentsSize(rows, chain);
    ComponentsSize(rows, chain[..n]);
    assert all[1..] == Components(rows, chain[..n]);
  }

  method TakeRow(row: Row, path: string, more: bool) returns (m: Match)
    ensures m == StepOff(Component(row.name, row.duplicate), path, more)
  {
    m := TakeName(row.name, path);
    if m.Fails? {
      return;
    }
    m := TakeDup(row.duplicate, m.rest);
    if m.Fails? || !more {
      return;
    }
    m := if m.rest == [] || m.rest[0] != '/' then Fails else Left(m.rest[1..]);
  }

  /** The rows of the menu as it stands, in buffers of just the size counted. */
  method Flatten(view: View) returns (model: Model)
    ensures fresh(model) && fresh(model.rows) && fresh(model.entries) && model.rows.Length == model.entries.Length
    ensures Projection(model.rows[..], model.entries[..], view.tree, view.expanded) && WellFormed(model.rows[..])
  {
    var count := view.Count(view.tree, []);
    model := new Model(count);
    var end := model.Project(view.tree, [], view.expanded, NO_PARENT, 0, 0);
    assert [] + Rows(view.tree, [], 0, view.expanded) == Rows(view.tree, [], 0, view.expanded);
    ProjectionFormed(model.rows[..], model.entries[..], view.tree, view.expanded);
  }

  lemma Selected(rows: seq<Row>, entries: seq<Address>, tree: Tree, e: set<Address>, goal: Address, idx: nat)
    requires Projection(rows, entries, tree, e) && Valid(tree, goal) && Proper(Chain(tree, goal))
    requires idx < |entries| && entries[idx] == goal
    ensures |rows| == |entries| && WellFormed(rows)
    ensures forall k :: 0 <= k < |rows| ==> (Matches(ChainOf(rows, k), Text(Chain(tree, goal))) <==> k == idx)
    ensures |ChainOf(rows, idx)| == |goal|
  {
    ProjectionFormed(rows, entries, tree, e);
    forall k | 0 <= k < |rows| ensures Matches(ChainOf(rows, k), Text(Chain(tree, goal))) <==> k == idx {
      OnlyItsRow(rows, entries, tree, e, goal, idx, k);
    }
    assert ChainOf(rows, idx) == Chain(tree, entries[idx]);
  }

  /**
   * The row found by path, in the menu as expanded by finding it: its row matches the path, and no other does. The
   * test of a row, which climbs no further than MAX_DEPTH, accepts it exactly if the entry is no deeper than that.
   */
  method SelectByPath(view: View, goal: Address) returns (idx: nat, model: Model)
    requires Valid(view.tree, goal) && Proper(Chain(view.tree, goal))
    requires |Text(Chain(view.tree, goal))| < PATH_MAX
    modifies view`expanded
    ensures idx < model.rows.Length == model.entries.Length
    ensures Projection(model.rows[..], model.entries[..], view.tree, view.expanded)
    ensures WellFormed(model.rows[..]) && model.entries[..][idx] == goal
    ensures forall k :: 0 <= k < model.rows.Length ==>
              (Matches(ChainOf(model.rows[..], k), Text(Chain(view.tree, goal))) <==> k == idx)
    ensures forall k :: 0 <= k < model.rows.Length ==>
              (&& |ChainOf(model.rows[..], k)| <= MAX_DEPTH
               && Matches(ChainOf(model.rows[..], k), Text(Chain(view.tree, goal)))
               <==> k == idx && |goal| <= MAX_DEPTH)
  {
    var path := EntryPath(Chain(view.tree, goal), PATH_MAX);
    TextParses(Chain(view.tree, goal));
    var found, at;
    ghost var rel;
    found, at, idx, rel := view.Find(path, view.tree, [], 0, true, goal);
    assert [] + rel == rel;
    model := Flatten(view);
    Selected(model.rows[..], model.entries[..], view.tree, view.expanded, goal, idx);
  }
}
