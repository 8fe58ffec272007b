/**
 * The boot menu: a tree of entries, the rows it shows, and finding an entry by its path.
 */
module Menu {
  import opened MenuPath

  /** A list of sibling entries; an entry with a list below it is a directory. */
  datatype Tree = Nil | Entry(name: string, hidden: bool, sub: Tree, next: Tree)

  /** Where an entry is: its place among its siblings, on each level from the top. */
  type Address = seq<nat>

  /** Entries that do not apply are passed over; directories always apply. */
  predicate Skipped(t: Tree)
    requires t.Entry?
  {
    t.sub.Nil? && t.hidden
  }

  function Nth(t: Tree, i: nat): Tree {
    if i == 0 || t.Nil? then t else Nth(t.next, i - 1)
  }

  lemma {:induction false} NthNext(t: Tree, i: nat)
    requires Nth(t, i).Entry?
    ensures Nth(t, i + 1) == Nth(t, i).next
  {
    if i > 0 {
      NthNext(t.next, i - 1);
    }
  }

  /** How many of the first n siblings bear the name. */
  function Same(t: Tree, name: string, n: nat): nat {
    if n == 0 || t.Nil? then 0 else (if !Skipped(t) && t.name == name then 1 else 0) + Same(t.next, name, n - 1)
  }

  lemma {:induction false} SameNext(t: Tree, name: string, n: nat)
    requires Nth(t, n).Entry?
    ensures Same(t, name, n + 1) == Same(t, name, n) + if !Skipped(Nth(t, n)) && Nth(t, n).name == name then 1 else 0
  {
    if n > 0 {
      SameNext(t.next, name, n - 1);
    }
  }

  lemma {:induction false} SameGrows(t: Tree, name: string, m: nat, n: nat)
    requires m <= n
    ensures Same(t, name, m) <= Same(t, name, n)
  {
    if m > 0 && t.Entry? {
      SameGrows(t.next, name, m - 1, n - 1);
    }
  }

  /** The siblings before the n-th that are shown under the name. */
  function Earlier(t: Tree, name: string, n: nat): set<nat> {
    set j | 0 <= j < n && Nth(t, j).Entry? && !Skipped(Nth(t, j)) && Nth(t, j).name == name
  }

  lemma {:induction false} SameIs(t: Tree, name: string, n: nat)
    ensures Same(t, name, n) == |Earlier(t, name, n)|
  {
    if n > 0 {
      SameIs(t, name, n - 1);
      EarlierNext(t, name, n - 1);
      if Nth(t, n - 1).Entry? {
        SameNext(t, name, n - 1);
      } else {
        SameEnds(t, name, n - 1);
      }
    }
  }

  lemma EarlierNext(t: Tree, name: string, n: nat)
    ensures var last := Nth(t, n);
            |Earlier(t, name, n + 1)|
            == |Earlier(t, name, n)| + if last.Entry? && !Skipped(last) && last.name == name then 1 else 0
  {
    var last, m := Nth(t, n), n + 1;
    if last.Entry? && !Skipped(last) && last.name == name {
      assert Earlier(t, name, m) == Earlier(t, name, n) + {n};
    } else {
      assert Earlier(t, name, m) == Earlier(t, name, n);
    }
  }

  lemma {:induction false} SameEnds(t: Tree, name: string, n: nat)
    requires Nth(t, n).Nil?
    ensures Same(t, name, n + 1) == Same(t, name, n)
  {
    if n > 0 && t.Entry? {
      SameEnds(t.next, name, n - 1);
    }
  }

  // ---------------------------------------------------------------- addresses and their chains

  predicate Valid(t: Tree, a: Address)
    decreases |a|
  {
    && a != [] && Nth(t, a[0]).Entry? && !Skipped(Nth(t, a[0]))
    && (|a| == 1 || Valid(Nth(t, a[0]).sub, a[1..]))
  }

  function Step(t: Tree, i: nat): Component
    requires Nth(t, i).Entry?
  {
    Component(Nth(t, i).name, Same(t, Nth(t, i).name, i))
  }

  function Chain(t: Tree, a: Address): (c: seq<Component>)
    requires Valid(t, a)
    ensures |c| == |a|
    decreases |a|
  {
    [Step(t, a[0])] + if |a| == 1 then [] else Chain(Nth(t, a[0]).sub, a[1..])
  }

  /** Two siblings that are both shown differ in name or in ordinal. */
  lemma StepDiffers(t: Tree, i: nat, j: nat)
    requires i < j && Nth(t, i).Entry? && Nth(t, j).Entry? && !Skipped(Nth(t, i))
    ensures Step(t, i) != Step(t, j)
  {
    SameNext(t, Nth(t, i).name, i);
    SameGrows(t, Nth(t, i).name, i + 1, j);
  }

  /** Different entries have different chains. */
  lemma {:induction false} ChainInjective(t: Tree, a: Address, b: Address)
    requires Valid(t, a) && Valid(t, b) && Chain(t, a) == Chain(t, b)
    ensures a == b
    decreases |a|
  {
    assert Chain(t, a)[0] == Chain(t, b)[0];
    if a[0] < b[0] {
      StepDiffers(t, a[0], b[0]);
    } else if b[0] < a[0] {
      StepDiffers(t, b[0], a[0]);
    } else {
      if |a| > 1 {
        assert Chain(t, a)[1..] == Chain(t, b)[1..];
        ChainInjective(Nth(t, a[0]).sub, a[1..], b[1..]);
      }
      assert a == [a[0]] + a[1..] && b == [b[0]] + b[1..];
    }
  }

  // ---------------------------------------------------------------- visible rows

  function Open(t: Tree, here: Address, expanded: set<Address>): bool
    requires t.Entry?
  {
    t.sub.Entry? && here in expanded
  }

  /** The rows below an entry. */
  function Below(t: Tree, here: Address, expanded: set<Address>): seq<Address>
    requires t.Entry?
    decreases t, 0
  {
    if Open(t, here, expanded) then Rows(t.sub, here, 0, expanded) else []
  }

  /** The rows of the siblings from the i-th on, of which t is the list. */
  function Rows(t: Tree, prefix: Address, i: nat, expanded: set<Address>): seq<Address>
    decreases t, 1
  {
    if t.Nil? then []
    else if Skipped(t) then Rows(t.next, prefix, i + 1, expanded)
    else [prefix + [i]] + Below(t, prefix + [i], expanded) + Rows(t.next, prefix, i + 1, expanded)
  }

  /** The rows of the next n siblings. */
  function RowsOf(t: Tree, prefix: Address, i: nat, n: nat, expanded: set<Address>): seq<Address>
    decreases n
  {
    if n == 0 || t.Nil? then []
    else if Skipped(t) then RowsOf(t.next, prefix, i + 1, n - 1, expanded)
    else [prefix + [i]] + Below(t, prefix + [i], expanded) + RowsOf(t.next, prefix, i + 1, n - 1, expanded)
  }

  lemma {:induction false} RowsSplit(t: Tree, prefix: Address, i: nat, n: nat, expanded: set<Address>)
    ensures Rows(t, prefix, i, expanded) == RowsOf(t, prefix, i, n, expanded) + Rows(Nth(t, n), prefix, i + n, expanded)
    decreases n
  {
    if n > 0 && t.Entry? {
      RowsSplit(t.next, prefix, i + 1, n - 1, expanded);
    }
  }

  lemma {:induction false} RowsOfNext(t: Tree, prefix: Address, i: nat, n: nat, expanded: set<Address>)
    requires Nth(t, n).Entry?
    ensures RowsOf(t, prefix, i, n + 1, expanded) == RowsOf(t, prefix, i, n, expanded) +
            if Skipped(Nth(t, n)) then [] else [prefix + [i + n]] + Below(Nth(t, n), prefix + [i + n], expanded)
    decreases n
  {
    if n > 0 {
      RowsOfNext(t.next, prefix, i + 1, n - 1, expanded);
    }
  }

  /** An address below or after the i-th sibling under the prefix. */
  predicate Under(a: Address, prefix: Address, i: nat) {
    |a| > |prefix| && prefix <= a && a[|prefix|] >= i
  }

  ghost predicate Agree(e: set<Address>, e': set<Address>, prefix: Address, i: nat, n: nat) {
    forall a :: Under(a, prefix, i) && a[|prefix|] < i + n ==> (a in e <==> a in e')
  }

  lemma {:induction false} RowsKept(t: Tree, prefix: Address, i: nat, e: set<Address>, e': set<Address>)
    requires forall a :: Under(a, prefix, i) ==> (a in e <==> a in e')
    ensures Rows(t, prefix, i, e) == Rows(t, prefix, i, e')
    decreases t
  {
    if t.Entry? {
      RowsKept(t.next, prefix, i + 1, e, e');
      var here := prefix + [i];
      forall a | Under(a, here, 0) ensures a in e <==> a in e' {
        assert a[|prefix|] == here[|prefix|];
      }
      RowsKept(t.sub, here, 0, e, e');
    }
  }

  /** Rows depend only on what is expanded among them. */
  lemma {:induction false} RowsOfKept(t: Tree, prefix: Address, i: nat, n: nat, e: set<Address>, e': set<Address>)
    requires Agree(e, e', prefix, i, n)
    ensures RowsOf(t, prefix, i, n, e) == RowsOf(t, prefix, i, n, e')
    decreases n
  {
    if n > 0 && t.Entry? {
      RowsOfKept(t.next, prefix, i + 1, n - 1, e, e');
      var here := prefix + [i];
      forall a | Under(a, here, 0) ensures a in e <==> a in e' {
        assert a[|prefix|] == here[|prefix|];
      }
      RowsKept(t.sub, here, 0, e, e');
      assert Under(here, prefix, i);
    }
  }

  // ---------------------------------------------------------------- which rows, and in which order

  /** Rows of a list lie at or after the i-th sibling. */
  lemma {:induction false} RowsUnder(t: Tree, prefix: Address, i: nat, e: set<Address>, k: nat)
    requires k < |Rows(t, prefix, i, e)|
    ensures Under(Rows(t, prefix, i, e)[k], prefix, i)
    decreases t
  {
    if Skipped(t) {
      RowsUnder(t.next, prefix, i + 1, e, k);
    } else {
      var here, below := prefix + [i], Below(t, prefix + [i], e);
      if 0 < k <= |below| {
        RowsUnder(t.sub, here, 0, e, k - 1);
        assert Rows(t, prefix, i, e)[k] == below[k - 1];
        assert below[k - 1][|prefix|] == here[|prefix|];
      } else if k > |below| {
        RowsUnder(t.next, prefix, i + 1, e, k - 1 - |below|);
      }
    }
  }

  /** An entry below or after the i-th sibling is shown: it applies, and every directory above it is expanded. */
  predicate Shown(t: Tree, prefix: Address, i: nat, e: set<Address>, a: Address) {
    && Under(a, prefix, i) && Valid(t, [a[|prefix|] - i] + a[|prefix| + 1..])
    && forall n :: |prefix| < n < |a| ==> a[..n] in e
  }

  /** The rows are exactly the entries shown. */
  lemma {:induction false} RowsAreShown(t: Tree, prefix: Address, i: nat, e: set<Address>, a: Address)
    ensures a in Rows(t, prefix, i, e) <==> Shown(t, prefix, i, e, a)
    decreases t
  {
    if t.Entry? {
      var here := prefix + [i];
      RowsAreShown(t.next, prefix, i + 1, e, a);
      if Under(a, prefix, i) {
        if a[|prefix|] > i {
          ShownLater(t, prefix, i, e, a);
        } else {
          RowsAreShown(t.sub, here, 0, e, a);
          ShownHere(t, prefix, i, e, a);
        }
      } else {
        NotUnder(t, prefix, i, e, a);
      }
    }
  }

  lemma NotUnder(t: Tree, prefix: Address, i: nat, e: set<Address>, a: Address)
    requires !Under(a, prefix, i)
    ensures a !in Rows(t, prefix, i, e)
  {
    if a in Rows(t, prefix, i, e) {
      var k :| 0 <= k < |Rows(t, prefix, i, e)| && Rows(t, prefix, i, e)[k] == a;
      RowsUnder(t, prefix, i, e, k);
    }
  }

  /** An address further on is no row of the i-th sibling. */
  lemma ShownLater(t: Tree, prefix: Address, i: nat, e: set<Address>, a: Address)
    requires t.Entry? && Under(a, prefix, i) && a[|prefix|] > i
    ensures Shown(t, prefix, i, e, a) <==> Shown(t.next, prefix, i + 1, e, a)
    ensures a != prefix + [i] && a !in Below(t, prefix + [i], e)
  {
    var here := prefix + [i];
    assert a[|prefix|] != here[|prefix|];
    assert !Under(a, here, 0);
    NotUnder(t.sub, here, 0, e, a);
    ValidLater(t, a[|prefix|] - i, a[|prefix| + 1..]);
  }

  lemma ValidLater(t: Tree, j: nat, rest: Address)
    requires t.Entry? && j > 0
    ensures Valid(t, [j] + rest) <==> Valid(t.next, [j - 1] + rest)
  {
    assert ([j] + rest)[1..] == rest && ([j - 1] + rest)[1..] == rest;
    assert Nth(t, j) == Nth(t.next, j - 1);
  }

  /** The i-th sibling is a row if it applies, and what is below it if it is open. */
  lemma ShownHere(t: Tree, prefix: Address, i: nat, e: set<Address>, a: Address)
    requires t.Entry? && Under(a, prefix, i) && a[|prefix|] == i
    requires a in Rows(t.sub, prefix + [i], 0, e) <==> Shown(t.sub, prefix + [i], 0, e, a)
    ensures Shown(t, prefix, i, e, a) <==> !Skipped(t) && (a == prefix + [i] || a in Below(t, prefix + [i], e))
    ensures a !in Rows(t.next, prefix, i + 1, e)
  {
    var here, rest := prefix + [i], a[|prefix| + 1..];
    NotUnder(t.next, prefix, i + 1, e, a);
    assert ([0 as nat] + rest)[1..] == rest;
    assert a == here + rest;
    if rest == [] {
      assert a == here;
      OwnRow(t.sub, here, e);
    } else {
      assert Under(a, here, 0) && [a[|here|] - 0] + a[|here| + 1..] == rest;
      assert a[..|here|] == here;
    }
  }

  lemma OwnRow(t: Tree, here: Address, e: set<Address>)
    ensures here !in Rows(t, here, 0, e)
  {
    NotUnder(t, here, 0, e, here);
  }

  /** The order of the tree read from the top: an entry before what is below it, and siblings in turn. */
  predicate Precedes(a: Address, b: Address) {
    b != [] && (a == [] || a[0] < b[0] || (a[0] == b[0] && Precedes(a[1..], b[1..])))
  }

  lemma {:induction false} PrecedesAt(prefix: Address, a: Address, b: Address)
    requires prefix <= a && prefix <= b && |b| > |prefix| && (a == prefix || a[|prefix|] < b[|prefix|])
    ensures Precedes(a, b)
    decreases |prefix|
  {
    if prefix != [] {
      PrecedesAt(prefix[1..], a[1..], b[1..]);
    }
  }

  /** The rows come in that order. */
  lemma {:induction false} RowsInOrder(t: Tree, prefix: Address, i: nat, e: set<Address>, j: nat, k: nat)
    requires j < k < |Rows(t, prefix, i, e)|
    ensures Precedes(Rows(t, prefix, i, e)[j], Rows(t, prefix, i, e)[k])
    decreases t
  {
    if Skipped(t) {
      RowsInOrder(t.next, prefix, i + 1, e, j, k);
    } else {
      var here, below, next := prefix + [i], Below(t, prefix + [i], e), Rows(t.next, prefix, i + 1, e);
      var b, rows := |below|, Rows(t, prefix, i, e);
      if j > b {
        RowsInOrder(t.next, prefix, i + 1, e, j - 1 - b, k - 1 - b);
      } else if k > b {
        RowsUnder(t.next, prefix, i + 1, e, k - 1 - b);
        if j > 0 {
          RowsUnder(t.sub, here, 0, e, j - 1);
          assert rows[j][|prefix|] == here[|prefix|];
        }
        PrecedesAt(prefix, rows[j], rows[k]);
      } else {
        RowsUnder(t.sub, here, 0, e, k - 1);
        if j > 0 {
          RowsInOrder(t.sub, here, 0, e, j - 1, k - 1);
        } else {
          PrecedesAt(here, rows[j], rows[k]);
        }
      }
    }
  }

  // ---------------------------------------------------------------- finding an entry

  function Size(t: Tree): nat { if t.Nil? then 0 else 1 + Size(t.sub) + Size(t.next) }

  /** The entry the path names: its chain is what the path says. */
  ghost predicate Named(t: Tree, goal: Address, path: string) {
    Valid(t, goal) && Chain(t, goal) == Parse(path)
  }

  /** Before the i-th sibling there is no entry of that name and ordinal. */
  lemma NotBefore(t: Tree, i: nat, c: Component, goal: Address, path: string)
    requires Named(t, goal, path) && c == ReadComponent(path).component && i < goal[0] && Nth(t, i).Entry?
    requires !Skipped(Nth(t, i))
    ensures Step(t, i) != c
  {
    assert Chain(t, goal)[0] == Parse(path)[0];
    StepDiffers(t, i, goal[0]);
  }

  /** The first step of a named entry is the path's first component, and the rest names it further down. */
  lemma NamedSteps(t: Tree, goal: Address, path: string)
    requires Named(t, goal, path)
    ensures Step(t, goal[0]) == ReadComponent(path).component && (|goal| == 1 <==> Rest(path) == [])
    ensures |goal| > 1 ==> Named(Nth(t, goal[0]).sub, goal[1..], Rest(path))
  {
    assert Chain(t, goal)[0] == Parse(path)[0];
    if |goal| > 1 {
      assert Chain(t, goal)[1..] == Chain(Nth(t, goal[0]).sub, goal[1..]);
      assert Parse(path)[1..] == Parse(Rest(path));
    }
  }

  lemma GoalSplits(t: Tree, goal: Address, path: string)
    ensures Named(t, goal, path) ==> goal != [] && goal == [goal[0]] + goal[1..]
    ensures Named(t, goal, path) && Rest(path) == [] ==> goal == [goal[0]]
    ensures Named(t, goal, path) && Rest(path) != [] ==> Named(Nth(t, goal[0]).sub, goal[1..], Rest(path))
  {
    if Named(t, goal, path) {
      NamedSteps(t, goal, path);
    }
  }

  /** And the other way round. */
  lemma StepsNamed(t: Tree, i: nat, rest: Address, path: string)
    requires Nth(t, i).Entry? && !Skipped(Nth(t, i)) && Step(t, i) == ReadComponent(path).component
    requires if Rest(path) == [] then rest == [] else Named(Nth(t, i).sub, rest, Rest(path))
    ensures Named(t, [i] + rest, path)
  {
    var a := [i] + rest;
    assert a[1..] == rest;
  }

  ghost function Tail(a: Address): Address { if a == [] then [] else a[1..] }

  /** The last component names the sibling itself. */
  lemma PickedHere(t: Tree, i: nat, path: string, goal: Address)
    requires Nth(t, i).Entry? && !Skipped(Nth(t, i)) && Step(t, i) == ReadComponent(path).component && Rest(path) == []
    requires Named(t, goal, path) ==> i == goal[0]
    ensures Named(t, [i], path) && (Named(t, goal, path) ==> goal == [i])
  {
    GoalSplits(t, goal, path);
    StepsNamed(t, i, [], path);
    assert [i] + [] == [i];
  }

  /** Any other names what the rest of the path names below the sibling. */
  lemma PickedBelow(t: Tree, i: nat, path: string, goal: Address, found: bool, rel: Address)
    requires Nth(t, i).Entry? && !Skipped(Nth(t, i)) && Step(t, i) == ReadComponent(path).component && Rest(path) != []
    requires Named(t, goal, path) ==> i == goal[0]
    requires found ==> Named(Nth(t, i).sub, rel, Rest(path))
    requires Named(Nth(t, i).sub, Tail(goal), Rest(path)) ==> found && rel == Tail(goal)
    ensures found ==> Named(t, [i] + rel, path)
    ensures Named(t, goal, path) ==> found && [i] + rel == goal
  {
    GoalSplits(t, goal, path);
    if found {
      StepsNamed(t, i, rel, path);
    }
  }

  lemma {:induction false} NthNil(t: Tree, i: nat, j: nat)
    requires Nth(t, i).Nil? && i <= j
    ensures Nth(t, j).Nil?
  {
    if i > 0 && t.Entry? {
      NthNil(t.next, i - 1, j - 1);
    }
  }

  /** A row is at the given place among others. */
  ghost predicate RowAt(rows: seq<Address>, k: int, at: Address) { 0 <= k < |rows| && rows[k] == at }

  lemma RowHere(t: Tree, prefix: Address, i: nat, e: set<Address>, n: int)
    requires Nth(t, i).Entry? && !Skipped(Nth(t, i)) && n == |RowsOf(t, prefix, 0, i, e)|
    ensures RowAt(Rows(t, prefix, 0, e), n, prefix + [i])
  {
    RowsSplit(t, prefix, 0, i, e);
  }

  /** Only the i-th sibling and what is below it may newly be expanded. */
  ghost predicate ExpandedBelow(e: set<Address>, e': set<Address>, here: Address) {
    e <= e' && forall a :: a in e' && a !in e ==> here <= a
  }

  /** A row below an expanded entry is as many rows further down. */
  lemma RowBelow(t: Tree, prefix: Address, i: nat, e: set<Address>, e': set<Address>, k: int, n: int, at: Address)
    requires Nth(t, i).Entry? && Nth(t, i).sub.Entry? && prefix + [i] in e' && ExpandedBelow(e, e', prefix + [i])
    requires RowAt(Rows(Nth(t, i).sub, prefix + [i], 0, e'), k, at) && n == |RowsOf(t, prefix, 0, i, e)| + 1 + k
    ensures RowAt(Rows(t, prefix, 0, e'), n, at)
  {
    var here := prefix + [i];
    forall a | Under(a, prefix, 0) && a[|prefix|] < 0 + i ensures a in e <==> a in e' {
    }
    RowsOfKept(t, prefix, 0, i, e, e');
    RowsSplit(t, prefix, 0, i, e');
  }

  class View {
    const tree: Tree
    var expanded: set<Address>

    constructor (entries: Tree, open: set<Address>)
      ensures tree == entries && expanded == open
    {
      tree, expanded := entries, open;
    }

    /** The number of rows of a list of entries. */
    method Count(t: Tree, prefix: Address) returns (count: nat)
      ensures count == |Rows(t, prefix, 0, expanded)|
      decreases Size(t)
    {
      var cur, i := t, 0;
      count := 0;
      while cur.Entry?
        invariant Size(cur) <= Size(t) && count + |Rows(cur, prefix, i, expanded)| == |Rows(t, prefix, 0, expanded)|
        decreases Size(cur)
      {
        if !Skipped(cur) {
          count := count + 1;
          if cur.sub.Entry? && prefix + [i] in expanded {
            var below := Count(cur.sub, prefix + [i]);
            count := count + below;
          }
        }
        cur, i := cur.next, i + 1;
      }
    }

    /**
     * Finds the entry a path names, expanding the directories on the way if asked to; the index returned is the row
     * the entry then has. The goal stands for any entry.
     */
    method Find(path: string, t: Tree, prefix: Address, base: nat, expand: bool, ghost goal: Address)
      returns (found: bool, at: Address, idx: nat, ghost rel: Address)
      modifies this`expanded
      ensures found ==> Named(t, rel, path) && at == prefix + rel
      ensures Named(t, goal, path) ==> found && rel == goal
      ensures ExpandedBelow(old(expanded), expanded, prefix) && (!expand ==> expanded == old(expanded))
      ensures found && expand ==> RowAt(Rows(t, prefix, 0, expanded), idx - base, at)
      decreases |path|, 1
    {
      var c, rest := ParseComponent(path);
      var cur, i: nat, seen := t, 0, 0;
      found, at, idx, rel := false, prefix, base, [];
      while cur.Entry?
        invariant cur == Nth(t, i) && seen == Same(t, c.name, i) && expanded == old(expanded) && !found
        invariant idx == base + |RowsOf(t, prefix, 0, i, expanded)|
        invariant Named(t, goal, path) ==> i <= goal[0]
        decreases Size(cur)
      {
        if Named(t, goal, path) {
          NamedSteps(t, goal, path);
          if i < goal[0] && !Skipped(cur) {
            NotBefore(t, i, c, goal, path);
          }
        }
        if !Skipped(cur) && cur.name == c.name && seen == c.dup && (rest == [] || cur.sub.Entry?) {
          found, at, idx, rel := Pick(path, t, prefix, base, expand, goal, i, idx, rest);
          return;
        }
        RowsOfNext(t, prefix, 0, i, expanded);
        if !Skipped(cur) {
          if cur.name == c.name {
            seen := seen + 1;
          }
          idx := idx + 1;
          if cur.sub.Entry? && prefix + [i] in expanded {
            var below := Count(cur.sub, prefix + [i]);
            idx := idx + below;
          }
        }
        NthNext(t, i);
        SameNext(t, c.name, i);
        cur, i := cur.next, i + 1;
      }
      if Named(t, goal, path) {
        NthNil(t, i, goal[0]);
      }
    }

    /** The sibling of the right name and ordinal: the entry itself, or the directory to go on in. */
    method Pick(path: string, t: Tree, prefix: Address, base: nat, expand: bool, ghost goal: Address, i: nat,
                idx0: nat, rest: string)
      returns (found: bool, at: Address, idx: nat, ghost rel: Address)
      requires Nth(t, i).Entry? && !Skipped(Nth(t, i)) && Step(t, i) == ReadComponent(path).component
      requires rest == Rest(path)
      requires rest == [] || Nth(t, i).sub.Entry?
      requires idx0 == base + |RowsOf(t, prefix, 0, i, expanded)| && (Named(t, goal, path) ==> i == goal[0])
      modifies this`expanded
      ensures found ==> Named(t, rel, path) && at == prefix + rel
      ensures Named(t, goal, path) ==> found && rel == goal
      ensures ExpandedBelow(old(expanded), expanded, prefix) && (!expand ==> expanded == old(expanded))
      ensures found && expand ==> RowAt(Rows(t, prefix, 0, expanded), idx - base, at)
      decreases |path|, 0
    {
      if rest == [] {
        found, at, idx, rel := true, prefix + [i], idx0, [i];
        PickedHere(t, i, path, goal);
        RowHere(t, prefix, i, expanded, idx - base);
        return;
      }
      found, at, idx, rel := Descend(rest, t, prefix, base, expand, Tail(goal), i, idx0);
      PickedBelow(t, i, path, goal, found, rel);
      AddressesJoin(prefix, [i], rel);
      rel := [i] + rel;
    }

    /** Expands a directory and looks for the rest of the path below it. */
    method Descend(rest: string, t: Tree, prefix: Address, base: nat, expand: bool, ghost goal: Address, i: nat,
                   idx0: nat)
      returns (found: bool, at: Address, idx: nat, ghost rel: Address)
      requires Nth(t, i).Entry? && Nth(t, i).sub.Entry? && idx0 == base + |RowsOf(t, prefix, 0, i, expanded)|
      modifies this`expanded
      ensures found ==> Named(Nth(t, i).sub, rel, rest) && at == prefix + [i] + rel
      ensures Named(Nth(t, i).sub, goal, rest) ==> found && rel == goal
      ensures ExpandedBelow(old(expanded), expanded, prefix) && (!expand ==> expanded == old(expanded))
      ensures found && expand ==> RowAt(Rows(t, prefix, 0, expanded), idx - base, at)
      decreases |rest|, 2
    {
      ghost var e0 := expanded;
      var here := prefix + [i];
      if expand {
        expanded := expanded + {here};
      }
      ghost var e1 := expanded;
      found, at, idx, rel := Find(rest, Nth(t, i).sub, here, idx0 + 1, expand, goal);
      ghost var e2, n := expanded, idx - base;
      Descended(t, prefix, i, e0, e1, e2, idx - idx0 - 1, n, at, found && expand);
    }
  }

  /** What is expanded below a directory counts from its list, and so do the rows. */
  lemma Descended(t: Tree, prefix: Address, i: nat, e: set<Address>, e1: set<Address>, e': set<Address>, k: int, n: int,
                  at: Address, shown: bool)
    requires Nth(t, i).Entry? && Nth(t, i).sub.Entry? && (e1 == e || e1 == e + {prefix + [i]})
    requires ExpandedBelow(e1, e', prefix + [i]) && (shown ==> prefix + [i] in e1)
    requires shown ==>
               RowAt(Rows(Nth(t, i).sub, prefix + [i], 0, e'), k, at) && n == |RowsOf(t, prefix, 0, i, e)| + 1 + k
    ensures ExpandedBelow(e, e', prefix) && (shown ==> RowAt(Rows(t, prefix, 0, e'), n, at))
  {
    ExpandedHere(e, e1, e', prefix + [i]);
    BelowPrefix(e, e', prefix, i);
    if shown {
      RowBelow(t, prefix, i, e, e', k, n, at);
    }
  }

  lemma ExpandedHere(e: set<Address>, e1: set<Address>, e': set<Address>, here: Address)
    requires (e1 == e || e1 == e + {here}) && ExpandedBelow(e1, e', here)
    ensures ExpandedBelow(e, e', here)
  {
  }

  lemma AddressesJoin(a: Address, b: Address, c: Address)
    ensures a + b + c == a + (b + c)
  {
  }

  lemma BelowPrefix(e: set<Address>, e': set<Address>, prefix: Address, i: nat)
    requires ExpandedBelow(e, e', prefix + [i])
    ensures ExpandedBelow(e, e', prefix)
  {
    var here := prefix + [i];
  }
}
