/**
 * Paths of menu entries as text: names with the separators escaped, an ordinal where siblings share a name, and the
 * two readers of such text.
 */
module MenuPath {
  import opened Words

  const MAX_DUP: nat := 0xffff_ffff_ffff_fff0

  /** One step of a path: a name, and how many earlier siblings of that name to pass over. */
  datatype Component = Component(name: string, dup: nat)

  predicate Special(c: char) { c == '\\' || c == '/' || c == '#' }

  predicate IsDigit(c: char) { '0' <= c <= '9' }

  // ---------------------------------------------------------------- writing

  function Escape(name: string): string {
    if name == [] then []
    else (if Special(name[0]) then ['\\', name[0]] else [name[0]]) + Escape(name[1..])
  }

  function Digit(n: nat): (c: char)
    requires n < 10
    ensures IsDigit(c)
  {
    '0' + n as char
  }

  function Digits(n: nat): (s: string)
    ensures s != [] && forall k :: 0 <= k < |s| ==> IsDigit(s[k])
  {
    if n < 10 then [Digit(n)] else Digits(n / 10) + [Digit(n % 10)]
  }

  function Suffix(dup: nat): string { if dup == 0 then [] else ['#'] + Digits(dup) }

  function Write(c: Component): string { Escape(c.name) + Suffix(c.dup) }

  function Text(chain: seq<Component>): string {
    if chain == [] then [] else Write(chain[0]) + if |chain| == 1 then [] else ['/'] + Text(chain[1..])
  }

  // ---------------------------------------------------------------- reading

  /** The length of the run of digits a text starts with. */
  function DigitRun(s: string): (n: nat)
    ensures n <= |s| && (n < |s| ==> !IsDigit(s[n])) && forall k :: 0 <= k < n ==> IsDigit(s[k])
  {
    if s == [] || !IsDigit(s[0]) then 0 else 1 + DigitRun(s[1..])
  }

  function Value(s: string): nat
    requires forall k :: 0 <= k < |s| ==> IsDigit(s[k])
  {
    if s == [] then 0 else 10 * Value(s[..|s| - 1]) + DigitValue(s[|s| - 1])
  }

  function DigitValue(c: char): nat
    requires IsDigit(c)
  {
    (c - '0') as nat
  }

  lemma {:induction false} DigitsValue(n: nat)
    ensures Value(Digits(n)) == n
  {
    if n >= 10 {
      DigitsValue(n / 10);
      assert Digits(n)[..|Digits(n)| - 1] == Digits(n / 10);
    } else {
      assert Value([Digit(n)]) == 10 * Value([]) + n;
    }
  }

  /** Where a component may end. */
  predicate Ends(s: string) { s == [] || s[0] == '/' }

  /** An ordinal: digits up to the end of the component. */
  predicate IsOrdinal(s: string) { DigitRun(s) > 0 && Ends(s[DigitRun(s)..]) }

  function Saturated(n: nat): nat { if n > MAX64 then MAX64 else n }

  datatype Read = Read(component: Component, rest: string)

  /** One component: escapes are undone, and a hash counts only before an ordinal. */
  function ReadComponent(s: string): (r: Read)
    ensures Ends(r.rest) && |r.rest| <= |s|
    decreases |s|
  {
    if Ends(s) then Read(Component([], 0), s)
    else if s[0] == '\\' && |s| > 1 then
      var r := ReadComponent(s[2..]);
      r.(component := r.component.(name := [s[1]] + r.component.name))
    else if s[0] == '#' && IsOrdinal(s[1..]) then
      var n := DigitRun(s[1..]);
      Read(Component([], Saturated(Value(s[1..][..n]))), s[1..][n..])
    else
      var r := ReadComponent(s[1..]);
      r.(component := r.component.(name := [s[0]] + r.component.name))
  }

  /** The text after a component and its separator. */
  function Rest(s: string): (r: string)
    ensures r != [] ==> |r| < |s|
  {
    var rest := ReadComponent(s).rest;
    if rest == [] then [] else rest[1..]
  }

  function Parse(s: string): (chain: seq<Component>)
    ensures chain != []
    decreases |s|
  {
    var c := ReadComponent(s).component;
    if Rest(s) == [] then [c] else [c] + Parse(Rest(s))
  }

  // ---------------------------------------------------------------- reading undoes writing

  lemma {:induction false} RunOf(d: string, tail: string)
    requires (forall k :: 0 <= k < |d| ==> IsDigit(d[k])) && (tail == [] || !IsDigit(tail[0]))
    ensures DigitRun(d + tail) == |d| && (d + tail)[..|d|] == d && (d + tail)[|d|..] == tail
  {
    if d == [] {
      assert d + tail == tail;
    } else {
      RunOf(d[1..], tail);
      assert (d + tail)[1..] == d[1..] + tail;
    }
  }

  function Prepend(c: char, r: Read): Read { r.(component := r.component.(name := [c] + r.component.name)) }

  lemma ReadEscaped(c: char, s: string)
    ensures ReadComponent(['\\', c] + s) == Prepend(c, ReadComponent(s))
  {
    assert (['\\', c] + s)[2..] == s;
  }

  lemma ReadPlain(c: char, s: string)
    requires !Special(c)
    ensures ReadComponent([c] + s) == Prepend(c, ReadComponent(s))
  {
    assert ([c] + s)[1..] == s;
  }

  lemma ReadOrdinal(d: string, tail: string)
    requires d != [] && (forall k :: 0 <= k < |d| ==> IsDigit(d[k])) && Ends(tail)
    ensures ReadComponent(['#'] + (d + tail)) == Read(Component([], Saturated(Value(d))), tail)
  {
    RunOf(d, tail);
    assert (['#'] + (d + tail))[1..] == d + tail;
  }

  lemma SuffixReads(dup: nat, tail: string)
    requires Ends(tail) && dup <= MAX64
    ensures ReadComponent(Suffix(dup) + tail) == Read(Component([], dup), tail)
  {
    if dup == 0 {
      assert Suffix(dup) + tail == tail;
    } else {
      ReadOrdinal(Digits(dup), tail);
      DigitsValue(dup);
      assert Suffix(dup) + tail == ['#'] + (Digits(dup) + tail);
    }
  }

  lemma {:induction false} WriteReads(name: string, dup: nat, tail: string)
    requires Ends(tail) && dup <= MAX64
    ensures ReadComponent(Escape(name) + (Suffix(dup) + tail)) == Read(Component(name, dup), tail)
  {
    var end := Suffix(dup) + tail;
    if name == [] {
      assert Escape(name) + end == end;
      SuffixReads(dup, tail);
    } else {
      WriteReads(name[1..], dup, tail);
      EscapeSplits(name, end);
      if Special(name[0]) {
        ReadEscaped(name[0], Escape(name[1..]) + end);
      } else {
        ReadPlain(name[0], Escape(name[1..]) + end);
      }
    }
  }

  lemma EscapeSplits(name: string, end: string)
    requires name != []
    ensures Escape(name) + end == (if Special(name[0]) then ['\\', name[0]] else [name[0]]) + (Escape(name[1..]) + end)
  {
  }

  /** Names are not empty, and ordinals fit. */
  predicate Proper(chain: seq<Component>) {
    chain != [] && forall k :: 0 <= k < |chain| ==> chain[k].name != [] && chain[k].dup <= MAX_DUP
  }

  lemma TextNotEmpty(chain: seq<Component>)
    requires Proper(chain)
    ensures Text(chain) != []
  {
    assert Escape(chain[0].name) != [];
  }

  /** The text of a chain is its first component, and the rest behind a separator. */
  lemma TextSplits(chain: seq<Component>)
    requires Proper(chain)
    ensures var tail := if |chain| == 1 then [] else ['/'] + Text(chain[1..]);
            Ends(tail) && Text(chain) == Escape(chain[0].name) + (Suffix(chain[0].dup) + tail)
  {
    var tail := if |chain| == 1 then [] else ['/'] + Text(chain[1..]);
    Regroup(Escape(chain[0].name), Suffix(chain[0].dup), tail);
  }

  lemma Regroup(a: string, b: string, c: string)
    ensures a + b + c == a + (b + c) && a + [] == a
  {
  }

  /** Parsing the text of a chain gives the chain back. */
  lemma {:induction false} TextParses(chain: seq<Component>)
    requires Proper(chain)
    ensures Parse(Text(chain)) == chain
  {
    var c := chain[0];
    var tail := if |chain| == 1 then [] else ['/'] + Text(chain[1..]);
    TextSplits(chain);
    WriteReads(c.name, c.dup, tail);
    if |chain| > 1 {
      TextNotEmpty(chain[1..]);
      TextParses(chain[1..]);
      assert tail[1..] == Text(chain[1..]);
    }
  }

  // ---------------------------------------------------------------- matching a row against a path

  datatype Match = Fails | Left(rest: string)

  /** Takes the escaped name off the front of the path. */
  function MatchName(name: string, path: string): Match
    decreases |name|
  {
    if name == [] then Left(path)
    else
      var p := if Special(name[0]) && path != [] then path[1..] else path;
      if Special(name[0]) && (path == [] || path[0] != '\\') then Fails
      else if p == [] || p[0] != name[0] then Fails
      else MatchName(name[1..], p[1..])
  }

  /** The digits can be added up without passing the largest number. */
  predicate Bounded(d: string)
    requires forall k :: 0 <= k < |d| ==> IsDigit(d[k])
  {
    d == [] || (Bounded(d[..|d| - 1]) && Value(d[..|d| - 1]) <= (MAX64 - 9) / 10)
  }

  /** Takes an ordinal off the front of the path, if there is one, and compares it. */
  function MatchDup(dup: nat, path: string): Match {
    if path == [] || path[0] != '#' then if dup == 0 then Left(path) else Fails
    else
      var s := path[1..];
      var n := DigitRun(s);
      if n == 0 || !Bounded(s[..n]) || Value(s[..n]) != dup then Fails else Left(s[n..])
  }

  function MatchComponent(c: Component, path: string): Match {
    match MatchName(c.name, path)
    case Fails => Fails
    case Left(rest) => MatchDup(c.dup, rest)
  }

  predicate Matches(chain: seq<Component>, path: string) {
    if chain == [] then path == []
    else
      match MatchComponent(chain[0], path)
      case Fails => false
      case Left(rest) =>
        if |chain| == 1 then rest == [] else rest != [] && rest[0] == '/' && Matches(chain[1..], rest[1..])
  }

  // ---------------------------------------------------------------- only the row itself matches its path

  /** A component's name is over: nothing, a separator or an ordinal follows. */
  predicate NameEnds(s: string) { Ends(s) || s[0] == '#' }

  /** Against an escaped character only that character matches. */
  lemma MatchStep(name: string, c: char, s: string)
    requires name != []
    ensures MatchName(name, (if Special(c) then ['\\', c] else [c]) + s) ==
            if name[0] == c then MatchName(name[1..], s) else Fails
  {
    if Special(c) {
      assert (['\\', c] + s)[1..] == [c] + s && ([c] + s)[1..] == s;
    } else {
      assert ([c] + s)[1..] == s;
    }
  }

  /** Of all names only the one written is read off with the name at its end. */
  lemma {:induction false} MatchNameOnly(name: string, written: string, end: string)
    requires NameEnds(end)
    ensures var m := MatchName(name, Escape(written) + end);
            (m.Left? && NameEnds(m.rest) <==> name == written) && (name == written ==> m.rest == end)
    decreases |written|
  {
    if written == [] {
      assert Escape(written) + end == end;
    } else {
      EscapeSplits(written, end);
      if name != [] {
        MatchStep(name, written[0], Escape(written[1..]) + end);
        MatchNameOnly(name[1..], written[1..], end);
        SameByParts(name, written);
      }
    }
  }

  lemma SameByParts<T>(a: seq<T>, b: seq<T>)
    requires a != [] && b != []
    ensures a == b <==> a[0] == b[0] && a[1..] == b[1..]
  {
    assert a == [a[0]] + a[1..] && b == [b[0]] + b[1..];
  }

  lemma {:induction false} DigitsBounded(n: nat)
    requires n <= MAX_DUP
    ensures Bounded(Digits(n))
  {
    if n >= 10 {
      DigitsBounded(n / 10);
      DigitsValue(n / 10);
      assert Digits(n)[..|Digits(n)| - 1] == Digits(n / 10);
    } else {
      assert [Digit(n)][..0] == [];
    }
  }

  /** Of all ordinals only the one written is read off. */
  lemma MatchDupOnly(dup: nat, written: nat, tail: string)
    requires Ends(tail) && written <= MAX_DUP
    ensures MatchDup(dup, Suffix(written) + tail) == if dup == written then Left(tail) else Fails
  {
    if written == 0 {
      assert Suffix(written) + tail == tail;
    } else {
      var d := Digits(written);
      RunOf(d, tail);
      DigitsValue(written);
      DigitsBounded(written);
      assert (Suffix(written) + tail)[1..] == d + tail;
    }
  }

  lemma MatchComponentOnly(c: Component, written: Component, tail: string)
    requires Ends(tail) && written.dup <= MAX_DUP
    ensures var path := Escape(written.name) + (Suffix(written.dup) + tail);
            && MatchComponent(written, path) == Left(tail)
            && (MatchComponent(c, path).Left? && Ends(MatchComponent(c, path).rest) ==> c == written)
  {
    var end := Suffix(written.dup) + tail;
    MatchNameOnly(c.name, written.name, end);
    MatchNameOnly(written.name, written.name, end);
    MatchDupOnly(c.dup, written.dup, tail);
    MatchDupOnly(written.dup, written.dup, tail);
  }

  /** A chain matches its own text. */
  lemma {:induction false} MatchesOwn(written: seq<Component>)
    requires Proper(written)
    ensures Matches(written, Text(written))
    decreases |written|
  {
    var tail := if |written| == 1 then [] else ['/'] + Text(written[1..]);
    TextSplits(written);
    MatchComponentOnly(written[0], written[0], tail);
    if |written| > 1 {
      assert tail[1..] == Text(written[1..]);
      MatchesOwn(written[1..]);
    }
  }

  /** Whatever matches a component and what follows it begins with that component, and its rest matches what follows. */
  lemma MatchesFirst(chain: seq<Component>, first: Component, tail: string)
    requires first.name != [] && first.dup <= MAX_DUP && Ends(tail)
    requires Matches(chain, Escape(first.name) + (Suffix(first.dup) + tail))
    ensures chain != [] && chain[0] == first
    ensures if |chain| == 1 then tail == [] else tail != [] && Matches(chain[1..], tail[1..])
  {
    assert Escape(first.name) != [];
    MatchComponentOnly(chain[0], first, tail);
  }

  /** And no other chain does. */
  lemma {:induction false} MatchesOnly(chain: seq<Component>, written: seq<Component>)
    requires Proper(written) && Matches(chain, Text(written))
    ensures chain == written
    decreases |written|
  {
    var tail := if |written| == 1 then [] else ['/'] + Text(written[1..]);
    TextSplits(written);
    MatchesFirst(chain, written[0], tail);
    if |written| > 1 {
      assert tail[1..] == Text(written[1..]);
      MatchesOnly(chain[1..], written[1..]);
    }
    SameByParts(chain, written);
  }

  // ---------------------------------------------------------------- the code that writes

  /** Writes a name into a buffer of the given size, its terminator included; what does not fit is cut. */
  method EscapeName(name: string, size: nat) returns (out: string)
    ensures |out| < size || out == []
    ensures |Escape(name)| < size ==> out == Escape(name)
  {
    out := [];
    if size == 0 {
      return;
    }
    var i := 0;
    assert name[0..] == name;
    while i < |name|
      invariant i <= |name| && |out| < size && out + Escape(name[i..]) == Escape(name)
    {
      var step := if Special(name[i]) then ['\\', name[i]] else [name[i]];
      assert name[i..][1..] == name[i + 1..];
      Regroup(out, step, Escape(name[i + 1..]));
      if |out| + |step| >= size {
        assert |Escape(name)| == |out| + |step| + |Escape(name[i + 1..])|;
        return;
      }
      out := out + step;
      i := i + 1;
    }
    assert name[i..] == [];
    Regroup(out, [], []);
  }

  /** The digits of a number, last first. */
  method DigitsBackwards(n: nat) returns (d: string)
    ensures Reversed(d) == Digits(n)
  {
    d := [Digit(n % 10)];
    var val := n / 10;
    ghost var tail := [Digit(n % 10)];
    assert Reversed(d) == tail;
    while val > 0
      invariant Reversed(d) == tail && d != []
      invariant (if val > 0 then Digits(val) + tail == Digits(n) else tail == Digits(n))
    {
      DigitsStep(val, tail);
      ReversedSnoc(d, Digit(val % 10));
      tail := [Digit(val % 10)] + tail;
      d := d + [Digit(val % 10)];
      val := val / 10;
    }
  }

  lemma DigitsStep(val: nat, tail: string)
    requires val > 0
    ensures Digits(val) + tail ==
            if val / 10 > 0 then Digits(val / 10) + ([Digit(val % 10)] + tail) else [Digit(val % 10)] + tail
  {
    if val >= 10 {
      Regroup(Digits(val / 10), [Digit(val % 10)], tail);
    }
  }

  function Reversed(s: string): string { if s == [] then [] else [s[|s| - 1]] + Reversed(s[..|s| - 1]) }

  lemma ReversedSnoc(s: string, c: char)
    ensures Reversed(s + [c]) == [c] + Reversed(s)
  {
    assert (s + [c])[..|s|] == s;
  }

  /** The text of a chain grows by a separator and the next component. */
  lemma {:induction false} TextSnoc(chain: seq<Component>, c: Component)
    requires chain != []
    ensures Text(chain + [c]) == Text(chain) + (['/'] + Write(c))
  {
    var all := chain + [c];
    var last := ['/'] + Write(c);
    assert all[1..] == chain[1..] + [c] && all[0] == chain[0];
    if |chain| == 1 {
      assert chain[1..] == [] && [] + [c] == [c];
      Regroup(Write(c), [], []);
      assert Text([c]) == Write(c);
    } else {
      TextSnoc(chain[1..], c);
      Regroup(['/'], Text(chain[1..]), last);
      Regroup(Write(chain[0]), ['/'] + Text(chain[1..]), last);
    }
  }

  /** Appends a component to what is in the buffer, as much of it as fits. */
  method AppendComponent(buf0: string, c: Component, size: nat) returns (buf: string)
    requires size > 0 && |buf0| < size
    ensures |buf| < size
    ensures |buf0 + Write(c)| < size ==> buf == buf0 + Write(c)
  {
    var name := EscapeName(c.name, size - |buf0|);
    buf := buf0 + name;
    ghost var fits := |buf0 + Write(c)| < size;
    Regroup(buf0, Escape(c.name), Suffix(c.dup));
    if c.dup > 0 && |buf| < size - 1 {
      buf := buf + ['#'];
      var d := DigitsBackwards(c.dup);
      Regroup(buf0 + Escape(c.name), ['#'], Digits(c.dup));
      buf := AppendReversed(buf, d, size);
    } else {
      assert fits ==> c.dup == 0;
    }
  }

  method AppendReversed(buf0: string, d: string, size: nat) returns (buf: string)
    requires |buf0| < size
    ensures |buf| < size && (|buf0 + Reversed(d)| < size ==> buf == buf0 + Reversed(d))
  {
    buf := buf0;
    var i := |d|;
    assert d[..i] == d;
    while i > 0 && |buf| < size - 1
      invariant i <= |d| && |buf| < size && buf + Reversed(d[..i]) == buf0 + Reversed(d)
    {
      assert d[..i][..i - 1] == d[..i - 1];
      Regroup(buf, [d[i - 1]], Reversed(d[..i - 1]));
      buf := buf + [d[i - 1]];
      i := i - 1;
    }
    if i == 0 {
      assert d[..0] == [];
      Regroup(buf, [], []);
    } else {
      assert |Reversed(d[..i])| > 0;
    }
  }

  /** The path of an entry whose chain of ancestors is given: all of it if it fits. */
  method EntryPath(chain: seq<Component>, size: nat) returns (buf: string)
    requires size > 0 && chain != []
    ensures |buf| < size
    ensures |Text(chain)| < size ==> buf == Text(chain)
    decreases |chain|
  {
    var n := |chain| - 1;
    buf := [];
    if n > 0 {
      buf := EntryPath(chain[..n], size);
      ghost var before := buf;
      TextSnoc(chain[..n], chain[n]);
      assert chain == chain[..n] + [chain[n]];
      Regroup(Text(chain[..n]), ['/'], Write(chain[n]));
      if |buf| < size - 1 {
        buf := buf + ['/'];
      }
    } else {
      assert chain == [chain[0]];
      Regroup(Write(chain[0]), [], []);
      assert [] + Write(chain[0]) == Write(chain[0]);
    }
    buf := AppendComponent(buf, chain[n], size);
  }

  // ---------------------------------------------------------------- the code that reads

  function PrependAll(name: string, r: Read): Read { r.(component := r.component.(name := name + r.component.name)) }

  lemma PrependMore(name: string, c: char, r: Read)
    ensures PrependAll(name, Prepend(c, r)) == PrependAll(name + [c], r)
  {
    Regroup(name, [c], r.component.name);
  }

  /** One step of reading: what the next characters say. */
  lemma ReadStep(s: string, p: nat)
    requires p < |s| && s[p] != '/'
    ensures if s[p] == '\\' && p + 1 < |s| then ReadComponent(s[p..]) == Prepend(s[p + 1], ReadComponent(s[p + 2..]))
            else if s[p] == '#' && IsOrdinal(s[p + 1..]) then
              ReadComponent(s[p..]) == Read(Component([], Saturated(Value(s[p + 1..][..DigitRun(s[p + 1..])]))),
                                            s[p + 1..][DigitRun(s[p + 1..])..])
            else ReadComponent(s[p..]) == Prepend(s[p], ReadComponent(s[p + 1..]))
  {
    assert s[p..][1..] == s[p + 1..] && (p + 1 < |s| ==> s[p..][2..] == s[p + 2..] && s[p..][1] == s[p + 1]);
  }

  /** The first pass over a component: the length its name will have. */
  method MeasureComponent(s: string) returns (len: nat)
    ensures len == |ReadComponent(s).component.name|
  {
    len := 0;
    var scan := 0;
    assert s[0..] == s;
    while scan < |s| && s[scan] != '/'
      invariant scan <= |s| && len + |ReadComponent(s[scan..]).component.name| == |ReadComponent(s).component.name|
    {
      ReadStep(s, scan);
      if s[scan] == '\\' && scan + 1 < |s| {
        len := len + 1;
        scan := scan + 2;
        continue;
      }
      if s[scan] == '#' && IsOrdinal(s[scan + 1..]) {
        return;
      }
      len := len + 1;
      scan := scan + 1;
    }
  }

  /** The second pass: the name goes into a buffer of just the measured length. */
  method ParseComponent(s: string) returns (c: Component, rest: string)
    ensures c == ReadComponent(s).component && rest == Rest(s)
  {
    var len := MeasureComponent(s);
    var name, dup: nat, p := [], 0, 0;
    assert s[0..] == s;
    while p < |s| && s[p] != '/'
      invariant p <= |s| && PrependAll(name, ReadComponent(s[p..])) == ReadComponent(s) && dup == 0
      decreases |s| - p
    {
      ReadStep(s, p);
      assert |name| <= len;
      if s[p] == '\\' && p + 1 < |s| {
        assert |name| < len;
        PrependMore(name, s[p + 1], ReadComponent(s[p + 2..]));
        name := name + [s[p + 1]];
        p := p + 2;
        continue;
      }
      if s[p] == '#' && IsOrdinal(s[p + 1..]) {
        var n := DigitRun(s[p + 1..]);
        Regroup(name, [], []);
        dup := Saturated(Value(s[p + 1..][..n]));
        rest := s[p + 1..][n..];
        return Component(name, dup), if rest == [] then [] else rest[1..];
      }
      assert |name| < len;
      PrependMore(name, s[p], ReadComponent(s[p + 1..]));
      name := name + [s[p]];
      p := p + 1;
    }
    Regroup(name, [], []);
    return Component(name, dup), if p < |s| then s[p..][1..] else [];
  }

  /** Takes a name off the path, character by character. */
  method TakeName(name: string, path: string) returns (m: Match)
    ensures m == MatchName(name, path)
  {
    var i, p := 0, path;
    assert name[0..] == name;
    while i < |name|
      invariant i <= |name| && MatchName(name[i..], p) == MatchName(name, path)
    {
      assert name[i..][1..] == name[i + 1..];
      if Special(name[i]) {
        if p == [] || p[0] != '\\' {
          return Fails;
        }
        if |p| == 1 || p[1] != name[i] {
          return Fails;
        }
        assert p[1..][1..] == p[2..];
        p := p[2..];
      } else {
        if p == [] || p[0] != name[i] {
          return Fails;
        }
        p := p[1..];
      }
      i := i + 1;
    }
    return Left(p);
  }

  /** Adds up the digits at the front, unless they grow too large. */
  method AddDigits(s: string) returns (ok: bool, value: nat, n: nat)
    ensures n <= DigitRun(s) && (ok <==> Bounded(s[..DigitRun(s)]))
    ensures ok ==> n == DigitRun(s) && value == Value(s[..n])
  {
    value, n := 0, 0;
    ghost var d := s[..DigitRun(s)];
    while n < |s| && IsDigit(s[n])
      invariant n <= |d| && Bounded(d[..n]) && value == Value(d[..n])
    {
      assert d[..n + 1][..n] == d[..n];
      if value > (MAX64 - 9) / 10 {
        NotBounded(d, n + 1);
        return false, value, n;
      }
      value := value * 10 + DigitValue(s[n]);
      n := n + 1;
    }
    assert d[..n] == d;
    ok := true;
  }

  /** Takes an ordinal off the path, if there is one. */
  method TakeDup(dup: nat, path: string) returns (m: Match)
    ensures m == MatchDup(dup, path)
  {
    var duplicate, p := 0, path;
    if path != [] && path[0] == '#' {
      var s := path[1..];
      if s == [] || !IsDigit(s[0]) {
        return Fails;
      }
      var ok, n;
      ok, duplicate, n := AddDigits(s);
      if !ok {
        return Fails;
      }
      p := s[n..];
    }
    if duplicate != dup {
      return Fails;
    }
    return Left(p);
  }

  lemma {:induction false} NotBounded(d: string, n: nat)
    requires (forall k :: 0 <= k < |d| ==> IsDigit(d[k])) && n <= |d| && !Bounded(d[..n])
    ensures !Bounded(d)
    decreases |d|
  {
    if n < |d| {
      assert d[..|d| - 1][..n] == d[..n];
      NotBounded(d[..|d| - 1], n);
    } else {
      assert d[..n] == d;
    }
  }
}
