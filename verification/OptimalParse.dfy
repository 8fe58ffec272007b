/**
 * The backward optimal parse: for every position, the cheapest way to the end over a literal or any
 * length of any of the nearest 128 positions that share the next two bytes.
 */
module OptimalParse {
  import opened Numeral
  import opened Codebook

  const CHAIN_LIMIT := 128

  /** How one position is coded: a literal is (1, 0), a match has its length and distance. */
  datatype Choice = Choice(length: nat, distance: nat)

  const LITERAL_CHOICE := Choice(1, 0)

  // ---------------------------------------------------------------- candidates

  function Hash(data: seq<Byte>, pos: nat): (h: nat)
    requires pos + 1 < |data|
    ensures h < 0x1_0000
  {
    var lo: nat, hi: nat := data[pos], data[pos + 1];
    lo + 256 * hi
  }

  /** One more than the last position below upto whose two bytes hash to h; zero if there is none. */
  function LastHash(data: seq<Byte>, h: nat, upto: nat): (r: nat)
    requires upto <= |data|
    ensures r <= upto
    ensures r > 0 ==> r < |data| && Hash(data, r - 1) == h
  {
    if upto == 0 then 0
    else if upto < |data| && Hash(data, upto - 1) == h then upto
    else LastHash(data, h, upto - 1)
  }

  /** The link out of a position: the nearest earlier position with the same two bytes, plus one. */
  function Link(data: seq<Byte>, pos: nat): (r: nat)
    requires pos + 1 < |data|
    ensures r <= pos
    ensures r > 0 ==> Hash(data, r - 1) == Hash(data, pos)
  {
    LastHash(data, Hash(data, pos), pos)
  }

  /** q is among the first k positions along the chain that starts at a link. */
  predicate OnChain(data: seq<Byte>, link: nat, k: nat, q: nat)
    requires link < |data| || link == 0
    decreases link
  {
    link > 0 && k > 0 && (q == link - 1 || OnChain(data, Link(data, link - 1), k - 1, q))
  }

  /** Chains run backwards. */
  lemma {:induction false} ChainBelow(data: seq<Byte>, link: nat, k: nat, q: nat)
    requires (link < |data| || link == 0) && OnChain(data, link, k, q)
    ensures q < link
    decreases link
  {
    if q != link - 1 {
      ChainBelow(data, Link(data, link - 1), k - 1, q);
    }
  }

  /** q is one of the candidates the parse considers at pos. */
  predicate Candidate(data: seq<Byte>, pos: nat, q: nat)
    requires pos < |data|
  {
    pos + 1 < |data| && OnChain(data, Link(data, pos), CHAIN_LIMIT, q)
  }

  /** Two positions with the same two bytes. */
  predicate SamePair(data: seq<Byte>, p: nat, q: nat) {
    p + 1 < |data| && q + 1 < |data| && data[p] == data[q] && data[p + 1] == data[q + 1]
  }

  /** How many positions after q and before upto have the two bytes at pos. */
  function Nearer(data: seq<Byte>, pos: nat, q: nat, upto: nat): nat
    decreases upto
  {
    if upto <= q + 1 then 0 else Nearer(data, pos, q, upto - 1) + if SamePair(data, pos, upto - 1) then 1 else 0
  }

  lemma {:induction false} OnChainIs(data: seq<Byte>, pos: nat, upto: nat, k: nat, q: nat)
    requires pos + 1 < |data| && upto < |data|
    ensures OnChain(data, LastHash(data, Hash(data, pos), upto), k, q)
       <==> q < upto && SamePair(data, pos, q) && Nearer(data, pos, q, upto) < k
    decreases upto
  {
    if upto > 0 {
      OnChainIs(data, pos, upto - 1, k, q);
      if k > 0 {
        OnChainIs(data, pos, upto - 1, k - 1, q);
      }
      assert Hash(data, upto - 1) == Hash(data, pos) <==> SamePair(data, pos, upto - 1);
    }
  }

  /** The candidates are the nearest 128 earlier positions with the same two bytes. */
  lemma CandidateIs(data: seq<Byte>, pos: nat, q: nat)
    requires pos < |data|
    ensures Candidate(data, pos, q) <==> q < pos && SamePair(data, pos, q) && Nearer(data, pos, q, pos) < 128
  {
    if pos + 1 < |data| {
      OnChainIs(data, pos, pos, CHAIN_LIMIT, q);
    }
  }

  // ---------------------------------------------------------------- matches

  function MatchLimit(data: seq<Byte>, pos: nat): (r: nat)
    requires pos <= |data|
    ensures pos + r <= |data| && r <= MAX_MATCH && (r == MAX_MATCH || pos + r == |data|)
  {
    if |data| - pos > MAX_MATCH then MAX_MATCH else |data| - pos
  }

  /** The byte at k repeats the one distance before it. */
  predicate Repeats(data: seq<Byte>, k: nat, distance: nat) {
    distance <= k < |data| && data[k] == data[k - distance]
  }

  /** How far the bytes at pos agree with those distance before, from l on and up to the limit. */
  function AgreeFrom(data: seq<Byte>, pos: nat, distance: nat, l: nat): (r: nat)
    requires 1 <= distance <= pos <= |data| && l <= MatchLimit(data, pos)
    ensures l <= r <= MatchLimit(data, pos)
    ensures forall k :: pos + l <= k < pos + r ==> Repeats(data, k, distance)
    ensures r < MatchLimit(data, pos) ==> !Repeats(data, pos + r, distance)
    decreases MatchLimit(data, pos) - l
  {
    if l < MatchLimit(data, pos) && Repeats(data, pos + l, distance)
    then AgreeFrom(data, pos, distance, l + 1) else l
  }

  function MatchLength(data: seq<Byte>, pos: nat, distance: nat): nat
    requires 1 <= distance <= pos <= |data|
  {
    AgreeFrom(data, pos, distance, 0)
  }

  // ---------------------------------------------------------------- prices

  function DistancePrice(distance: nat): nat
    requires distance >= 1
  {
    6 + ExtraBits(distance - 1)
  }

  function LengthPrice(length: nat): nat {
    if length < 10 then 4 else if length < 18 then 5 else 10
  }

  function MatchPrice(length: nat, distance: nat): nat
    requires distance >= 1
  {
    2 + DistancePrice(distance) + LengthPrice(length)
  }

  function Price(c: Choice): nat {
    if c.distance == 0 then 9 else MatchPrice(c.length, c.distance)
  }

  lemma {:induction false} ExtraBitsMonotone(a: nat, b: nat)
    requires a <= b
    ensures ExtraBits(a) <= ExtraBits(b)
  {
    if a >= 4 {
      ExtraBitsMonotone(a / 2, b / 2);
    }
  }

  // ---------------------------------------------------------------- admissible parses

  /** A literal, or any length of any candidate. */
  predicate Admissible(data: seq<Byte>, pos: nat, c: Choice)
    requires pos < |data|
  {
    || c == LITERAL_CHOICE
    || (&& 1 <= c.distance <= pos && Candidate(data, pos, pos - c.distance)
        && 2 <= c.length <= MatchLength(data, pos, c.distance))
  }

  /** An admissible choice moves forward, stays inside the data, and a match repeats what came before. */
  lemma AdmissibleIsMatch(data: seq<Byte>, pos: nat, c: Choice)
    requires pos < |data| && Admissible(data, pos, c)
    ensures 1 <= c.length <= MAX_MATCH && pos + c.length <= |data|
    ensures c.length >= 2 <==> c.distance != 0
    ensures c.distance != 0 ==> c.distance <= pos
    ensures c.distance != 0 ==> forall k :: pos <= k < pos + c.length ==> Repeats(data, k, c.distance)
  {
  }

  lemma AdmissibleBounds(data: seq<Byte>, pos: nat, c: Choice)
    requires pos < |data| && Admissible(data, pos, c)
    ensures 1 <= c.length <= MAX_MATCH && pos + c.length <= |data|
  {
  }

  /** The choices cs, one after the other, lead from pos to the end of the data. */
  predicate Parses(data: seq<Byte>, pos: nat, cs: seq<Choice>)
    requires pos <= |data|
    decreases cs
  {
    if cs == [] then pos == |data|
    else
      && pos < |data| && Admissible(data, pos, cs[0])
      && (AdmissibleBounds(data, pos, cs[0]); Parses(data, pos + cs[0].length, cs[1..]))
  }

  function TotalPrice(cs: seq<Choice>): nat {
    if cs == [] then 0 else Price(cs[0]) + TotalPrice(cs[1..])
  }

  lemma TotalPriceCons(c: Choice, cs: seq<Choice>)
    ensures TotalPrice([c] + cs) == Price(c) + TotalPrice(cs)
  {
    assert ([c] + cs)[1..] == cs;
  }

  /** No admissible parse from pos costs less than c. */
  ghost predicate LowerBound(data: seq<Byte>, pos: nat, c: nat)
    requires pos <= |data|
  {
    forall cs: seq<Choice> :: Parses(data, pos, cs) ==> c <= TotalPrice(cs)
  }

  ghost predicate AllAdmissible(data: seq<Byte>, choices: seq<Choice>) {
    |choices| == |data| && forall p :: 0 <= p < |data| ==> Admissible(data, p, choices[p])
  }

  /** Every choice moves on, and none past the end. */
  predicate Forward(choices: seq<Choice>) {
    forall p :: 0 <= p < |choices| ==> 1 <= choices[p].length && p + choices[p].length <= |choices|
  }

  /** The parse that a table of choices spells out from pos on. */
  function Follow(choices: seq<Choice>, pos: nat): seq<Choice>
    requires Forward(choices) && pos <= |choices|
    decreases |choices| - pos
  {
    if pos == |choices| then [] else [choices[pos]] + Follow(choices, pos + choices[pos].length)
  }

  lemma AdmissibleForward(data: seq<Byte>, choices: seq<Choice>)
    requires AllAdmissible(data, choices)
    ensures Forward(choices)
  {
    forall p | 0 <= p < |choices| ensures 1 <= choices[p].length && p + choices[p].length <= |choices| {
      AdmissibleBounds(data, p, choices[p]);
    }
  }

  lemma {:induction false} FollowParses(data: seq<Byte>, choices: seq<Choice>, pos: nat)
    requires AllAdmissible(data, choices) && Forward(choices) && pos <= |data|
    ensures Parses(data, pos, Follow(choices, pos))
    decreases |data| - pos
  {
    if pos < |data| {
      var rest := Follow(choices, pos + choices[pos].length);
      FollowParses(data, choices, pos + choices[pos].length);
      assert ([choices[pos]] + rest)[1..] == rest;
    }
  }

  /**
   * A table is optimal when, from every position, the parse it spells out is admissible and no
   * admissible parse is cheaper.
   */
  ghost predicate Optimal(data: seq<Byte>, choices: seq<Choice>) {
    && AllAdmissible(data, choices) && Forward(choices)
    && forall pos :: 0 <= pos <= |data| ==>
         Parses(data, pos, Follow(choices, pos)) && LowerBound(data, pos, TotalPrice(Follow(choices, pos)))
  }

  // ---------------------------------------------------------------- why the search is exhaustive

  /** c is no dearer than taking length bytes at some distance, given what each later position costs. */
  predicate Beats(c: nat, cost: seq<nat>, pos: nat, length: nat, distance: nat)
    requires distance >= 1
  {
    pos + length < |cost| ==> c <= MatchPrice(length, distance) + cost[pos + length]
  }

  /** Farther is never cheaper: what beats one distance beats every larger one. */
  lemma BeatsFarther(c: nat, cost: seq<nat>, pos: nat, length: nat, near: nat, far: nat)
    requires 1 <= near <= far && Beats(c, cost, pos, length, near)
    ensures Beats(c, cost, pos, length, far)
  {
    ExtraBitsMonotone(near - 1, far - 1);
  }

  /** c is at most any admissible first choice followed by the best rest. */
  ghost predicate BeatsAll(data: seq<Byte>, pos: nat, c: nat, cost: seq<nat>)
    requires pos < |data| && |cost| == |data| + 1
  {
    && c <= 9 + cost[pos + 1]
    && forall ch: Choice :: Admissible(data, pos, ch) && ch.distance >= 1 ==>
         Beats(c, cost, pos, ch.length, ch.distance)
  }

  lemma FirstChoice(data: seq<Byte>, pos: nat, c: nat, cost: seq<nat>, first: Choice)
    requires pos < |data| && |cost| == |data| + 1 && BeatsAll(data, pos, c, cost) && Admissible(data, pos, first)
    ensures pos + first.length <= |data| && c <= Price(first) + cost[pos + first.length]
  {
    AdmissibleBounds(data, pos, first);
    if first.distance >= 1 {
      assert Beats(c, cost, pos, first.length, first.distance);
    }
  }

  lemma BoundsOne(data: seq<Byte>, pos: nat, c: nat, cost: seq<nat>, cs: seq<Choice>)
    requires pos < |data| && |cost| == |data| + 1 && BeatsAll(data, pos, c, cost) && Parses(data, pos, cs)
    requires var p := pos + cs[0].length; p <= |data| ==> LowerBound(data, p, cost[p])
    ensures c <= TotalPrice(cs)
  {
    FirstChoice(data, pos, c, cost, cs[0]);
    assert Parses(data, pos + cs[0].length, cs[1..]);
  }

  lemma BoundExtends(data: seq<Byte>, pos: nat, c: nat, cost: seq<nat>)
    requires pos < |data| && |cost| == |data| + 1 && BeatsAll(data, pos, c, cost)
    requires forall p :: pos < p <= |data| ==> LowerBound(data, p, cost[p])
    ensures LowerBound(data, pos, c)
  {
    forall cs: seq<Choice> | Parses(data, pos, cs) ensures c <= TotalPrice(cs) {
      AdmissibleBounds(data, pos, cs[0]);
      BoundsOne(data, pos, c, cost, cs);
    }
  }

  /** The bound best holds against every length up to longest, at distance near or farther. */
  ghost predicate Covers(best: nat, cost: seq<nat>, pos: nat, longest: nat, near: nat)
    requires near >= 1
  {
    forall length, d :: 2 <= length <= longest && near <= d ==> Beats(best, cost, pos, length, d)
  }

  /** The bound best holds against every length of the match at a distance. */
  ghost predicate TriedAt(data: seq<Byte>, best: nat, cost: seq<nat>, pos: nat, d: nat)
    requires 1 <= d <= pos < |data|
  {
    forall length :: 2 <= length <= MatchLength(data, pos, d) ==> Beats(best, cost, pos, length, d)
  }

  /** Every candidate that is not still ahead, k or fewer links from a given one, has been tried. */
  ghost predicate Tried(data: seq<Byte>, best: nat, cost: seq<nat>, pos: nat, ahead: nat, k: nat)
    requires pos < |data| && (ahead < |data| || ahead == 0)
  {
    forall q: nat :: q < pos && Candidate(data, pos, q) && !OnChain(data, ahead, k, q) ==>
      TriedAt(data, best, cost, pos, pos - q)
  }

  /** best is what the admissible choice costs. */
  ghost predicate Priced(data: seq<Byte>, best: nat, cost: seq<nat>, pos: nat, choice: Choice)
    requires pos < |data| && |cost| == |data| + 1
  {
    && Admissible(data, pos, choice) && pos + choice.length <= |data|
    && best == Price(choice) + cost[pos + choice.length]
  }

  /** Growing the covered lengths at a farther distance. */
  lemma CoversMore(best: nat, best': nat, cost: seq<nat>, pos: nat, longest: nat, length: nat, near: nat, d: nat)
    requires 1 <= near <= d && best' <= best && Covers(best, cost, pos, longest, near)
    requires forall l :: longest < l <= length ==> Beats(best', cost, pos, l, d)
    ensures Covers(best', cost, pos, if length > longest then length else longest, d)
  {
    forall l, e | 2 <= l <= (if length > longest then length else longest) && d <= e
      ensures Beats(best', cost, pos, l, e)
    {
      if l <= longest {
        assert Beats(best, cost, pos, l, e);
      } else {
        BeatsFarther(best', cost, pos, l, d, e);
      }
    }
  }

  /** A position whose matches are all covered joins those already tried. */
  lemma TriedOne(data: seq<Byte>, best: nat, best': nat, cost: seq<nat>, pos: nat, ahead: nat, k: nat, longest: nat)
    requires pos < |data| && 0 < ahead <= pos && k > 0 && best' <= best && Tried(data, best, cost, pos, ahead, k)
    requires Covers(best', cost, pos, longest, pos - (ahead - 1))
    requires MatchLength(data, pos, pos - (ahead - 1)) <= longest
    ensures Tried(data, best', cost, pos, Link(data, ahead - 1), k - 1)
  {
    forall q: nat | q < pos && Candidate(data, pos, q) && !OnChain(data, Link(data, ahead - 1), k - 1, q)
      ensures TriedAt(data, best', cost, pos, pos - q)
    {
      if q != ahead - 1 {
        assert TriedAt(data, best, cost, pos, pos - q);
        TriedAtLess(data, best, best', cost, pos, pos - q);
      }
    }
  }

  lemma TriedAtLess(data: seq<Byte>, best: nat, best': nat, cost: seq<nat>, pos: nat, d: nat)
    requires 1 <= d <= pos < |data| && best' <= best && TriedAt(data, best, cost, pos, d)
    ensures TriedAt(data, best', cost, pos, d)
  {
    forall length | 2 <= length <= MatchLength(data, pos, d) ensures Beats(best', cost, pos, length, d) {
      assert Beats(best, cost, pos, length, d);
    }
  }

  /** Once the longest possible match is covered, the rest of the chain has nothing to add. */
  lemma TriedRest(data: seq<Byte>, best: nat, cost: seq<nat>, pos: nat, ahead: nat, k: nat, longest: nat, near: nat)
    requires pos < |data| && ahead <= pos && Tried(data, best, cost, pos, ahead, k)
    requires 1 <= near && (ahead > 0 ==> near <= pos + 1 - ahead)
    requires Covers(best, cost, pos, longest, near) && longest >= MatchLimit(data, pos)
    ensures Tried(data, best, cost, pos, 0, 0)
  {
    forall q: nat | q < pos && Candidate(data, pos, q) ensures TriedAt(data, best, cost, pos, pos - q) {
      if OnChain(data, ahead, k, q) {
        ChainBelow(data, ahead, k, q);
      }
    }
  }

  /** With every candidate tried, the bound holds against every admissible choice. */
  lemma TriedAll(data: seq<Byte>, best: nat, cost: seq<nat>, pos: nat)
    requires pos < |data| && |cost| == |data| + 1 && best <= 9 + cost[pos + 1]
    requires Tried(data, best, cost, pos, 0, 0)
    ensures BeatsAll(data, pos, best, cost)
  {
    forall ch: Choice | Admissible(data, pos, ch) && ch.distance >= 1
      ensures Beats(best, cost, pos, ch.length, ch.distance)
    {
      assert TriedAt(data, best, cost, pos, pos - (pos - ch.distance));
    }
  }

  // ---------------------------------------------------------------- the match finder

  class MatchFinder {
    const data: seq<Byte>
    const previous: array<nat>
    const head: array<nat>

    constructor (data: seq<Byte>)
      ensures this.data == data && fresh(previous) && fresh(head) && previous != head
      ensures previous.Length == |data| && head.Length == 0x1_0000 && forall h :: 0 <= h < 0x1_0000 ==> head[h] == 0
    {
      this.data := data;
      previous := new nat[|data|];
      head := new nat[0x1_0000](_ => 0);
    }

    /** Every position below upto is in its chain. */
    ghost predicate Linked(upto: nat)
      reads previous, head
    {
      && upto <= |data| && previous.Length == |data| && head.Length == 0x1_0000 && previous != head
      && (forall h :: 0 <= h < 0x1_0000 ==> head[h] == LastHash(data, h, upto))
      && (forall p :: 0 <= p < upto && p + 1 < |data| ==> previous[p] == Link(data, p))
    }

    method Insert(pos: nat)
      requires pos < |data| && Linked(pos)
      modifies previous, head
      ensures Linked(pos + 1)
    {
      if |data| - pos >= 2 {
        var hash := Hash(data, pos);
        previous[pos] := head[hash];
        head[hash] := pos + 1;
      }
    }

    method Length(pos: nat, distance: nat) returns (length: nat)
      requires 1 <= distance <= pos <= |data|
      ensures length == MatchLength(data, pos, distance)
    {
      var limit := MatchLimit(data, pos);
      length := 0;
      while length < limit && data[pos + length] == data[pos - distance + length]
        invariant length <= limit && AgreeFrom(data, pos, distance, length) == MatchLength(data, pos, distance)
      {
        length := length + 1;
      }
    }

    /** Prices every length the newest candidate adds beyond those already covered. */
    method TryLengths(pos: nat, distance: nat, longest: nat, length: nat, cost: array<nat>, best0: nat, choice0: Choice)
      returns (best: nat, choice: Choice)
      requires 1 <= distance <= pos < |data| && cost.Length == |data| + 1 && longest >= 1
      requires Candidate(data, pos, pos - distance) && length == MatchLength(data, pos, distance)
      requires Priced(data, best0, cost[..], pos, choice0)
      ensures best <= best0 && Priced(data, best, cost[..], pos, choice)
      ensures forall l :: longest < l <= length ==> Beats(best, cost[..], pos, l, distance)
    {
      best, choice := best0, choice0;
      var price := 2 + DistancePrice(distance);
      var len := longest + 1;
      while len <= length
        invariant longest < len && best <= best0 && Priced(data, best, cost[..], pos, choice)
        invariant forall l :: longest < l < len && l <= length ==> best <= MatchPrice(l, distance) + cost[pos + l]
      {
        var nextCost := price + LengthPrice(len) + cost[pos + len];
        if nextCost <= best {
          best := nextCost;
          choice := Choice(len, distance);
        }
        len := len + 1;
      }
    }

    /** Prices one candidate, unless its byte past the longest match so far already rules it out. */
    method Visit(pos: nat, prior: nat, cost: array<nat>, longest0: nat, best0: nat, choice0: Choice, ghost near: nat)
      returns (best: nat, choice: Choice, longest: nat)
      requires prior < pos < |data| && Candidate(data, pos, prior) && cost.Length == |data| + 1
      requires 1 <= longest0 < MatchLimit(data, pos) && 1 <= near <= pos - prior
      requires Priced(data, best0, cost[..], pos, choice0) && Covers(best0, cost[..], pos, longest0, near)
      ensures best <= best0 && longest0 <= longest <= MatchLimit(data, pos) && Priced(data, best, cost[..], pos, choice)
      ensures Covers(best, cost[..], pos, longest, pos - prior) && MatchLength(data, pos, pos - prior) <= longest
    {
      best, choice, longest := best0, choice0, longest0;
      var distance := pos - prior;
      if data[pos + longest] != data[prior + longest] {
        assert !Repeats(data, pos + longest, distance);
        CoversMore(best, best, cost[..], pos, longest, longest, near, distance);
      } else {
        var length := Length(pos, distance);
        best, choice := TryLengths(pos, distance, longest, length, cost, best, choice);
        CoversMore(best0, best, cost[..], pos, longest, length, near, distance);
        if length > longest {
          longest := length;
        }
      }
    }

    method Next(pos: nat) returns (link: nat)
      requires Linked(|data|) && pos + 1 < |data|
      ensures link == Link(data, pos)
    {
      link := previous[pos];
    }

    /** What the walk along a chain keeps: what is behind is tried, and what is ahead is farther away. */
    ghost predicate Walking(pos: nat, c: seq<nat>, best: nat, choice: Choice, longest: nat,
                            candidate: nat, k: nat, near: nat)
      requires pos < |data| && |c| == |data| + 1
    {
      && candidate <= pos && 1 <= longest <= MatchLimit(data, pos)
      && 1 <= near && (candidate > 0 ==> near <= pos + 1 - candidate)
      && (candidate > 0 && k > 0 ==> Candidate(data, pos, candidate - 1))
      && (forall q :: OnChain(data, candidate, k, q) ==> Candidate(data, pos, q))
      && best <= 9 + c[pos + 1] && Priced(data, best, c, pos, choice)
      && Covers(best, c, pos, longest, near) && Tried(data, best, c, pos, candidate, k)
    }

    /** The best first choice at pos, given what every later position costs. */
    method Scan(pos: nat, cost: array<nat>) returns (best: nat, choice: Choice)
      requires Linked(|data|) && pos < |data| && cost.Length == |data| + 1
      ensures Priced(data, best, cost[..], pos, choice) && BeatsAll(data, pos, best, cost[..])
    {
      best, choice := 9 + cost[pos + 1], LITERAL_CHOICE;
      ghost var c := cost[..];
      if |data| - pos < 2 {
        TriedAll(data, best, c, pos);
        return;
      }
      var candidate := Next(pos);
      var longest: nat := 1;
      var depth: nat := 0;
      ghost var near: nat := 1;
      while candidate != 0 && depth < CHAIN_LIMIT
        invariant depth <= CHAIN_LIMIT
        invariant Walking(pos, c, best, choice, longest, candidate, CHAIN_LIMIT - depth, near)
        decreases CHAIN_LIMIT - depth
      {
        if longest >= |data| - pos || longest == MAX_MATCH {
          TriedRest(data, best, c, pos, candidate, CHAIN_LIMIT - depth, longest, near);
          TriedAll(data, best, c, pos);
          return;
        }
        best, choice, longest, candidate, near :=
          Advance(pos, cost, longest, best, choice, candidate, CHAIN_LIMIT - depth, near);
        depth := depth + 1;
      }
      assert Tried(data, best, c, pos, 0, 0);
      TriedAll(data, best, c, pos);
    }

    /** One candidate is visited and the next one taken from its chain. */
    method Advance(pos: nat, cost: array<nat>, longest0: nat, best0: nat, choice0: Choice, candidate0: nat,
                   ghost k: nat, ghost near0: nat)
      returns (best: nat, choice: Choice, longest: nat, candidate: nat, ghost near: nat)
      requires Linked(|data|) && pos < |data| && cost.Length == |data| + 1 && candidate0 > 0 && k > 0
      requires Walking(pos, cost[..], best0, choice0, longest0, candidate0, k, near0)
      requires longest0 < MatchLimit(data, pos)
      ensures Walking(pos, cost[..], best, choice, longest, candidate, k - 1, near)
    {
      var prior := candidate0 - 1;
      candidate := Next(prior);
      best, choice, longest := Visit(pos, prior, cost, longest0, best0, choice0, near0);
      near := pos - prior;
      TriedOne(data, best0, best, cost[..], pos, candidate0, k, longest);
      forall q | OnChain(data, candidate, k - 1, q) ensures Candidate(data, pos, q) {
        assert OnChain(data, candidate0, k, q);
      }
    }

    /** What the backward pass has settled from pos on. */
    ghost predicate Settled(pos: nat, cost: seq<nat>, choices: seq<Choice>) {
      && pos <= |data| && |cost| == |data| + 1 && |choices| == |data| && cost[|data|] == 0
      && (forall p :: pos <= p < |data| ==> Priced(data, cost[p], cost, p, choices[p]))
      && (forall p :: pos <= p <= |data| ==> LowerBound(data, p, cost[p]))
    }

    lemma Settle(pos: nat, cost: seq<nat>, choices: seq<Choice>, best: nat, choice: Choice)
      requires pos < |data| && Settled(pos + 1, cost, choices)
      requires Priced(data, best, cost, pos, choice) && LowerBound(data, pos, best)
      ensures Settled(pos, cost[pos := best], choices[pos := choice])
    {
      var cost', choices' := cost[pos := best], choices[pos := choice];
      PricedFrame(pos, best, cost, cost', choice);
      forall p | pos < p < |data| ensures Priced(data, cost'[p], cost', p, choices'[p]) {
        PricedFrame(p, cost[p], cost, cost', choices[p]);
      }
    }

    lemma PricedFrame(p: nat, v: nat, cost: seq<nat>, cost': seq<nat>, choice: Choice)
      requires p < |data| && |cost| == |cost'| == |data| + 1 && Priced(data, v, cost, p, choice)
      requires forall q :: p < q <= |data| ==> cost'[q] == cost[q]
      ensures Priced(data, v, cost', p, choice)
    {
      AdmissibleBounds(data, p, choice);
    }

    lemma SettledOptimal(cost: seq<nat>, choices: seq<Choice>)
      requires Settled(0, cost, choices)
      ensures Optimal(data, choices)
    {
      forall p | 0 <= p < |data| ensures Admissible(data, p, choices[p]) {
        assert Priced(data, cost[p], cost, p, choices[p]);
      }
      AdmissibleForward(data, choices);
      forall p | 0 <= p < |choices| ensures cost[p] == Price(choices[p]) + cost[p + choices[p].length] {
        assert Priced(data, cost[p], cost, p, choices[p]);
      }
      forall p | 0 <= p <= |data|
        ensures Parses(data, p, Follow(choices, p)) && LowerBound(data, p, TotalPrice(Follow(choices, p)))
      {
        FollowParses(data, choices, p);
        FollowPrice(p, cost, choices);
      }
    }

    method Parse() returns (choices: array<Choice>)
      requires previous.Length == |data| && head.Length == 0x1_0000 && previous != head
      requires forall h :: 0 <= h < 0x1_0000 ==> head[h] == 0
      modifies previous, head
      ensures fresh(choices) && Optimal(data, choices[..])
    {
      for pos := 0 to |data|
        invariant Linked(pos)
      {
        Insert(pos);
      }
      var cost := new nat[|data| + 1];
      choices := new Choice[|data|];
      cost[|data|] := 0;
      var pos: nat := |data|;
      while pos > 0
        invariant fresh(choices) && fresh(cost) && cost.Length == |data| + 1 && choices.Length == |data|
        invariant pos <= |data| && Linked(|data|)
        invariant Settled(pos, cost[..], choices[..])
      {
        pos := pos - 1;
        var best, choice := Scan(pos, cost);
        BoundExtends(data, pos, best, cost[..]);
        ghost var c, ch := cost[..], choices[..];
        Settle(pos, c, ch, best, choice);
        cost[pos] := best;
        choices[pos] := choice;
        assert cost[..] == c[pos := best] && choices[..] == ch[pos := choice];
      }
      SettledOptimal(cost[..], choices[..]);
    }
  }

  /** Costs that add up choice by choice are the prices of the parses the choices spell out. */
  lemma {:induction false} FollowPrice(pos: nat, cost: seq<nat>, choices: seq<Choice>)
    requires Forward(choices) && pos <= |choices| && |cost| == |choices| + 1 && cost[|choices|] == 0
    requires forall p :: 0 <= p < |choices| ==> cost[p] == Price(choices[p]) + cost[p + choices[p].length]
    ensures cost[pos] == TotalPrice(Follow(choices, pos))
    decreases |choices| - pos
  {
    if pos < |choices| {
      var next := pos + choices[pos].length;
      FollowPrice(next, cost, choices);
      TotalPriceCons(choices[pos], Follow(choices, next));
    }
  }
}
