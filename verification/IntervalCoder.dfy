/**
 * The exact interval coder behind the packed stream.
 *
 * A coder is an interval [low, low + range) at scale 256^-shifts. Coding an event narrows it, and
 * `low` is never rounded or wrapped here: the 33-bit register, the cached byte and the pending run
 * of the real encoder are shown elsewhere to spell exactly this number.
 */
module IntervalCoder {
  import opened Numeral

  const PROBS := 4918

  type Bit = b: nat | b < 2

  /** One coded decision: a bit under an adaptive probability, or a bit at even odds. */
  datatype Event = Model(index: nat, bit: Bit) | Direct(bit: Bit)

  datatype Coder = Coder(low: nat, range: nat, shifts: nat, probs: seq<nat>)

  predicate ProbsOk(probs: seq<nat>) {
    |probs| == PROBS && forall i :: 0 <= i < PROBS ==> 31 <= probs[i] <= 2017
  }

  predicate Valid(c: Coder) {
    0x100_0000 <= c.range < 0x1_0000_0000 && ProbsOk(c.probs)
  }

  predicate EventOk(ev: Event) {
    ev.Model? ==> ev.index < PROBS
  }

  predicate EventsOk(evs: seq<Event>) {
    forall k :: 0 <= k < |evs| ==> EventOk(evs[k])
  }

  /** A probability of a zero moves a thirty-second of the way, rounded down, towards the bit just coded. */
  function Adapt(p: nat, bit: Bit): (q: int)
    requires p <= 2048
    ensures bit == 0 ==> q >= p && 32 * (q - p) <= 2048 - p < 32 * (q - p) + 32
    ensures bit == 1 ==> q <= p && 32 * (p - q) <= p < 32 * (p - q) + 32
    ensures 31 <= p <= 2017 ==> 31 <= q <= 2017
  {
    if bit == 0 then p + (2048 - p) / 32 else p - p / 32
  }

  /** The interval a bit leaves, before renormalisation: its offset and its width. */
  function Offset(c: Coder, ev: Event): nat
    requires Valid(c) && EventOk(ev)
  {
    if ev.bit == 0 then 0
    else if ev.Model? then (c.range / 2048) * c.probs[ev.index]
    else c.range / 2
  }

  lemma MulBounds(u: nat, p: nat)
    requires 31 <= p <= 2017
    ensures 31 * u <= u * p <= 2017 * u
  {
  }

  lemma BoundRange(range: nat, p: nat)
    requires 0x100_0000 <= range < 0x1_0000_0000 && 31 <= p <= 2017
    ensures 0x1_0000 <= (range / 2048) * p
    ensures (range / 2048) * p + 0x1_0000 <= range
  {
    var u := range / 2048;
    MulBounds(u, p);
    assert 8192 <= u && 2048 * u <= range;
  }

  function Width(c: Coder, ev: Event): (w: nat)
    requires Valid(c) && EventOk(ev)
    ensures 0x1_0000 <= w && Offset(c, ev) + w <= c.range
  {
    if ev.Model? then
      BoundRange(c.range, c.probs[ev.index]);
      var bound := (c.range / 2048) * c.probs[ev.index];
      if ev.bit == 0 then bound else c.range - bound
    else
      c.range / 2
  }

  function NextProbs(c: Coder, ev: Event): (probs: seq<nat>)
    requires Valid(c) && EventOk(ev)
    ensures ProbsOk(probs)
  {
    if ev.Model? then c.probs[ev.index := Adapt(c.probs[ev.index], ev.bit)] else c.probs
  }

  /** One event and at most one renormalising shift, which always restores range >= 2^24. */
  function Step(c: Coder, ev: Event): (r: Coder)
    requires Valid(c) && EventOk(ev)
    ensures Valid(r)
  {
    var low := c.low + Offset(c, ev);
    var width := Width(c, ev);
    if width < 0x100_0000 then Coder(low * 256, width * 256, c.shifts + 1, NextProbs(c, ev))
    else Coder(low, width, c.shifts, NextProbs(c, ev))
  }

  function Run(c: Coder, evs: seq<Event>): (r: Coder)
    requires Valid(c) && EventsOk(evs)
    ensures Valid(r)
    decreases evs
  {
    if evs == [] then c
    else
      Run(Step(c, evs[0]), evs[1..])
  }

  lemma {:induction false} RunAppend(c: Coder, a: seq<Event>, b: seq<Event>)
    requires Valid(c) && EventsOk(a) && EventsOk(b)
    ensures EventsOk(a + b) && Run(c, a + b) == Run(Run(c, a), b)
    decreases a
  {
    if a == [] {
      assert a + b == b;
    } else {
      RunAppend(Step(c, a[0]), a[1..], b);
      assert (a + b)[1..] == a[1..] + b;
    }
  }

  function EvenOdds(): (probs: seq<nat>)
    ensures ProbsOk(probs) && forall i :: 0 <= i < PROBS ==> probs[i] == 1024
  {
    seq(PROBS, _ => 1024)
  }

  const START := Coder(0, 0xffff_ffff, 0, EvenOdds())

  /** The stream's leading bytes name a number inside the coder's interval. */
  ghost predicate Contains(c: Coder, s: seq<Byte>) {
    |s| >= c.shifts + 5 && c.low <= Num(s[..c.shifts + 5]) < c.low + c.range
  }

  /** Intervals nest: a stream inside the interval after an event was inside it before. */
  lemma ContainsBefore(c: Coder, ev: Event, s: seq<Byte>)
    requires Valid(c) && EventOk(ev) && Contains(Step(c, ev), s)
    ensures Contains(c, s)
    ensures var v := Num(s[..c.shifts + 5]);
            c.low + Offset(c, ev) <= v < c.low + Offset(c, ev) + Width(c, ev)
  {
    if Width(c, ev) < 0x100_0000 {
      NumSnoc(s[..c.shifts + 5], s[c.shifts + 5]);
      assert s[..c.shifts + 6] == s[..c.shifts + 5] + [s[c.shifts + 5]];
    }
  }

  lemma {:induction false} ContainsBeforeRun(c: Coder, evs: seq<Event>, s: seq<Byte>)
    requires Valid(c) && EventsOk(evs) && Contains(Run(c, evs), s)
    ensures Contains(c, s)
    decreases evs
  {
    if evs != [] {
      ContainsBeforeRun(Step(c, evs[0]), evs[1..], s);
      ContainsBefore(c, evs[0], s);
    }
  }

  /** Two runs of events that part at some point end in intervals no stream lies in both of. */
  lemma {:induction false} DistinctEventsDisjoint(c: Coder, a: seq<Event>, b: seq<Event>, k: nat, s: seq<Byte>)
    requires Valid(c) && EventsOk(a) && EventsOk(b)
    requires k < |a| && k < |b| && a[..k] == b[..k]
    requires a[k].Direct? == b[k].Direct? && a[k].bit != b[k].bit
    requires a[k].Model? ==> a[k].index == b[k].index
    ensures !(Contains(Run(c, a), s) && Contains(Run(c, b), s))
    decreases a
  {
    if Contains(Run(c, a), s) && Contains(Run(c, b), s) {
      ContainsBeforeRun(Step(c, a[0]), a[1..], s);
      ContainsBeforeRun(Step(c, b[0]), b[1..], s);
      if k == 0 {
        ContainsBefore(c, a[0], s);
        ContainsBefore(c, b[0], s);
      } else {
        assert a[0] == a[..k][0] && b[0] == b[..k][0];
        assert a[1..][..k - 1] == a[..k][1..] && b[1..][..k - 1] == b[..k][1..];
        DistinctEventsDisjoint(Step(c, a[0]), a[1..], b[1..], k - 1, s);
      }
    }
  }

  /** How a decision is coded, leaving out which way it goes. */
  datatype Kind = Even | Under(index: nat)

  function KindOf(ev: Event): Kind {
    if ev.Model? then Under(ev.index) else Even
  }

  /** Every decision is coded the way the decisions before it call for. */
  ghost predicate Follows(context: seq<Event> -> Kind, evs: seq<Event>) {
    forall k :: 0 <= k < |evs| ==> KindOf(evs[k]) == context(evs[..k])
  }

  lemma Parting(a: seq<Event>, b: seq<Event>) returns (k: nat)
    requires !(a <= b) && !(b <= a)
    ensures k < |a| && k < |b| && a[..k] == b[..k] && a[k] != b[k]
  {
    k := 0;
    while k < |a| && k < |b| && a[k] == b[k]
      invariant k <= |a| && k <= |b| && a[..k] == b[..k]
    {
      assert a[..k + 1] == a[..k] + [a[k]] && b[..k + 1] == b[..k] + [b[k]];
      k := k + 1;
    }
  }

  /** Of two runs under the same contexts, neither the start of the other, no stream stands for both. */
  lemma RunsDisjoint(c: Coder, context: seq<Event> -> Kind, a: seq<Event>, b: seq<Event>, s: seq<Byte>)
    requires Valid(c) && EventsOk(a) && EventsOk(b) && Follows(context, a) && Follows(context, b)
    requires !(a <= b) && !(b <= a)
    ensures !(Contains(Run(c, a), s) && Contains(Run(c, b), s))
  {
    var k := Parting(a, b);
    assert KindOf(a[k]) == KindOf(b[k]);
    DistinctEventsDisjoint(c, a, b, k, s);
  }
}
