/**
 * The decoder half: how the boot-time decompressor reads decisions back from the packed payload,
 * and why it reads exactly the ones the encoder wrote.
 */
module StreamDecoder {
  import opened Numeral
  import opened IntervalCoder
  import opened SyntaxDecoder

  /** Registers of the decompressor: code, range, bytes consumed, probabilities. */
  datatype Dec = Dec(code: nat, range: nat, src: nat, probs: seq<nat>)

  predicate DecOk(d: Dec) {
    0x1_0000 <= d.range < 0x1_0000_0000 && d.code < 0x1_0000_0000 && ProbsOk(d.probs)
  }

  predicate ReadOk<T>(r: Read<Dec, T>) {
    r.Read? ==> DecOk(r.next)
  }

  function Normalise(s: seq<Byte>, d: Dec): (r: Read<Dec, ()>)
    ensures DecOk(d) ==> ReadOk(r) && (r.Read? ==> r.next.range >= 0x100_0000)
  {
    if d.range >= 0x100_0000 then Read((), d)
    else if d.src >= |s| then Corrupt
    else Read((), Dec(d.code * 256 % 0x1_0000_0000 + s[d.src], d.range * 256, d.src + 1, d.probs))
  }

  /** The decompressor's own update of a probability: up on a zero, down on a one. */
  function Updated(p: nat, bit: Bit): (q: nat)
    requires 31 <= p <= 2017
    ensures q == Adapt(p, bit)
  {
    if bit == 1 then p - p / 32 else p + (2048 - p) / 32
  }

  function ReadBit(s: seq<Byte>, d: Dec, index: nat): (r: Read<Dec, Bit>)
    requires DecOk(d) && index < PROBS
    ensures ReadOk(r)
  {
    match Normalise(s, d)
    case Corrupt => Corrupt
    case Read(_, n) =>
      BoundRange(n.range, n.probs[index]);
      var bound := n.range / 2048 * n.probs[index];
      if n.code < bound then
        Read(0, Dec(n.code, bound, n.src, n.probs[index := Updated(n.probs[index], 0)]))
      else
        Read(1, Dec(n.code - bound, n.range - bound, n.src, n.probs[index := Updated(n.probs[index], 1)]))
  }

  function ReadDirect(s: seq<Byte>, d: Dec): (r: Read<Dec, Bit>)
    requires DecOk(d)
    ensures ReadOk(r)
  {
    match Normalise(s, d)
    case Corrupt => Corrupt
    case Read(_, n) =>
      var half := n.range / 2;
      if n.code < half then Read(0, n.(range := half))
      else Read(1, n.(code := n.code - half, range := half))
  }

  // ---------------------------------------------------------------- following the encoder

  /** A normalised decoder in step with the coder c: its code is how far the stream is above low. */
  ghost predicate InStep(s: seq<Byte>, c: Coder, d: Dec) {
    && d.range == c.range && d.probs == c.probs && d.src == c.shifts + 5
    && |s| >= d.src && Num(s[..d.src]) == c.low + d.code
  }

  /** The decoder d of stream s stands where the decisions evs are still to come, and nothing else. */
  ghost predicate Pending(s: seq<Byte>, c: Coder, d: Dec, evs: seq<Event>) {
    && Valid(c) && DecOk(d) && EventsOk(evs)
    && Normalise(s, d).Read? && InStep(s, c, Normalise(s, d).next)
    && var end := Run(c, evs); |s| == end.shifts + 5 && Num(s) == end.low
  }

  ghost predicate Holds(s: seq<Byte>, d: Dec, evs: seq<Event>) {
    exists c: Coder :: Pending(s, c, d, evs)
  }

  lemma PendingContains(s: seq<Byte>, c: Coder, d: Dec, evs: seq<Event>)
    requires Pending(s, c, d, evs)
    ensures Contains(c, s)
  {
    assert s[..|s|] == s;
    ContainsBeforeRun(c, evs, s);
  }

  /** What reading the event ev yields, whichever kind it is. */
  ghost function ReadEvent(s: seq<Byte>, d: Dec, ev: Event): (r: Read<Dec, Bit>)
    requires DecOk(d) && EventOk(ev)
    ensures ReadOk(r)
  {
    if ev.Model? then ReadBit(s, d, ev.index) else ReadDirect(s, d)
  }

  /** A stream inside the interval of one side of a decision makes the decoder take that side. */
  lemma TakesSide(s: seq<Byte>, c: Coder, d: Dec, ev: Event)
    requires Valid(c) && DecOk(d) && EventOk(ev)
    requires Normalise(s, d).Read? && InStep(s, c, Normalise(s, d).next)
    requires Offset(c, ev) <= Normalise(s, d).next.code < Offset(c, ev) + Width(c, ev)
    ensures var n, r := Normalise(s, d).next, ReadEvent(s, d, ev);
            r == Read(ev.bit, Dec(n.code - Offset(c, ev), Width(c, ev), n.src, NextProbs(c, ev)))
  {
  }

  /** Renormalising late, before the next read, keeps the decoder in step with renormalising at once. */
  lemma StaysInStep(s: seq<Byte>, c: Coder, ev: Event, d: Dec)
    requires Valid(c) && EventOk(ev) && DecOk(d) && Contains(Step(c, ev), s)
    requires d.range == Width(c, ev) && d.probs == NextProbs(c, ev)
    requires d.src == c.shifts + 5 && |s| >= d.src && Num(s[..d.src]) == c.low + Offset(c, ev) + d.code
    ensures Normalise(s, d).Read? && InStep(s, Step(c, ev), Normalise(s, d).next)
  {
    if d.range < 0x100_0000 {
      NumTaken(s, d.src, c.low + Offset(c, ev) + d.code);
    }
  }

  /** Taking one more byte of the stream continues its numeral. */
  lemma NumTaken(s: seq<Byte>, n: nat, value: nat)
    requires n < |s| && Num(s[..n]) == value
    ensures Num(s[..n + 1]) == value * 256 + s[n]
  {
    NumSnoc(s[..n], s[n]);
    assert s[..n + 1] == s[..n] + [s[n]];
  }

  /** One decision: if the next event is ev, the decoder reads ev and stands before the rest. */
  lemma FollowStep(s: seq<Byte>, c: Coder, d: Dec, ev: Event, rest: seq<Event>)
    requires Pending(s, c, d, [ev] + rest)
    ensures EventOk(ev) && ReadEvent(s, d, ev).Read? && ReadEvent(s, d, ev).value == ev.bit
    ensures Pending(s, Step(c, ev), ReadEvent(s, d, ev).next, rest)
  {
    var evs := [ev] + rest;
    assert evs[0] == ev && evs[1..] == rest;
    assert Run(c, evs) == Run(Step(c, ev), rest);
    PendingContains(s, c, d, evs);
    assert s[..|s|] == s;
    ContainsBeforeRun(Step(c, ev), rest, s);
    ContainsBefore(c, ev, s);
    TakesSide(s, c, d, ev);
    StaysInStep(s, c, ev, ReadEvent(s, d, ev).next);
  }

  /** The decompressor's reader over the stream s. */
  function StreamReader(s: seq<Byte>): Reader<Dec> {
    Reader((d: Dec, index: nat) => if DecOk(d) && index < PROBS then ReadBit(s, d, index) else Corrupt,
           (d: Dec) => if DecOk(d) then ReadDirect(s, d) else Corrupt)
  }

  /** What a decoder state of the stream s has still to hand out. */
  ghost function Remaining(s: seq<Byte>): (Dec, seq<Event>) -> bool {
    (d, evs) => Holds(s, d, evs)
  }

  /** The stream reader hands back, one by one, the decisions the stream holds. */
  lemma StreamDelivers(s: seq<Byte>)
    ensures Delivers(StreamReader(s), Remaining(s))
  {
    var rd, holds := StreamReader(s), Remaining(s);
    forall d: Dec, index: nat, bit: Bit, rest: seq<Event> | holds(d, [Model(index, bit)] + rest)
      ensures Gives(rd.bit(d, index), bit, holds, rest)
    {
      var c :| Pending(s, c, d, [Model(index, bit)] + rest);
      FollowStep(s, c, d, Model(index, bit), rest);
    }
    forall d: Dec, bit: Bit, rest: seq<Event> | holds(d, [Direct(bit)] + rest)
      ensures Gives(rd.direct(d), bit, holds, rest)
    {
      var c :| Pending(s, c, d, [Direct(bit)] + rest);
      FollowStep(s, c, d, Direct(bit), rest);
    }
  }

  /** With no decision left, the code register is zero and every byte has been taken. */
  lemma ReadsEnd(s: seq<Byte>, d: Dec)
    requires Holds(s, d, [])
    ensures DecOk(d) && Normalise(s, d).Read?
    ensures Normalise(s, d).next.code == 0 && Normalise(s, d).next.src == |s|
  {
    var c :| Pending(s, c, d, []);
    assert s[..|s|] == s;
  }
}
