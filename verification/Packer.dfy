/** The packer's main routine, the decompressor's, and the theorem that one undoes the other. */
module Packer {
  import opened Numeral
  import opened Words
  import opened IntervalCoder
  import opened RangeEncoder
  import opened Codebook
  import opened Crc
  import opened StreamDecoder
  import opened OptimalParse
  import opened Tokens
  import Decisions
  import Bcj

  // ---------------------------------------------------------------- unpacking

  datatype Unpacked = Rejected | Unpacked(data: seq<Byte>)

  const HEADER := 8
  const STREAM_MIN := 13
  const FIRST_REPS := Distances(1, 1, 1, 1)

  /** The decompressor's first registers: the word after the leading byte, and the full range. */
  function FirstDec(s: seq<Byte>): Dec
    requires |s| >= 5
  {
    Dec(Num(s[1..5]), 0xffff_ffff, 5, seq(PROBS, _ => 2048 / 2))
  }

  /** The end of the stream: nothing left in the code register and no byte left over. */
  function CheckEnd(s: seq<Byte>, d: Dec): bool {
    var n := Normalise(s, d);
    n.Read? && n.next.code == 0 && n.next.src == |s|
  }

  /** The decompressor: header, payload, end check, filter, checksum. */
  function Unpack(stream: seq<Byte>, capacity: nat): Unpacked {
    if |stream| < STREAM_MIN || stream[HEADER] != 0 then Rejected
    else
      var checksum, size := FromLe32(stream[..4]), FromLe32(stream[4..8]);
      var s := stream[HEADER..];
      if size > capacity then Rejected
      else
        match DecodeFrom(TokensOf(StreamReader(s)), FirstDec(s), [], size, 0, Distances(1, 1, 1, 1))
        case Corrupt => Rejected
        case Read(out, d) =>
          if !CheckEnd(s, d) then Rejected
          else
            var data := Bcj.DecodeByGap(0, out, 5, 0);
            if Checksum(data) != checksum then Rejected else Unpacked(data)
  }

  // ---------------------------------------------------------------- packing

  /** The four words of the packer's array, as a queue. */
  function Queue(reps: array<nat>): Distances
    reads reps
    requires reps.Length == 4
  {
    Distances(reps[0], reps[1], reps[2], reps[3])
  }

  /** The place of a distance in the queue, by the packer's search. */
  method FindRep(reps: array<nat>, distance: nat) returns (rep: nat)
    requires reps.Length == 4
    ensures rep == RepIndex(Queue(reps), distance)
  {
    rep := 4;
    for i := 0 to 4
      invariant rep == 4 && forall k :: 0 <= k < i ==> reps[k] != distance
    {
      if distance == reps[i] {
        rep := i;
        break;
      }
    }
  }

  /** Shifts the queue up to the place the distance came from and puts it in front. */
  method MoveToFront(reps: array<nat>, matchRep: nat, distance: nat)
    requires reps.Length == 4 && matchRep <= 4
    modifies reps
    ensures Queue(reps) == ToFront(old(Queue(reps)), matchRep, distance)
  {
    var rep := if matchRep < 4 then matchRep else 3;
    var i: nat := rep;
    while i > 0
      invariant i <= rep
      invariant forall k :: 0 <= k < 4 ==> reps[k] == if 0 < k && i < k <= rep then old(reps[k - 1]) else old(reps[k])
    {
      reps[i] := reps[i - 1];
      i := i - 1;
    }
    reps[0] := distance;
  }

  method EncodeShortRep(rc: Encoder, state: nat)
    requires rc.Valid() && state < 12
    modifies rc, rc.probs
    ensures rc.Valid() && rc.trace == old(rc.trace) + ([Model(state * 16, 1)] + ShortRepEvents(state))
    ensures rc.header == old(rc.header) && (old(rc.error) ==> rc.error)
  {
    rc.EncodeBit(state * 16, 1);
    rc.EncodeBit(IS_REP + state, 1);
    rc.EncodeBit(REP_G0 + state, 0);
    rc.EncodeBit(REP_LONG + state * 16, 0);
  }

  method EncodeRep(rc: Encoder, rep: nat, state: nat)
    requires rc.Valid() && state < 12 && rep < 4
    modifies rc, rc.probs
    ensures rc.Valid() && rc.trace == old(rc.trace) + RepEvents(rep, state)
    ensures rc.header == old(rc.header) && (old(rc.error) ==> rc.error)
  {
    rc.EncodeBit(REP_G0 + state, if rep != 0 then 1 else 0);
    if rep == 0 {
      rc.EncodeBit(REP_LONG + state * 16, 1);
    } else {
      rc.EncodeBit(REP_G1 + state, if rep != 1 then 1 else 0);
      if rep >= 2 {
        rc.EncodeBit(REP_G2 + state, if rep == 3 then 1 else 0);
      }
    }
  }

  method EncodeMatch(rc: Encoder, c: Choice, rep: nat, state: nat, ghost reps: Distances)
    requires rc.Valid() && state < 12 && 2 <= c.length <= MAX_MATCH && 1 <= c.distance < 0x1_0000_0000
    requires rep == RepIndex(reps, c.distance)
    modifies rc, rc.probs
    ensures rc.Valid() && rc.trace == old(rc.trace) + ([Model(state * 16, 1)] + MatchEvents(c, state, reps))
    ensures rc.header == old(rc.header) && (old(rc.error) ==> rc.error)
  {
    rc.EncodeBit(state * 16, 1);
    rc.EncodeBit(IS_REP + state, if rep < 4 then 1 else 0);
    if rep < 4 {
      EncodeRep(rc, rep, state);
      EncodeLength(rc, REP_LENGTH, c.length);
      Group4(old(rc.trace), Model(state * 16, 1), Model(IS_REP + state, 1),
             RepEvents(rep, state), LengthEvents(REP_LENGTH, c.length));
    } else {
      EncodeLength(rc, LENGTH, c.length);
      EncodeDistance(rc, c.length, c.distance);
      Group4(old(rc.trace), Model(state * 16, 1), Model(IS_REP + state, 0),
             LengthEvents(LENGTH, c.length), DistanceEvents(c.length, c.distance));
    }
  }

  lemma Group4(a: seq<Event>, x: Event, y: Event, b: seq<Event>, c: seq<Event>)
    ensures a + [x] + [y] + b + c == a + ([x] + ([y] + (b + c)))
  {
  }

  /** One step of the packer: a literal, a one-byte repeat, or a match. */
  method EncodeToken(rc: Encoder, data: seq<Byte>, pos: nat, c: Choice, state: nat, reps: array<nat>)
    returns (state': nat, pos': nat)
    requires rc.Valid() && pos < |data| && Codable(data, pos, c)
    requires reps.Length == 4 && reps != rc.probs && Reachable(pos, state, Queue(reps))
    modifies rc, rc.probs, reps
    ensures rc.Valid() && pos' == pos + c.length
    ensures rc.trace == old(rc.trace) + TokenEvents(data, pos, c, state, old(Queue(reps)))
    ensures var t := TokenOf(data, pos, c, state, old(Queue(reps)));
            state' == NextState(t, state) && Queue(reps) == NextReps(t, old(Queue(reps)))
    ensures rc.header == old(rc.header) && (old(rc.error) ==> rc.error)
  {
    ghost var queue := Queue(reps);
    if c.length < 2 {
      if reps[0] <= pos && data[pos] == data[pos - reps[0]] {
        EncodeShortRep(rc, state);
        state' := if state < 7 then 9 else 11;
      } else {
        rc.EncodeBit(state * 16, 0);
        EncodeLiteral(rc, data, pos, state, reps[0]);
        Regroup2(old(rc.trace), [Model(state * 16, 0)], LiteralAt(data, pos, state, queue.r0));
        state' := if state < 4 then 0 else if state < 10 then state - 3 else state - 6;
      }
      pos' := pos + 1;
      return;
    }
    var rep := FindRep(reps, c.distance);
    EncodeMatch(rc, c, rep, state, queue);
    if rep < 4 {
      state' := if state < 7 then 8 else 11;
    } else {
      state' := if state < 7 then 7 else 10;
    }
    assert Queue(reps) == queue;
    MoveToFront(reps, rep, c.distance);
    pos' := pos + c.length;
  }

  /** Taking one step moves its decisions from those to come to those coded. */
  lemma StepMoves(data: seq<Byte>, choices: seq<Choice>, pos: nat, state: nat, reps: Distances, trace: seq<Event>,
                  pos': nat, state': nat, reps': Distances, trace': seq<Event>, all: seq<Event>)
    requires AllCodable(data, choices) && pos < |data| && Left(trace, data, choices, pos, state, reps, all)
    requires pos' == pos + choices[pos].length && trace' == trace + TokenEvents(data, pos, choices[pos], state, reps)
    requires var t := TokenOf(data, pos, choices[pos], state, reps);
             state' == NextState(t, state) && reps' == NextReps(t, reps)
    ensures Left(trace', data, choices, pos', state', reps', all)
  {
    StaysReachable(data, pos, choices[pos], state, reps);
    Regroup2(trace, TokenEvents(data, pos, choices[pos], state, reps), EventsFrom(data, choices, pos', state', reps'));
  }

  /** One turn of the main loop. */
  method EncodeNext(rc: Encoder, data: seq<Byte>, choices: seq<Choice>, pos: nat, state: nat, reps: array<nat>,
                    ghost all: seq<Event>)
    returns (state': nat, pos': nat)
    requires rc.Valid() && AllCodable(data, choices) && reps.Length == 4 && reps != rc.probs && pos < |data|
    requires Left(rc.trace, data, choices, pos, state, Queue(reps), all)
    modifies rc, rc.probs, reps
    ensures rc.Valid() && pos < pos' && Left(rc.trace, data, choices, pos', state', Queue(reps), all)
    ensures rc.header == old(rc.header) && (old(rc.error) ==> rc.error)
  {
    ghost var trace, queue := rc.trace, Queue(reps);
    state', pos' := EncodeToken(rc, data, pos, choices[pos], state, reps);
    StepMoves(data, choices, pos, state, queue, trace, pos', state', Queue(reps), rc.trace, all);
  }

  /** The packer's main loop, which stops early only when the output can no longer grow. */
  method EncodeAll(rc: Encoder, data: seq<Byte>, choices: seq<Choice>)
    requires rc.Valid() && rc.trace == [] && AllCodable(data, choices)
    modifies rc, rc.probs
    ensures rc.Valid() && rc.header == old(rc.header) && (old(rc.error) ==> rc.error)
    ensures Coded(rc.trace, data, choices) && (rc.error || rc.trace == EventsFrom(data, choices, 0, 0, FIRST_REPS))
  {
    var state := 0;
    var reps := new nat[4](_ => 1);
    assert Queue(reps) == FIRST_REPS;
    var pos := 0;
    ghost var all := EventsFrom(data, choices, 0, 0, FIRST_REPS);
    assert [] + all == all;
    while pos < |data| && !rc.error
      invariant rc.Valid() && reps.Length == 4 && reps != rc.probs
      invariant Left(rc.trace, data, choices, pos, state, Queue(reps), all)
      invariant rc.header == old(rc.header) && (old(rc.error) ==> rc.error)
      decreases |data| - pos
    {
      state, pos := EncodeNext(rc, data, choices, pos, state, reps, all);
    }
    CodedSoFar(rc.trace, data, choices, pos, state, Queue(reps), all);
  }

  /** The decisions are the first of those the parse calls for. */
  ghost predicate Coded(trace: seq<Event>, data: seq<Byte>, choices: seq<Choice>)
    requires AllCodable(data, choices)
  {
    trace <= EventsFrom(data, choices, 0, 0, FIRST_REPS)
  }

  /** The decisions coded so far and those still to come make up all of them. */
  ghost predicate Left(trace: seq<Event>, data: seq<Byte>, choices: seq<Choice>, pos: nat, state: nat, reps: Distances,
                       all: seq<Event>)
    requires AllCodable(data, choices)
  {
    && pos <= |data| && Reachable(pos, state, reps)
    && trace + EventsFrom(data, choices, pos, state, reps) == all
  }

  lemma CodedSoFar(trace: seq<Event>, data: seq<Byte>, choices: seq<Choice>, pos: nat, state: nat, reps: Distances,
                   all: seq<Event>)
    requires AllCodable(data, choices) && Left(trace, data, choices, pos, state, reps, all)
    ensures trace <= all && (pos == |data| ==> trace == all)
  {
    if pos == |data| {
      assert trace + [] == trace;
    }
  }

  // ---------------------------------------------------------------- why it comes back

  /** The payload s is the number that the decisions evs narrow the interval down to, in full. */
  ghost predicate Spelling(s: seq<Byte>, evs: seq<Event>) {
    EventsOk(evs) && var c := Run(START, evs); |s| == c.shifts + 5 && Num(s) == c.low
  }

  /** A payload that spells the interval of a whole run is read back from its first byte on. */
  lemma PayloadHolds(s: seq<Byte>, evs: seq<Event>)
    requires Spelling(s, evs)
    ensures |s| >= 5 && s[0] == 0 && Holds(s, FirstDec(s), evs)
  {
    assert s[..|s|] == s;
    ContainsBeforeRun(START, evs, s);
    LeadingZero(s);
    NumBound(s[1..5]);
    assert Pow256(4) == 0x1_0000_0000;
    assert Pending(s, START, FirstDec(s), evs);
  }

  lemma LeadingZero(s: seq<Byte>)
    requires |s| >= 5 && Num(s[..5]) < 0xffff_ffff
    ensures s[0] == 0 && Num(s[1..5]) == Num(s[..5])
  {
    NumAppend([s[0]], s[1..5]);
    assert [s[0]] + s[1..5] == s[..5];
    assert Pow256(4) == 0x1_0000_0000;
    NumSnoc([], s[0]);
    assert [] + [s[0]] == [s[0]];
  }

  lemma PayloadEnds(s: seq<Byte>, d: Dec)
    requires Holds(s, d, [])
    ensures CheckEnd(s, d)
  {
    ReadsEnd(s, d);
  }

  /** The payload of a whole run decodes to the data the run was made from, and ends where it should. */
  lemma PayloadRuns(s: seq<Byte>, data: seq<Byte>, choices: seq<Choice>)
    requires AllCodable(data, choices) && |s| >= 5
    requires Holds(s, FirstDec(s), EventsFrom(data, choices, 0, 0, FIRST_REPS))
    ensures var r := DecodeFrom(TokensOf(StreamReader(s)), FirstDec(s), [], |data|, 0, FIRST_REPS);
            r.Read? && r.value == data && CheckEnd(s, r.next)
  {
    StreamDelivers(s);
    TokensHandOut(StreamReader(s), Remaining(s));
    RunReads(TokensOf(StreamReader(s)), Remaining(s), FirstDec(s), data, choices, 0, 0, FIRST_REPS);
    assert data[..0] == [];
    PayloadEnds(s, DecodeFrom(TokensOf(StreamReader(s)), FirstDec(s), [], |data|, 0, FIRST_REPS).next);
  }

  ghost predicate Decodes(s: seq<Byte>, data: seq<Byte>) {
    && |s| >= 5 && s[0] == 0
    && var r := DecodeFrom(TokensOf(StreamReader(s)), FirstDec(s), [], |data|, 0, FIRST_REPS);
    r.Read? && r.value == data && CheckEnd(s, r.next)
  }

  lemma PayloadDecodes(s: seq<Byte>, data: seq<Byte>, choices: seq<Choice>, evs: seq<Event>)
    requires AllCodable(data, choices) && evs == EventsFrom(data, choices, 0, 0, FIRST_REPS) && Spelling(s, evs)
    ensures Decodes(s, data)
  {
    PayloadHolds(s, evs);
    PayloadRuns(s, data, choices);
  }

  lemma HeaderReads(stream: seq<Byte>, a: nat, b: nat)
    requires a < 0x1_0000_0000 && b < 0x1_0000_0000 && |stream| >= 8 && stream[..8] == Le32(a) + Le32(b)
    ensures FromLe32(stream[..4]) == a && FromLe32(stream[4..8]) == b
  {
    Le32Reads(a);
    Le32Reads(b);
    assert stream[..4] == stream[..8][..4] == Le32(a);
    assert stream[4..8] == stream[..8][4..] == Le32(b);
  }

  /** Header and payload together unpack to the data that was filtered, parsed and coded. */
  lemma StreamUnpacks(stream: seq<Byte>, plain: seq<Byte>, capacity: nat)
    requires |plain| < 0x1_0000_0000 && |plain| <= capacity && |stream| >= 8
    requires stream[..8] == Le32(Checksum(plain)) + Le32(|plain|)
    requires Decodes(stream[8..], Bcj.Encode(0, plain, 0))
    ensures Unpack(stream, capacity) == Unpacked(plain)
  {
    HeaderReads(stream, Checksum(plain), |plain|);
    Bcj.FilterRoundTrip(plain);
    assert stream[8..][0] == stream[8];
  }

  /** Whatever the parse admits, the coder can code. */
  lemma AdmissibleCodable(data: seq<Byte>, choices: seq<Choice>)
    requires AllAdmissible(data, choices) && |data| < 0x1_0000_0000
    ensures AllCodable(data, choices)
  {
    forall p | 0 <= p < |data| ensures Codable(data, p, choices[p]) {
      AdmissibleIsMatch(data, p, choices[p]);
    }
  }

  /** The bytes put so far are a header and a finished payload for plain: they unpack to it. */
  lemma WrittenUnpacks(written: seq<Byte>, plain: seq<Byte>, choices: seq<Choice>, evs: seq<Event>)
    requires |plain| < 0x1_0000_0000 && AllAdmissible(Bcj.Encode(0, plain, 0), choices)
    requires AllCodable(Bcj.Encode(0, plain, 0), choices)
    requires evs == EventsFrom(Bcj.Encode(0, plain, 0), choices, 0, 0, FIRST_REPS)
    requires |written| >= 8 && written[..8] == Le32(Checksum(plain)) + Le32(|plain|) && Spelling(written[8..], evs)
    ensures forall capacity: nat :: |plain| <= capacity ==> Unpack(written, capacity) == Unpacked(plain)
  {
    PayloadDecodes(written[8..], Bcj.Encode(0, plain, 0), choices, evs);
    forall capacity: nat | |plain| <= capacity ensures Unpack(written, capacity) == Unpacked(plain) {
      StreamUnpacks(written, plain, capacity);
    }
  }

  /** The bytes a run of decisions comes to: the header, and the payload with its five closing bytes. */
  ghost function PackedSize(evs: seq<Event>): nat
    requires EventsOk(evs)
  {
    HEADER + Run(START, evs).shifts + 5
  }

  /** What does not fit yet will not fit when more is coded. */
  lemma PackedSizeGrows(coded: seq<Event>, more: seq<Event>)
    requires EventsOk(coded + more)
    ensures EventsOk(coded) && PackedSize(coded) <= PackedSize(coded + more)
  {
    assert coded == (coded + more)[..|coded|] && more == (coded + more)[|coded|..];
    RunAppend(START, coded, more);
    ShiftsGrow(Run(START, coded), more);
  }

  /** What has been coded of a run takes no more room than the whole of it. */
  lemma CodedFits(data: seq<Byte>, choices: seq<Choice>, trace: seq<Event>)
    requires AllCodable(data, choices) && Coded(trace, data, choices)
    ensures var evs := EventsFrom(data, choices, 0, 0, FIRST_REPS);
            EventsOk(trace) && EventsOk(evs) && PackedSize(trace) <= PackedSize(evs)
  {
    var evs := EventsFrom(data, choices, 0, 0, FIRST_REPS);
    Decisions.RunOk(data, choices, 0, 0, FIRST_REPS);
    assert evs == trace + evs[|trace|..];
    PackedSizeGrows(trace, evs[|trace|..]);
  }

  lemma {:induction false} ShiftsGrow(c: Coder, evs: seq<Event>)
    requires IntervalCoder.Valid(c) && EventsOk(evs)
    ensures c.shifts <= Run(c, evs).shifts
    decreases |evs|
  {
    if evs != [] {
      ShiftsGrow(Step(c, evs[0]), evs[1..]);
    }
  }

  /**
   * The packer. It gives up exactly when the decisions of the whole parse do not fit the room there is; otherwise the
   * decompressor accepts the stream at any capacity the data fits in, and gives back exactly the bytes that went in.
   * The parse it codes is a cheapest one of the filtered data, and takes no more decisions than its price.
   */
  method Compress(rc: Encoder, data: array<Byte>) returns (ok: bool, ghost parse: seq<Choice>)
    requires rc.Stored() && !rc.error && rc.written == [] && rc.low == 0 && rc.cache == 0 && rc.probs.Length == PROBS
    requires data.Length < 0x1_0000_0000
    modifies rc, rc.probs, data
    ensures data[..] == Bcj.Encode(0, old(data[..]), 0) && Optimal(data[..], parse) && AllCodable(data[..], parse)
    ensures var evs := EventsFrom(data[..], parse, 0, 0, FIRST_REPS);
            && EventsOk(evs) && (ok <==> PackedSize(evs) <= rc.limit) && (ok ==> |rc.data| == PackedSize(evs))
            && |evs| <= TotalPrice(Follow(parse, 0))
    ensures ok ==> forall capacity: nat :: data.Length <= capacity ==>
                     Unpack(rc.data, capacity) == Unpacked(old(data[..]))
  {
    ghost var plain := data[..];
    var checksum := ComputeChecksum(data);
    Bcj.EncodeInPlace(data);
    var filtered := data[..];
    var mf := new MatchFinder(filtered);
    var choices := mf.Parse();
    parse := choices[..];
    AdmissibleCodable(filtered, parse);
    ok := Emit(rc, filtered, choices[..], checksum);
    CodedFits(filtered, parse, rc.trace);
    Decisions.RunPrice(filtered, parse, 0, 0, FIRST_REPS);
    if ok {
      WrittenUnpacks(rc.written, plain, choices[..], rc.trace);
    }
  }

  method PutHeader(rc: Encoder, checksum: nat, size: nat)
    requires rc.Stored() && rc.written == [] && checksum < 0x1_0000_0000 && size < 0x1_0000_0000
    modifies rc`data, rc`error, rc`written
    ensures rc.Stored() && rc.written == Le32(checksum) + Le32(size)
  {
    rc.Put32(checksum);
    rc.Put32(size);
  }

  /** Header, tokens and flush. */
  method Emit(rc: Encoder, data: seq<Byte>, choices: seq<Choice>, checksum: nat) returns (ok: bool)
    requires rc.Stored() && !rc.error && rc.written == [] && rc.low == 0 && rc.cache == 0 && rc.probs.Length == PROBS
    requires |data| < 0x1_0000_0000 && checksum < 0x1_0000_0000 && AllCodable(data, choices)
    modifies rc, rc.probs
    ensures ok <==> |rc.written| <= rc.limit
    ensures ok ==> rc.data == rc.written
    ensures Coded(rc.trace, data, choices) && EventsOk(rc.trace)
    ensures ok ==> rc.trace == EventsFrom(data, choices, 0, 0, FIRST_REPS)
    ensures |rc.written| == PackedSize(rc.trace) && rc.written[..8] == Le32(checksum) + Le32(|data|)
    ensures Spelling(rc.written[8..], rc.trace)
  {
    PutHeader(rc, checksum, |data|);
    rc.Begin();
    EncodeAll(rc, data, choices);
    Close(rc);
    ok := !rc.error;
  }

  /** The five closing bytes. */
  method Close(rc: Encoder)
    requires rc.Valid() && |rc.header| == 8
    modifies rc`data, rc`error, rc`written, rc`pending, rc`cache, rc`low
    ensures rc.Stored() && EventsOk(rc.trace) && (old(rc.error) ==> rc.error)
    ensures |rc.written| == PackedSize(rc.trace) && rc.written[..8] == rc.header && Spelling(rc.written[8..], rc.trace)
  {
    rc.Flush();
  }
}
