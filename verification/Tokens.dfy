/**
 * Literals, repeats and matches: the twelve-state machine and the queue of four recent distances that
 * the packer and the decompressor step through together.
 */
module Tokens {
  import opened Numeral
  import opened IntervalCoder
  import opened Codebook
  import opened SyntaxDecoder
  import opened OptimalParse

  /** The four most recent distances, newest first. */
  datatype Distances = Distances(r0: nat, r1: nat, r2: nat, r3: nat) {

    function At(i: nat): nat
      requires i < 4
    {
      if i == 0 then r0 else if i == 1 then r1 else if i == 2 then r2 else r3
    }
  }

  /** The length of a copy, which no stream makes zero. */
  type Span = n: nat | n >= 1 witness 1

  /** One decoded step: a byte, or a copy from the distance at the head of the queue. */
  datatype Token = Literal(byte: Byte) | Copy(length: Span, reps: Distances, state: nat)

  function AfterLiteral(state: nat): nat {
    if state < 4 then 0 else if state < 10 then state - 3 else state - 6
  }

  function AfterMatch(state: nat): nat {
    if state < 7 then 7 else 10
  }

  function AfterRep(state: nat): nat {
    if state < 7 then 8 else 11
  }

  function AfterShortRep(state: nat): nat {
    if state < 7 then 9 else 11
  }

  /** Where a distance stands in the queue, four if nowhere. */
  function RepIndex(reps: Distances, distance: nat): (r: nat)
    ensures r <= 4 && (r < 4 ==> reps.At(r) == distance)
  {
    if reps.r0 == distance then 0 else if reps.r1 == distance then 1
    else if reps.r2 == distance then 2 else if reps.r3 == distance then 3 else 4
  }

  /** The queue with a distance moved, or pushed, to the front. */
  function ToFront(reps: Distances, rep: nat, distance: nat): Distances
    requires rep <= 4
  {
    if rep == 0 then Distances(distance, reps.r1, reps.r2, reps.r3)
    else if rep == 1 then Distances(distance, reps.r0, reps.r2, reps.r3)
    else if rep == 2 then Distances(distance, reps.r0, reps.r1, reps.r3)
    else Distances(distance, reps.r0, reps.r1, reps.r2)
  }

  /** What packer and decompressor both keep: literals after a match can look back by the first distance. */
  predicate Reachable(pos: nat, state: nat, reps: Distances) {
    && state < 12 && (state >= 7 ==> reps.r0 <= pos)
    && 1 <= reps.r0 < 0x1_0000_0000 && 1 <= reps.r1 < 0x1_0000_0000
    && 1 <= reps.r2 < 0x1_0000_0000 && 1 <= reps.r3 < 0x1_0000_0000
  }

  // ---------------------------------------------------------------- the packer's side

  predicate IsShortRep(data: seq<Byte>, pos: nat, reps: Distances)
    requires pos < |data|
  {
    1 <= reps.r0 <= pos && data[pos] == data[pos - reps.r0]
  }

  /** The decisions that name a place in the queue. */
  function RepEvents(rep: nat, state: nat): seq<Event>
    requires rep < 4
  {
    if rep == 0 then [Model(REP_G0 + state, 0)] + [Model(REP_LONG + state * 16, 1)]
    else if rep == 1 then [Model(REP_G0 + state, 1)] + [Model(REP_G1 + state, 0)]
    else [Model(REP_G0 + state, 1)] + ([Model(REP_G1 + state, 1)] + [Model(REP_G2 + state, if rep == 3 then 1 else 0)])
  }

  /** A choice the parse can hand to the coder at pos. */
  predicate Codable(data: seq<Byte>, pos: nat, c: Choice) {
    && 1 <= c.length <= MAX_MATCH && pos + c.length <= |data| && (c.length >= 2 <==> c.distance != 0)
    && c.distance <= pos && c.distance < 0x1_0000_0000
    && (c.distance != 0 ==> forall k :: pos <= k < pos + c.length ==> Repeats(data, k, c.distance))
  }

  function MatchEvents(c: Choice, state: nat, reps: Distances): seq<Event>
    requires 2 <= c.length <= MAX_MATCH && 1 <= c.distance < 0x1_0000_0000
  {
    var rep := RepIndex(reps, c.distance);
    if rep < 4 then [Model(IS_REP + state, 1)] + (RepEvents(rep, state) + LengthEvents(REP_LENGTH, c.length))
    else [Model(IS_REP + state, 0)] + (LengthEvents(LENGTH, c.length) + DistanceEvents(c.length, c.distance))
  }

  function ShortRepEvents(state: nat): seq<Event> {
    [Model(IS_REP + state, 1)] + ([Model(REP_G0 + state, 0)] + [Model(REP_LONG + state * 16, 0)])
  }

  /** Every decision of one step of the packer. */
  function TokenEvents(data: seq<Byte>, pos: nat, c: Choice, state: nat, reps: Distances): seq<Event>
    requires pos < |data| && Codable(data, pos, c) && Reachable(pos, state, reps)
  {
    if c.length >= 2 then [Model(state * 16, 1)] + MatchEvents(c, state, reps)
    else if IsShortRep(data, pos, reps) then [Model(state * 16, 1)] + ShortRepEvents(state)
    else [Model(state * 16, 0)] + LiteralAt(data, pos, state, reps.r0)
  }

  /** The step those decisions describe. */
  function TokenOf(data: seq<Byte>, pos: nat, c: Choice, state: nat, reps: Distances): Token
    requires pos < |data| && Codable(data, pos, c) && Reachable(pos, state, reps)
  {
    if c.length >= 2 then
      var rep := RepIndex(reps, c.distance);
      Copy(c.length, ToFront(reps, rep, c.distance), if rep < 4 then AfterRep(state) else AfterMatch(state))
    else if IsShortRep(data, pos, reps) then Copy(1, reps, AfterShortRep(state))
    else Literal(data[pos])
  }

  function NextState(t: Token, state: nat): nat {
    if t.Literal? then AfterLiteral(state) else t.state
  }

  function NextReps(t: Token, reps: Distances): Distances {
    if t.Literal? then reps else t.reps
  }

  /** The state stays below twelve, and a state that predicts literals has a first distance within reach. */
  lemma StaysReachable(data: seq<Byte>, pos: nat, c: Choice, state: nat, reps: Distances)
    requires pos < |data| && Codable(data, pos, c) && Reachable(pos, state, reps)
    ensures var t := TokenOf(data, pos, c, state, reps);
            Reachable(pos + c.length, NextState(t, state), NextReps(t, reps))
  {
  }

  // ---------------------------------------------------------------- the decompressor's side

  /** Its state after a literal: three less, and three less again if that is still seven or more. */
  function LiteralState(state: nat): (s: nat)
    ensures state < 12 ==> s == AfterLiteral(state)
  {
    var less := if state < 3 then 0 else state - 3;
    if less < 7 then less else less - 3
  }

  /** Its state once a literal is ruled out: three if the last step was a copy. */
  function CopyBase(state: nat): bv8 { if state < 7 then 0 else 3 }

  function MatchState(state: nat): (s: nat)
    ensures s == AfterMatch(state)
  {
    CopyBase(state) as nat + 7
  }

  function RepState(state: nat): (s: nat)
    ensures s == AfterRep(state)
  {
    (CopyBase(state) | 8) as nat
  }

  function ShortRepState(state: nat): (s: nat)
    ensures s == AfterShortRep(state)
  {
    (CopyBase(state) | 9) as nat
  }

  function ReadRep<D>(rd: Reader<D>, d: D, state: nat, reps: Distances): Read<D, Token> {
    match rd.bit(d, DEC_REP_G0 + state)
    case Corrupt => Corrupt
    case Read(b0, n0) =>
      if b0 == 0 then
        match rd.bit(n0, DEC_REP_LONG + state * 16)
        case Corrupt => Corrupt
        case Read(b, n) =>
          if b == 0 then Read(Copy(1, reps, ShortRepState(state)), n)
          else ReadRepLength(rd, n, state, reps)
      else
        match rd.bit(n0, DEC_REP_G1 + state)
        case Corrupt => Corrupt
        case Read(b1, n1) =>
          if b1 == 0 then ReadRepLength(rd, n1, state, Distances(reps.r1, reps.r0, reps.r2, reps.r3))
          else
            match rd.bit(n1, DEC_REP_G2 + state)
            case Corrupt => Corrupt
            case Read(b2, n2) =>
              if b2 == 0 then ReadRepLength(rd, n2, state, Distances(reps.r2, reps.r0, reps.r1, reps.r3))
              else ReadRepLength(rd, n2, state, Distances(reps.r3, reps.r0, reps.r1, reps.r2))
  }

  function ReadRepLength<D>(rd: Reader<D>, d: D, state: nat, reps: Distances): Read<D, Token> {
    match ReadLength(rd, d, DEC_REP_LENGTH)
    case Corrupt => Corrupt
    case Read(length, n) => Read(Copy(length, reps, RepState(state)), n)
  }

  function ReadMatch<D>(rd: Reader<D>, d: D, state: nat, reps: Distances): Read<D, Token> {
    match ReadLength(rd, d, DEC_LENGTH)
    case Corrupt => Corrupt
    case Read(length, n) =>
      match ReadDistance(rd, n, length)
      case Corrupt => Corrupt
      case Read(distance, m) => Read(Copy(length, Distances(distance, reps.r0, reps.r1, reps.r2), MatchState(state)), m)
  }

  function ReadToken<D>(rd: Reader<D>, d: D, out: seq<Byte>, state: nat, reps: Distances): Read<D, Token>
    requires state >= 7 ==> 1 <= reps.r0 <= |out|
  {
    match rd.bit(d, state * 16)
    case Corrupt => Corrupt
    case Read(b, n) =>
      if b == 0 then
        match ReadLiteralAfter(rd, n, out, state, reps.r0)
        case Corrupt => Corrupt
        case Read(byte, m) => Read(Literal(byte), m)
      else
        ReadCopy(rd, n, state, reps)
  }

  /** Byte by byte, so that a copy may run into its own output. */
  function CopyBytes(out: seq<Byte>, distance: nat, length: nat): (r: seq<Byte>)
    requires 1 <= distance <= |out|
    decreases length
  {
    if length == 0 then out else CopyBytes(out + [out[|out| - distance]], distance, length - 1)
  }

  /** What a step appends; none if it reaches before the output or runs past its end. */
  datatype Output = Overrun | Output(out: seq<Byte>)

  function Perform(t: Token, out: seq<Byte>, size: nat): (r: Output)
    requires |out| <= size
  {
    match t
    case Literal(byte) => if |out| < size then Output(out + [byte]) else Overrun
    case Copy(length, reps, _) =>
      if reps.r0 > |out| || reps.r0 == 0 || length > size - |out| then Overrun
      else Output(CopyBytes(out, reps.r0, length))
  }

  /** Copying from a distance the data repeats at continues the data. */
  lemma {:induction false} CopyContinues(data: seq<Byte>, pos: nat, distance: nat, length: nat)
    requires 1 <= distance <= pos && pos + length <= |data|
    requires forall k :: pos <= k < pos + length ==> Repeats(data, k, distance)
    ensures CopyBytes(data[..pos], distance, length) == data[..pos + length]
    decreases length
  {
    if length > 0 {
      assert Repeats(data, pos, distance);
      assert data[..pos] + [data[..pos][pos - distance]] == data[..pos + 1];
      CopyContinues(data, pos + 1, distance, length - 1);
    }
  }

  /** Performing the packer's step extends the output by exactly the bytes that step stands for. */
  lemma PerformExtends(data: seq<Byte>, pos: nat, c: Choice, state: nat, reps: Distances)
    requires pos < |data| && Codable(data, pos, c) && Reachable(pos, state, reps)
    ensures Perform(TokenOf(data, pos, c, state, reps), data[..pos], |data|) == Output(data[..pos + c.length])
  {
    if c.length >= 2 {
      CopyContinues(data, pos, c.distance, c.length);
    } else if IsShortRep(data, pos, reps) {
      assert Repeats(data, pos, reps.r0);
      CopyContinues(data, pos, reps.r0, 1);
    } else {
      assert data[..pos] + [data[pos]] == data[..pos + 1];
    }
  }

  // ---------------------------------------------------------------- reading back what was written

  lemma RepLengthReads<D(!new)>(rd: Reader<D>, holds: (D, seq<Event>) -> bool, d: D, length: nat,
                                state: nat, reps: Distances, rest: seq<Event>)
    requires Delivers(rd, holds) && 2 <= length <= MAX_MATCH && holds(d, LengthEvents(REP_LENGTH, length) + rest)
    ensures Gives(ReadRepLength(rd, d, state, reps), Copy(length, reps, AfterRep(state)), holds, rest)
  {
    LengthReads(rd, holds, d, REP_LENGTH, length, rest);
  }

  lemma RepReads<D(!new)>(rd: Reader<D>, holds: (D, seq<Event>) -> bool, d: D, rep: nat, length: nat,
                          state: nat, reps: Distances, rest: seq<Event>)
    requires Delivers(rd, holds) && rep < 4 && 2 <= length <= MAX_MATCH
    requires holds(d, RepEvents(rep, state) + (LengthEvents(REP_LENGTH, length) + rest))
    ensures Gives(ReadRep(rd, d, state, reps), Copy(length, ToFront(reps, rep, reps.At(rep)), AfterRep(state)), holds,
                  rest)
  {
    var tail := LengthEvents(REP_LENGTH, length) + rest;
    var g0 := rd.bit(d, REP_G0 + state);
    if rep == 0 {
      var long := [Model(REP_LONG + state * 16, 1)];
      Shift1(Model(REP_G0 + state, 0), long, tail);
      assert Gives(g0, 0, holds, long + tail);
      var l := rd.bit(g0.next, REP_LONG + state * 16);
      assert Gives(l, 1, holds, tail);
      RepLengthReads(rd, holds, l.next, length, state, reps, rest);
      assert ToFront(reps, 0, reps.r0) == reps;
    } else if rep == 1 {
      var one := [Model(REP_G1 + state, 0)];
      Shift1(Model(REP_G0 + state, 1), one, tail);
      assert Gives(g0, 1, holds, one + tail);
      var g1 := rd.bit(g0.next, REP_G1 + state);
      assert Gives(g1, 0, holds, tail);
      RepLengthReads(rd, holds, g1.next, length, state, ToFront(reps, 1, reps.r1), rest);
    } else {
      var b: Bit := if rep == 3 then 1 else 0;
      var two := [Model(REP_G2 + state, b)];
      Shift1(Model(REP_G0 + state, 1), [Model(REP_G1 + state, 1)] + two, tail);
      Shift1(Model(REP_G1 + state, 1), two, tail);
      assert Gives(g0, 1, holds, [Model(REP_G1 + state, 1)] + (two + tail));
      var g1 := rd.bit(g0.next, REP_G1 + state);
      assert Gives(g1, 1, holds, two + tail);
      var g2 := rd.bit(g1.next, REP_G2 + state);
      assert Gives(g2, b, holds, tail);
      RepLengthReads(rd, holds, g2.next, length, state, ToFront(reps, rep, reps.At(rep)), rest);
    }
  }

  lemma ShortRepReads<D(!new)>(rd: Reader<D>, holds: (D, seq<Event>) -> bool, d: D,
                               state: nat, reps: Distances, rest: seq<Event>)
    requires Delivers(rd, holds)
    requires holds(d, [Model(REP_G0 + state, 0)] + [Model(REP_LONG + state * 16, 0)] + rest)
    ensures Gives(ReadRep(rd, d, state, reps), Copy(1, reps, AfterShortRep(state)), holds, rest)
  {
    var short := [Model(REP_LONG + state * 16, 0)];
    Shift1(Model(REP_G0 + state, 0), short, rest);
    var g0 := rd.bit(d, REP_G0 + state);
    assert Gives(g0, 0, holds, short + rest);
    assert Gives(rd.bit(g0.next, REP_LONG + state * 16), 0, holds, rest);
  }

  lemma NewMatchReads<D(!new)>(rd: Reader<D>, holds: (D, seq<Event>) -> bool, d: D, c: Choice,
                               state: nat, reps: Distances, rest: seq<Event>)
    requires Delivers(rd, holds) && 2 <= c.length <= MAX_MATCH && 1 <= c.distance < 0x1_0000_0000
    requires holds(d, LengthEvents(LENGTH, c.length) + DistanceEvents(c.length, c.distance) + rest)
    ensures Gives(ReadMatch(rd, d, state, reps), Copy(c.length, ToFront(reps, 4, c.distance), AfterMatch(state)),
                  holds, rest)
  {
    Regroup2(LengthEvents(LENGTH, c.length), DistanceEvents(c.length, c.distance), rest);
    LengthReads(rd, holds, d, LENGTH, c.length, DistanceEvents(c.length, c.distance) + rest);
    DistanceReads(rd, holds, ReadLength(rd, d, LENGTH).next, c.length, c.distance, rest);
  }

  /** After the flag that says "not a literal": which kind of copy. */
  function ReadCopy<D>(rd: Reader<D>, d: D, state: nat, reps: Distances): Read<D, Token> {
    match rd.bit(d, DEC_IS_REP + state)
    case Corrupt => Corrupt
    case Read(r, m) => if r == 0 then ReadMatch(rd, m, state, reps) else ReadRep(rd, m, state, reps)
  }

  lemma MatchReads<D(!new)>(rd: Reader<D>, holds: (D, seq<Event>) -> bool, d: D, c: Choice,
                            state: nat, reps: Distances, rest: seq<Event>)
    requires Delivers(rd, holds) && 2 <= c.length <= MAX_MATCH && 1 <= c.distance < 0x1_0000_0000
    requires holds(d, MatchEvents(c, state, reps) + rest)
    ensures var rep := RepIndex(reps, c.distance);
            Gives(ReadCopy(rd, d, state, reps),
                  Copy(c.length, ToFront(reps, rep, c.distance),
                       if rep < 4 then AfterRep(state) else AfterMatch(state)),
                  holds, rest)
  {
    var rep := RepIndex(reps, c.distance);
    var n := rd.bit(d, IS_REP + state);
    if rep < 4 {
      var tail := RepEvents(rep, state) + LengthEvents(REP_LENGTH, c.length);
      Shift1(Model(IS_REP + state, 1), tail, rest);
      assert Gives(n, 1, holds, tail + rest);
      Regroup2(RepEvents(rep, state), LengthEvents(REP_LENGTH, c.length), rest);
      RepReads(rd, holds, n.next, rep, c.length, state, reps, rest);
    } else {
      var tail := LengthEvents(LENGTH, c.length) + DistanceEvents(c.length, c.distance);
      Shift1(Model(IS_REP + state, 0), tail, rest);
      assert Gives(n, 0, holds, tail + rest);
      NewMatchReads(rd, holds, n.next, c, state, reps, rest);
    }
  }

  lemma ShortReads<D(!new)>(rd: Reader<D>, holds: (D, seq<Event>) -> bool, d: D,
                            state: nat, reps: Distances, rest: seq<Event>)
    requires Delivers(rd, holds) && holds(d, ShortRepEvents(state) + rest)
    ensures Gives(ReadCopy(rd, d, state, reps), Copy(1, reps, AfterShortRep(state)), holds, rest)
  {
    var tail := [Model(REP_G0 + state, 0)] + [Model(REP_LONG + state * 16, 0)];
    Shift1(Model(IS_REP + state, 1), tail, rest);
    assert Gives(rd.bit(d, IS_REP + state), 1, holds, tail + rest);
    ShortRepReads(rd, holds, rd.bit(d, IS_REP + state).next, state, reps, rest);
  }

  /** One step: the decompressor reads the token the packer wrote. */
  lemma TokenReads<D(!new)>(rd: Reader<D>, holds: (D, seq<Event>) -> bool, d: D, data: seq<Byte>, pos: nat,
                            c: Choice, state: nat, reps: Distances, rest: seq<Event>)
    requires Delivers(rd, holds) && pos < |data| && Codable(data, pos, c) && Reachable(pos, state, reps)
    requires holds(d, TokenEvents(data, pos, c, state, reps) + rest)
    ensures Gives(ReadToken(rd, d, data[..pos], state, reps), TokenOf(data, pos, c, state, reps), holds, rest)
  {
    var n := rd.bit(d, state * 16);
    if c.length >= 2 {
      var tail := MatchEvents(c, state, reps);
      Shift1(Model(state * 16, 1), tail, rest);
      assert Gives(n, 1, holds, tail + rest);
      MatchReads(rd, holds, n.next, c, state, reps, rest);
    } else if IsShortRep(data, pos, reps) {
      var tail := ShortRepEvents(state);
      Shift1(Model(state * 16, 1), tail, rest);
      assert Gives(n, 1, holds, tail + rest);
      ShortReads(rd, holds, n.next, state, reps, rest);
    } else {
      var tail := LiteralAt(data, pos, state, reps.r0);
      Shift1(Model(state * 16, 0), tail, rest);
      assert Gives(n, 0, holds, tail + rest);
      LiteralAtReads(rd, holds, n.next, data, pos, state, reps.r0, rest);
    }
  }

  // ---------------------------------------------------------------- whole runs

  predicate AllCodable(data: seq<Byte>, choices: seq<Choice>) {
    |choices| == |data| && forall p :: 0 <= p < |data| ==> Codable(data, p, choices[p])
  }

  /** Every decision the packer codes from pos on. */
  function EventsFrom(data: seq<Byte>, choices: seq<Choice>, pos: nat, state: nat, reps: Distances): seq<Event>
    requires AllCodable(data, choices) && pos <= |data| && Reachable(pos, state, reps)
    decreases |data| - pos
  {
    if pos == |data| then []
    else
      var c := choices[pos];
      var t := TokenOf(data, pos, c, state, reps);
      StaysReachable(data, pos, c, state, reps);
      TokenEvents(data, pos, c, state, reps)
      + EventsFrom(data, choices, pos + c.length, NextState(t, state), NextReps(t, reps))
  }

  /** How whole tokens are read, given the bytes already out. */
  type TokenReader<!D> = (D, seq<Byte>, nat, Distances) -> Read<D, Token>

  function TokensOf<D>(rd: Reader<D>): TokenReader<D> {
    (d: D, out: seq<Byte>, state: nat, reps: Distances) =>
      if state >= 7 ==> 1 <= reps.r0 <= |out| then ReadToken(rd, d, out, state, reps) else Corrupt
  }

  /** The decompressor's main loop: tokens until the output has the size the header gave. */
  function DecodeFrom<D>(read: TokenReader<D>, d: D, out: seq<Byte>, size: nat, state: nat,
                         reps: Distances): (r: Read<D, seq<Byte>>)
    requires |out| <= size
    ensures r.Read? ==> |r.value| == size
    decreases size - |out|
  {
    if |out| == size then Read(out, d)
    else
      match read(d, out, state, reps)
      case Corrupt => Corrupt
      case Read(t, n) =>
        match Perform(t, out, size)
        case Overrun => Corrupt
        case Output(out') =>
          PerformMoves(t, out, size);
          if t.Literal? then DecodeFrom(read, n, out', size, LiteralState(state), reps)
          else DecodeFrom(read, n, out', size, t.state, t.reps)
  }

  lemma {:induction false} CopyGrows(out: seq<Byte>, distance: nat, length: nat)
    requires 1 <= distance <= |out|
    ensures |CopyBytes(out, distance, length)| == |out| + length
    decreases length
  {
    if length > 0 {
      CopyGrows(out + [out[|out| - distance]], distance, length - 1);
    }
  }

  /** A step that is performed lengthens the output and leaves the first distance within reach. */
  lemma PerformMoves(t: Token, out: seq<Byte>, size: nat)
    requires |out| <= size && Perform(t, out, size).Output?
    ensures var out' := Perform(t, out, size).out;
            |out| < |out'| <= size && (t.Copy? ==> 1 <= t.reps.r0 <= |out'|)
  {
    if t.Copy? {
      CopyGrows(out, t.reps.r0, t.length);
    }
  }

  /** The token reader hands back the packer's tokens one by one. */
  ghost predicate HandsOut<D(!new)>(read: TokenReader<D>, holds: (D, seq<Event>) -> bool) {
    forall d: D, data: seq<Byte>, pos: nat, c: Choice, state: nat, reps: Distances, rest: seq<Event> ::
      pos < |data| && Codable(data, pos, c) && Reachable(pos, state, reps)
      && holds(d, TokenEvents(data, pos, c, state, reps) + rest)
      ==> Gives(read(d, data[..pos], state, reps), TokenOf(data, pos, c, state, reps), holds, rest)
  }

  lemma TokensHandOut<D(!new)>(rd: Reader<D>, holds: (D, seq<Event>) -> bool)
    requires Delivers(rd, holds)
    ensures HandsOut(TokensOf(rd), holds)
  {
    var read := TokensOf(rd);
    forall d: D, data: seq<Byte>, pos: nat, c: Choice, state: nat, reps: Distances, rest: seq<Event> |
      pos < |data| && Codable(data, pos, c) && Reachable(pos, state, reps)
      && holds(d, TokenEvents(data, pos, c, state, reps) + rest)
      ensures Gives(read(d, data[..pos], state, reps), TokenOf(data, pos, c, state, reps), holds, rest)
    {
      TokenReads(rd, holds, d, data, pos, c, state, reps, rest);
    }
  }

  predicate IsRun(evs: seq<Event>, data: seq<Byte>, choices: seq<Choice>, pos: nat, state: nat, reps: Distances)
    requires AllCodable(data, choices) && pos <= |data| && Reachable(pos, state, reps)
  {
    evs == EventsFrom(data, choices, pos, state, reps)
  }

  /** A reader in state d has the rest of the run to hand out. */
  ghost predicate Ahead<D>(holds: (D, seq<Event>) -> bool, d: D, data: seq<Byte>, choices: seq<Choice>, pos: nat,
                           state: nat, reps: Distances)
    requires AllCodable(data, choices) && pos <= |data| && Reachable(pos, state, reps)
  {
    forall evs: seq<Event> :: IsRun(evs, data, choices, pos, state, reps) ==> holds(d, evs)
  }

  /** A run is the events of its first token and the run from where that token ends. */
  lemma RunParts(data: seq<Byte>, choices: seq<Choice>, pos: nat, state: nat, reps: Distances, t: Token, pos': nat)
    requires AllCodable(data, choices) && pos < |data| && Reachable(pos, state, reps)
    requires t == TokenOf(data, pos, choices[pos], state, reps) && pos' == pos + choices[pos].length <= |data|
    requires Reachable(pos', NextState(t, state), NextReps(t, reps))
    ensures IsRun(TokenEvents(data, pos, choices[pos], state, reps)
                  + EventsFrom(data, choices, pos', NextState(t, state), NextReps(t, reps)),
                  data, choices, pos, state, reps)
  {
  }

  /** What is ahead starts with the events of the next token, and after that token the rest is ahead. */
  lemma NextReads<D(!new)>(read: TokenReader<D>, holds: (D, seq<Event>) -> bool, d: D, data: seq<Byte>,
                           choices: seq<Choice>, pos: nat, state: nat, reps: Distances, t: Token, pos': nat)
    requires HandsOut(read, holds) && AllCodable(data, choices) && pos < |data| && Reachable(pos, state, reps)
    requires Ahead(holds, d, data, choices, pos, state, reps)
    requires t == TokenOf(data, pos, choices[pos], state, reps) && pos' == pos + choices[pos].length <= |data|
    requires Reachable(pos', NextState(t, state), NextReps(t, reps))
    ensures read(d, data[..pos], state, reps).Read? && read(d, data[..pos], state, reps).value == t
    ensures Ahead(holds, read(d, data[..pos], state, reps).next, data, choices, pos', NextState(t, state),
                  NextReps(t, reps))
  {
    var rest := EventsFrom(data, choices, pos', NextState(t, state), NextReps(t, reps));
    RunParts(data, choices, pos, state, reps, t, pos');
    assert Gives(read(d, data[..pos], state, reps), t, holds, rest);
  }

  /** One step of a run: the token read is the packer's, performing it extends the output, and the rest follows. */
  lemma RunStep<D(!new)>(read: TokenReader<D>, holds: (D, seq<Event>) -> bool, d: D, data: seq<Byte>,
                         choices: seq<Choice>, pos: nat, state: nat, reps: Distances)
    returns (t: Token, n: D, pos': nat)
    requires HandsOut(read, holds) && AllCodable(data, choices) && pos < |data| && Reachable(pos, state, reps)
    requires Ahead(holds, d, data, choices, pos, state, reps)
    ensures read(d, data[..pos], state, reps) == Read(t, n) && pos < pos' <= |data|
    ensures Perform(t, data[..pos], |data|) == Output(data[..pos'])
    ensures Reachable(pos', NextState(t, state), NextReps(t, reps))
    ensures Ahead(holds, n, data, choices, pos', NextState(t, state), NextReps(t, reps))
  {
    var c := choices[pos];
    t, pos' := TokenOf(data, pos, c, state, reps), pos + c.length;
    StaysReachable(data, pos, c, state, reps);
    PerformExtends(data, pos, c, state, reps);
    NextReads(read, holds, d, data, choices, pos, state, reps, t, pos');
    n := read(d, data[..pos], state, reps).next;
  }

  /** Over a whole run, decoding what was coded reproduces the data. */
  lemma {:induction false} RunReads<D(!new)>(read: TokenReader<D>, holds: (D, seq<Event>) -> bool, d: D,
                                             data: seq<Byte>, choices: seq<Choice>, pos: nat, state: nat,
                                             reps: Distances)
    requires HandsOut(read, holds) && AllCodable(data, choices) && pos <= |data| && Reachable(pos, state, reps)
    requires Ahead(holds, d, data, choices, pos, state, reps)
    ensures Gives(DecodeFrom(read, d, data[..pos], |data|, state, reps), data, holds, [])
    decreases |data| - pos
  {
    if pos == |data| {
      assert IsRun([], data, choices, pos, state, reps);
      assert data[..pos] == data;
    } else {
      var t, n, pos' := RunStep(read, holds, d, data, choices, pos, state, reps);
      RunReads(read, holds, n, data, choices, pos', NextState(t, state), NextReps(t, reps));
    }
  }
}
