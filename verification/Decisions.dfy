/** Every decision a run of tokens calls for uses a probability there is. */
module Decisions {
  import opened Numeral
  import opened Words
  import opened IntervalCoder
  import opened Codebook
  import opened OptimalParse
  import opened Tokens

  lemma Joined(a: seq<Event>, b: seq<Event>)
    requires EventsOk(a) && EventsOk(b)
    ensures EventsOk(a + b)
  {
  }

  lemma {:induction false} TreeOk(index: nat, node: nat, bits: nat, value: nat)
    requires bits > 0 ==> index + TopNode(node, bits - 1) < PROBS
    ensures EventsOk(TreeEvents(index, node, bits, value))
    decreases bits
  {
    if bits > 0 {
      var bit := BitAt(value, bits - 1);
      TopNodeBelow(node, bits - 1, bit);
      TreeOk(index, 2 * node + bit, bits - 1, value);
      Joined([Model(index + node, bit)], TreeEvents(index, 2 * node + bit, bits - 1, value));
    }
  }

  lemma {:induction false} ReverseOk(index: nat, node: nat, i: nat, bits: nat, value: nat)
    requires i <= bits && (i < bits ==> index + TopNode(node, bits - i - 1) < PROBS)
    ensures EventsOk(ReverseEvents(index, node, i, bits, value))
    decreases bits - i
  {
    if i < bits {
      var bit := BitAt(value, i);
      TopNodeBelow(node, bits - i - 1, bit);
      ReverseOk(index, 2 * node + bit, i + 1, bits, value);
      Joined([Model(index + node, bit)], ReverseEvents(index, 2 * node + bit, i + 1, bits, value));
    }
  }

  lemma LengthOk(index: nat, length: nat)
    requires index + 514 <= PROBS && 2 <= length <= MAX_MATCH
    ensures EventsOk(LengthEvents(index, length))
  {
    TreeTops();
    if length < 10 {
      TreeOk(index + 2, 1, 3, length - 2);
    } else if length < 18 {
      TreeOk(index + 130, 1, 3, length - 10);
    } else {
      TreeOk(index + 258, 1, 8, length - 18);
    }
  }

  lemma {:induction false} DirectOk(extra: nat, i: nat)
    ensures EventsOk(DirectEvents(extra, i))
  {
    if i > 4 {
      DirectOk(extra, i - 1);
    }
  }

  lemma FooterOk(value: nat)
    ensures EventsOk(FooterEvents(value))
  {
    var slot, bits := SlotOf(value), ExtraBits(value);
    if slot >= 4 {
      SlotSplits(value);
      var base := SlotBase(slot, bits);
      var extra := value - base;
      if slot < 14 {
        SpecialFits(slot, bits);
        ReverseFits(SPECIAL + base - slot - 1, bits);
        ReverseOk(SPECIAL + base - slot - 1, 1, 0, bits, extra);
      } else {
        PowersOfTwo();
        ReverseFits(ALIGN, 4);
        DirectOk(extra, bits);
        ReverseOk(ALIGN, 1, 0, 4, extra % 16);
        Joined(DirectEvents(extra, bits), ReverseEvents(ALIGN, 1, 0, 4, extra % 16));
      }
    }
  }

  lemma DistanceOk(length: nat, distance: nat)
    requires length >= 2 && 1 <= distance < 0x1_0000_0000
    ensures EventsOk(DistanceEvents(length, distance))
  {
    TreeTops();
    TreeOk(SLOT + LengthState(length) * 64, 1, 6, SlotOf(distance - 1));
    FooterOk(distance - 1);
  }

  lemma {:induction false} LiteralOk(index: nat, node: nat, matched: bool, guess: nat, byte: Byte, i: nat)
    requires index + 768 <= PROBS && i <= 8 && node < Pow2(9 - i)
    ensures EventsOk(LiteralEvents(index, node, matched, guess, byte, i))
    decreases i
  {
    if i > 0 {
      var bit, m := BitAt(byte, i - 1), guess * 2;
      NodeFits(node, i);
      LiteralOk(index, 2 * node + bit, matched && bit == Bit8(m), m, byte, i - 1);
      Joined([Model(LiteralIndex(index, node, matched, m), bit)],
             LiteralEvents(index, 2 * node + bit, matched && bit == Bit8(m), m, byte, i - 1));
    }
  }

  lemma LiteralAtOk(data: seq<Byte>, pos: nat, state: nat, distance: nat)
    requires pos < |data| && (state >= 7 ==> distance <= pos)
    ensures EventsOk(LiteralAt(data, pos, state, distance))
  {
    var previous: nat := if pos > 0 then data[pos - 1] else 0;
    PowersOfTwo();
    assert previous / 64 <= 3;
    var guess := if state >= 7 then data[pos - distance] else 0;
    LiteralOk(LITERAL + previous / 64 * 768, 1, state >= 7, guess, data[pos], 8);
  }

  lemma MatchOk(c: Choice, state: nat, reps: Distances)
    requires 2 <= c.length <= MAX_MATCH && 1 <= c.distance < 0x1_0000_0000 && state < 12
    ensures EventsOk(MatchEvents(c, state, reps))
  {
    var rep := RepIndex(reps, c.distance);
    if rep < 4 {
      LengthOk(REP_LENGTH, c.length);
      Joined(RepEvents(rep, state), LengthEvents(REP_LENGTH, c.length));
    } else {
      LengthOk(LENGTH, c.length);
      DistanceOk(c.length, c.distance);
      Joined(LengthEvents(LENGTH, c.length), DistanceEvents(c.length, c.distance));
    }
  }

  lemma TokenOk(data: seq<Byte>, pos: nat, c: Choice, state: nat, reps: Distances)
    requires pos < |data| && Codable(data, pos, c) && Reachable(pos, state, reps)
    ensures EventsOk(TokenEvents(data, pos, c, state, reps))
  {
    if c.length >= 2 {
      MatchOk(c, state, reps);
    } else if !IsShortRep(data, pos, reps) {
      LiteralAtOk(data, pos, state, reps.r0);
    }
  }

  /** Whatever the parse, and wherever it starts. */
  lemma {:induction false} RunOk(data: seq<Byte>, choices: seq<Choice>, pos: nat, state: nat, reps: Distances)
    requires AllCodable(data, choices) && pos <= |data| && Reachable(pos, state, reps)
    ensures EventsOk(EventsFrom(data, choices, pos, state, reps))
    decreases |data| - pos
  {
    if pos < |data| {
      var c := choices[pos];
      var t := TokenOf(data, pos, c, state, reps);
      var next, state', reps' := pos + c.length, NextState(t, state), NextReps(t, reps);
      StaysReachable(data, pos, c, state, reps);
      TokenOk(data, pos, c, state, reps);
      RunOk(data, choices, next, state', reps');
      OkAhead(TokenEvents(data, pos, c, state, reps), EventsFrom(data, choices, next, state', reps'),
              EventsFrom(data, choices, pos, state, reps));
    }
  }

  lemma OkAhead(a: seq<Event>, b: seq<Event>, all: seq<Event>)
    requires EventsOk(a) && EventsOk(b) && all == a + b
    ensures EventsOk(all)
  {
  }

  // ---------------------------------------------------------------- how many there are

  lemma {:induction false} TreeCount(index: nat, node: nat, bits: nat, value: nat)
    ensures |TreeEvents(index, node, bits, value)| == bits
    decreases bits
  {
    if bits > 0 {
      TreeCount(index, 2 * node + BitAt(value, bits - 1), bits - 1, value);
    }
  }

  lemma {:induction false} ReverseCount(index: nat, node: nat, i: nat, bits: nat, value: nat)
    requires i <= bits
    ensures |ReverseEvents(index, node, i, bits, value)| == bits - i
    decreases bits - i
  {
    if i < bits {
      ReverseCount(index, 2 * node + BitAt(value, i), i + 1, bits, value);
    }
  }

  lemma LengthCount(index: nat, length: nat)
    requires 2 <= length <= MAX_MATCH
    ensures |LengthEvents(index, length)| == LengthPrice(length)
  {
    if length < 10 {
      TreeCount(index + 2, 1, 3, length - 2);
    } else if length < 18 {
      TreeCount(index + 130, 1, 3, length - 10);
    } else {
      TreeCount(index + 258, 1, 8, length - 18);
    }
  }

  lemma {:induction false} DirectCount(extra: nat, i: nat)
    ensures |DirectEvents(extra, i)| == if i <= 4 then 0 else i - 4
  {
    if i > 4 {
      DirectCount(extra, i - 1);
    }
  }

  lemma FooterCount(value: nat)
    ensures |FooterEvents(value)| == ExtraBits(value)
  {
    var slot, bits := SlotOf(value), ExtraBits(value);
    if value >= 4 {
      SlotSplits(value);
      var base := SlotBase(slot, bits);
      var extra := value - base;
      if slot < 14 {
        SpecialFits(slot, bits);
        ReverseCount(SPECIAL + base - slot - 1, 1, 0, bits, extra);
      } else {
        DirectCount(extra, bits);
        ReverseCount(ALIGN, 1, 0, 4, extra % 16);
      }
    }
  }

  lemma DistanceCount(length: nat, distance: nat)
    requires length >= 2 && 1 <= distance < 0x1_0000_0000
    ensures |DistanceEvents(length, distance)| == DistancePrice(distance)
  {
    TreeCount(SLOT + LengthState(length) * 64, 1, 6, SlotOf(distance - 1));
    FooterCount(distance - 1);
  }

  lemma {:induction false} LiteralCount(index: nat, node: nat, matched: bool, guess: nat, byte: Byte, i: nat)
    ensures |LiteralEvents(index, node, matched, guess, byte, i)| == i
    decreases i
  {
    if i > 0 {
      var bit, m := BitAt(byte, i - 1), guess * 2;
      LiteralCount(index, 2 * node + bit, matched && bit == Bit8(m), m, byte, i - 1);
    }
  }

  lemma LiteralAtCount(data: seq<Byte>, pos: nat, state: nat, distance: nat)
    requires pos < |data| && (state >= 7 ==> distance <= pos)
    ensures |LiteralAt(data, pos, state, distance)| == 8
  {
    var previous: nat := if pos > 0 then data[pos - 1] else 0;
    var guess := if state >= 7 then data[pos - distance] else 0;
    LiteralCount(LITERAL + previous / 64 * 768, 1, state >= 7, guess, data[pos], 8);
  }

  /**
   * The parse prices a choice at the number of decisions it takes: exactly for a literal that is no short repeat and
   * for a match whose distance is not in the queue, and never too low.
   */
  lemma PriceIs(data: seq<Byte>, pos: nat, c: Choice, state: nat, reps: Distances)
    requires pos < |data| && Codable(data, pos, c) && Reachable(pos, state, reps)
    ensures |TokenEvents(data, pos, c, state, reps)| <= Price(c)
    ensures c.length < 2 && !IsShortRep(data, pos, reps) ==> |TokenEvents(data, pos, c, state, reps)| == Price(c)
    ensures c.length >= 2 && RepIndex(reps, c.distance) == 4 ==> |TokenEvents(data, pos, c, state, reps)| == Price(c)
  {
    if c.length >= 2 {
      LengthCount(REP_LENGTH, c.length);
      LengthCount(LENGTH, c.length);
      DistanceCount(c.length, c.distance);
    } else if !IsShortRep(data, pos, reps) {
      LiteralAtCount(data, pos, state, reps.r0);
    }
  }

  /** So a parse takes at most as many decisions as it is priced at. */
  lemma {:induction false} RunPrice(data: seq<Byte>, choices: seq<Choice>, pos: nat, state: nat, reps: Distances)
    requires AllCodable(data, choices) && Forward(choices) && pos <= |data| && Reachable(pos, state, reps)
    ensures |EventsFrom(data, choices, pos, state, reps)| <= TotalPrice(Follow(choices, pos))
    decreases |data| - pos
  {
    if pos < |data| {
      var c := choices[pos];
      var t := TokenOf(data, pos, c, state, reps);
      StaysReachable(data, pos, c, state, reps);
      PriceIs(data, pos, c, state, reps);
      RunPrice(data, choices, pos + c.length, NextState(t, state), NextReps(t, reps));
      TotalPriceCons(c, Follow(choices, pos + c.length));
    }
  }
}
