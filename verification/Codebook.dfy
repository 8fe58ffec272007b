/**
 * Which decisions each syntax element is spelled with, and the encoder methods that emit them.
 * Offsets into the probability table are those of the packed format.
 */
module Codebook {
  import opened Numeral
  import opened Words
  import opened IntervalCoder
  import opened RangeEncoder

  const IS_REP := 192
  const REP_G0 := 204
  const REP_G1 := 216
  const REP_G2 := 228
  const REP_LONG := 240
  const SLOT := 432
  const SPECIAL := 688
  const ALIGN := 802
  const LENGTH := 818
  const REP_LENGTH := 1332
  const LITERAL := 1846
  const MAX_MATCH := 273

  /** value >> i, one halving at a time. */
  function Shr(value: nat, i: nat): nat
    decreases i
  {
    if i == 0 then value else Shr(value / 2, i - 1)
  }

  function BitAt(value: nat, i: nat): Bit
    decreases i
  {
    if i == 0 then value % 2 else BitAt(value / 2, i - 1)
  }

  lemma {:induction false} ShrStep(value: nat, i: nat)
    ensures Shr(value, i) == 2 * Shr(value, i + 1) + BitAt(value, i)
    decreases i
  {
    if i > 0 {
      ShrStep(value / 2, i - 1);
    }
  }

  lemma {:induction false} ShrBound(value: nat, i: nat, k: nat)
    requires value < Pow2(i + k)
    ensures Shr(value, i) < Pow2(k)
    decreases i
  {
    if i > 0 {
      ShrBound(value / 2, i - 1, k);
    }
  }

  /** The number the lowest k bits of a value form, assembled bit by bit. */
  function LowPart(value: nat, k: nat): nat {
    if k == 0 then 0 else (if BitAt(value, k - 1) == 0 then 0 else Pow2(k - 1)) + LowPart(value, k - 1)
  }

  lemma {:induction false} LowPartHalf(value: nat, k: nat)
    requires k >= 1
    ensures LowPart(value, k) == 2 * LowPart(value / 2, k - 1) + value % 2
  {
    if k > 1 {
      LowPartHalf(value, k - 1);
      assert BitAt(value, k - 1) == BitAt(value / 2, k - 2);
    } else {
      assert Pow2(0) == 1 && LowPart(value, 0) == 0;
    }
  }

  /** A value is the sum of its bits. */
  lemma {:induction false} LowPartIs(value: nat, k: nat)
    requires value < Pow2(k)
    ensures LowPart(value, k) == value
    decreases k
  {
    if k > 0 {
      LowPartIs(value / 2, k - 1);
      LowPartHalf(value, k);
    }
  }

  lemma LowNibble(value: nat)
    ensures LowPart(value, 4) == value % 16
  {
    LowPair(value, 4);
    LowPair(value / 4, 2);
  }

  /** The two lowest bits apart from the rest. */
  lemma LowPair(value: nat, k: nat)
    requires k >= 2
    ensures LowPart(value, k) == 4 * LowPart(value / 4, k - 2) + value % 4
  {
    LowPartHalf(value, k);
    LowPartHalf(value / 2, k - 1);
    assert value / 2 / 2 == value / 4 && value % 4 == 2 * (value / 2 % 2) + value % 2;
  }

  /** a << k, one doubling at a time. */
  function Shl(a: nat, k: nat): nat
    decreases k
  {
    if k == 0 then a else Shl(2 * a, k - 1)
  }

  lemma {:induction false} ShlBit(a: nat, bit: Bit, k: nat)
    ensures Shl(a + bit, k) == Shl(a, k) + if bit == 0 then 0 else Pow2(k)
  {
    ShlAdd(a, bit, k);
    ShlPow(bit, k);
  }

  lemma {:induction false} ShlAdd(a: nat, b: nat, k: nat)
    ensures Shl(a + b, k) == Shl(a, k) + Shl(b, k)
    decreases k
  {
    if k > 0 {
      ShlAdd(2 * a, 2 * b, k - 1);
      assert 2 * (a + b) == 2 * a + 2 * b;
    }
  }

  lemma {:induction false} ShlPow(bit: Bit, k: nat)
    ensures Shl(bit, k) == if bit == 0 then 0 else Pow2(k)
    decreases k
  {
    if k > 0 {
      ShlPow(bit, k - 1);
      ShlAdd(bit, bit, k - 1);
    }
  }

  // ---------------------------------------------------------------- bit trees

  /** The greatest node a walk of `bits` more levels can reach. */
  function TopNode(node: nat, bits: nat): nat
    decreases bits
  {
    if bits == 0 then node else TopNode(2 * node + 1, bits - 1)
  }

  lemma {:induction false} TopNodeMonotone(a: nat, b: nat, bits: nat)
    requires a <= b
    ensures a <= TopNode(a, bits) <= TopNode(b, bits)
    decreases bits
  {
    if bits > 0 {
      TopNodeMonotone(2 * a + 1, 2 * b + 1, bits - 1);
    }
  }

  lemma TreeTops()
    ensures TopNode(1, 2) == 7 && TopNode(1, 5) == 63 && TopNode(1, 7) == 255
  {
  }

  /** A walk stays at or below the greatest node, whichever way it turns. */
  lemma TopNodeBelow(node: nat, bits: nat, bit: Bit)
    ensures node <= TopNode(node, bits)
    ensures bits > 0 ==> TopNode(2 * node + bit, bits - 1) <= TopNode(node, bits)
  {
    TopNodeMonotone(node, node, bits);
    if bits > 0 {
      TopNodeMonotone(2 * node + bit, 2 * node + 1, bits - 1);
    }
  }

  function TreeEvents(index: nat, node: nat, bits: nat, value: nat): (evs: seq<Event>)
    decreases bits, node
  {
    if bits == 0 then []
    else
      var bit := BitAt(value, bits - 1);
      [Model(index + node, bit)] + TreeEvents(index, 2 * node + bit, bits - 1, value)
  }

  /** The bits of a reversed code, least significant first, after a leading one. */
  function ReverseNode(value: nat, k: nat): (node: nat)
    ensures 1 <= node
  {
    if k == 0 then 1 else 2 * ReverseNode(value, k - 1) + BitAt(value, k - 1)
  }

  function ReverseEvents(index: nat, node: nat, i: nat, bits: nat, value: nat): (evs: seq<Event>)
    requires i <= bits
    decreases bits - i, node
  {
    if i == bits then []
    else
      var bit := BitAt(value, i);
      [Model(index + node, bit)] + ReverseEvents(index, 2 * node + bit, i + 1, bits, value)
  }

  lemma {:induction false} TopNodeShl(node: nat, bits: nat)
    ensures TopNode(node, bits) + 1 == Shl(node + 1, bits)
    decreases bits
  {
    if bits > 0 {
      TopNodeShl(2 * node + 1, bits - 1);
    }
  }

  /** A code of so many bits fits under an index when the whole subtree does. */
  lemma ReverseFits(index: nat, bits: nat)
    requires index + Pow2(bits) <= PROBS
    ensures bits > 0 ==> index + TopNode(1, bits - 1) < PROBS
  {
    if bits > 0 {
      TopNodeShl(1, bits - 1);
      ShlAdd(1, 1, bits - 1);
      ShlPow(1, bits - 1);
    }
  }

  lemma {:induction false} Pow2Monotone(a: nat, b: nat)
    requires a <= b
    ensures Pow2(a) <= Pow2(b)
  {
    if a < b {
      Pow2Monotone(a, b - 1);
    }
  }

  method EncodeTree(rc: Encoder, index: nat, bits: nat, value: nat)
    requires rc.Valid() && (bits > 0 ==> index + TopNode(1, bits - 1) < PROBS)
    modifies rc, rc.probs
    ensures rc.Valid() && rc.trace == old(rc.trace) + TreeEvents(index, 1, bits, value)
    ensures rc.header == old(rc.header) && (old(rc.error) ==> rc.error)
  {
    var node: nat, left: nat := 1, bits;
    while left > 0
      invariant rc.Valid() && (left > 0 ==> index + TopNode(node, left - 1) < PROBS)
      invariant rc.trace + TreeEvents(index, node, left, value) == old(rc.trace) + TreeEvents(index, 1, bits, value)
      invariant rc.header == old(rc.header) && (old(rc.error) ==> rc.error)
    {
      left := left - 1;
      var bit := BitAt(value, left);
      TopNodeBelow(node, left, bit);
      Regroup2(rc.trace, [Model(index + node, bit)], TreeEvents(index, 2 * node + bit, left, value));
      rc.EncodeBit(index + node, bit);
      node := 2 * node + bit;
    }
  }

  method EncodeReverse(rc: Encoder, index: nat, bits: nat, value: nat)
    requires rc.Valid() && (bits > 0 ==> index + TopNode(1, bits - 1) < PROBS)
    modifies rc, rc.probs
    ensures rc.Valid() && rc.trace == old(rc.trace) + ReverseEvents(index, 1, 0, bits, value)
    ensures rc.header == old(rc.header) && (old(rc.error) ==> rc.error)
  {
    var node: nat, i: nat := 1, 0;
    ghost var whole := rc.trace + ReverseEvents(index, node, i, bits, value);
    while i < bits
      invariant i <= bits && rc.Valid() && (i < bits ==> index + TopNode(node, bits - i - 1) < PROBS)
      invariant rc.trace + ReverseEvents(index, node, i, bits, value) == whole
      invariant rc.header == old(rc.header) && (old(rc.error) ==> rc.error)
    {
      var bit := BitAt(value, i);
      TopNodeBelow(node, bits - i - 1, bit);
      Regroup2(rc.trace, [Model(index + node, bit)], ReverseEvents(index, 2 * node + bit, i + 1, bits, value));
      rc.EncodeBit(index + node, bit);
      node := 2 * node + bit;
      i := i + 1;
    }
  }

  // ---------------------------------------------------------------- lengths

  function LengthEvents(index: nat, length: nat): (evs: seq<Event>)
    requires 2 <= length <= MAX_MATCH
  {
    if length < 10 then [Model(index, 0)] + TreeEvents(index + 2, 1, 3, length - 2)
    else [Model(index, 1)] + LongLengthEvents(index, length)
  }

  function LongLengthEvents(index: nat, length: nat): (evs: seq<Event>)
    requires 10 <= length <= MAX_MATCH
  {
    if length < 18 then [Model(index + 1, 0)] + TreeEvents(index + 130, 1, 3, length - 10)
    else [Model(index + 1, 1)] + TreeEvents(index + 258, 1, 8, length - 18)
  }

  lemma Regroup2(a: seq<Event>, b: seq<Event>, c: seq<Event>)
    ensures a + b + c == a + (b + c)
  {
  }

  method EncodeLength(rc: Encoder, index: nat, length: nat)
    requires rc.Valid() && index + 514 <= PROBS && 2 <= length <= MAX_MATCH
    modifies rc, rc.probs
    ensures rc.Valid() && rc.trace == old(rc.trace) + LengthEvents(index, length)
    ensures rc.header == old(rc.header) && (old(rc.error) ==> rc.error)
  {
    TreeTops();
    rc.EncodeBit(index, if length >= 10 then 1 else 0);
    if length < 10 {
      EncodeTree(rc, index + 2, 3, length - 2);
      Regroup2(old(rc.trace), [Model(index, 0)], TreeEvents(index + 2, 1, 3, length - 2));
    } else {
      EncodeLongLength(rc, index, length);
      Regroup2(old(rc.trace), [Model(index, 1)], LongLengthEvents(index, length));
    }
  }

  method EncodeLongLength(rc: Encoder, index: nat, length: nat)
    requires rc.Valid() && index + 514 <= PROBS && 10 <= length <= MAX_MATCH
    modifies rc, rc.probs
    ensures rc.Valid() && rc.trace == old(rc.trace) + LongLengthEvents(index, length)
    ensures rc.header == old(rc.header) && (old(rc.error) ==> rc.error)
  {
    TreeTops();
    rc.EncodeBit(index + 1, if length >= 18 then 1 else 0);
    if length < 18 {
      EncodeTree(rc, index + 130, 3, length - 10);
      Regroup2(old(rc.trace), [Model(index + 1, 0)], TreeEvents(index + 130, 1, 3, length - 10));
    } else {
      EncodeTree(rc, index + 258, 8, length - 18);
      Regroup2(old(rc.trace), [Model(index + 1, 1)], TreeEvents(index + 258, 1, 8, length - 18));
    }
  }

  // ---------------------------------------------------------------- distances

  /** What is left of a value once halved below four, and how many halvings that took. */
  function HighPart(value: nat): nat {
    if value < 4 then value else HighPart(value / 2)
  }

  function ExtraBits(value: nat): nat {
    if value < 4 then 0 else 1 + ExtraBits(value / 2)
  }

  function SlotOf(value: nat): nat {
    if value < 4 then value else (ExtraBits(value) + 1) * 2 + HighPart(value) % 2
  }

  /** (2 | slot & 1) << bits */
  function SlotBase(slot: nat, bits: nat): nat {
    if slot % 2 == 0 then 2 * Pow2(bits) else 3 * Pow2(bits)
  }

  /** Slot, bit count and remainder determine the value they were taken from. */
  lemma {:induction false} SlotSplits(value: nat)
    requires value >= 4
    ensures var slot, bits := SlotOf(value), ExtraBits(value);
            && slot >= 4 && bits == slot / 2 - 1
            && SlotBase(slot, bits) <= value < SlotBase(slot, bits) + Pow2(bits)
  {
    if value >= 8 {
      SlotSplits(value / 2);
      assert ExtraBits(value / 2) >= 1;
    } else {
      assert HighPart(value) == value / 2 && ExtraBits(value) == 1 && Pow2(0) == 1 && Pow2(1) == 2;
    }
  }

  lemma {:induction false} ExtraBitsBound(value: nat, k: nat)
    requires value < 4 * Pow2(k)
    ensures ExtraBits(value) <= k
    decreases k
  {
    if value >= 4 && k > 0 {
      ExtraBitsBound(value / 2, k - 1);
    }
  }

  lemma Pow2Thirty()
    ensures Pow2(30) == 0x4000_0000
  {
    assert Pow2(10) == 1024;
    assert Pow2(20) == 1024 * Pow2(10);
    assert Pow2(30) == 1024 * Pow2(20);
  }

  lemma SlotFits(distance: nat)
    requires 1 <= distance < 0x1_0000_0000
    ensures SlotOf(distance - 1) < 64
  {
    Pow2Thirty();
    ExtraBitsBound(distance - 1, 30);
  }

  function DirectEvents(extra: nat, i: nat): (evs: seq<Event>)
  {
    if i <= 4 then [] else [Direct(BitAt(extra, i - 1))] + DirectEvents(extra, i - 1)
  }

  function LengthState(length: nat): (k: nat)
    requires length >= 2
    ensures k < 4
  {
    if length < 6 then length - 2 else 3
  }

  /** The part of a distance after its slot. */
  function FooterEvents(value: nat): (evs: seq<Event>)
  {
    var slot, bits := SlotOf(value), ExtraBits(value);
    if slot < 4 then []
    else
      SlotSplits(value);
      var base := SlotBase(slot, bits);
      var extra := value - base;
      if slot < 14 then
        SpecialFits(slot, bits);
        ReverseEvents(SPECIAL + base - slot - 1, 1, 0, bits, extra)
      else
        DirectEvents(extra, bits) + ReverseEvents(ALIGN, 1, 0, 4, extra % 16)
  }

  lemma SpecialFits(slot: nat, bits: nat)
    requires 4 <= slot < 14 && bits == slot / 2 - 1
    ensures slot + 1 <= SlotBase(slot, bits) + 1
    ensures SPECIAL + SlotBase(slot, bits) - slot - 1 + Pow2(bits) <= ALIGN
  {
    PowersOfTwo();
  }

  function DistanceEvents(length: nat, distance: nat): (evs: seq<Event>)
    requires length >= 2 && 1 <= distance < 0x1_0000_0000
  {
    TreeEvents(SLOT + LengthState(length) * 64, 1, 6, SlotOf(distance - 1)) + FooterEvents(distance - 1)
  }

  method FindSlot(value: nat) returns (slot: nat, bits: nat)
    ensures slot == SlotOf(value) && bits == ExtraBits(value)
  {
    slot, bits := value, 0;
    if value >= 4 {
      var high := value;
      while high >= 4
        invariant HighPart(high) == HighPart(value)
        invariant bits + ExtraBits(high) == ExtraBits(value)
      {
        high := high / 2;
        bits := bits + 1;
      }
      slot := (bits + 1) * 2 + high % 2;
    }
  }

  method EncodeDistance(rc: Encoder, length: nat, distance: nat)
    requires rc.Valid() && length >= 2 && 1 <= distance < 0x1_0000_0000
    modifies rc, rc.probs
    ensures rc.Valid() && rc.trace == old(rc.trace) + DistanceEvents(length, distance)
    ensures rc.header == old(rc.header) && (old(rc.error) ==> rc.error)
  {
    var value: nat := distance - 1;
    var slot, bits := FindSlot(value);
    TreeTops();
    EncodeTree(rc, SLOT + LengthState(length) * 64, 6, slot);
    EncodeFooter(rc, value, slot, bits);
    Regroup2(old(rc.trace), TreeEvents(SLOT + LengthState(length) * 64, 1, 6, slot), FooterEvents(value));
  }

  method EncodeFooter(rc: Encoder, value: nat, slot: nat, bits: nat)
    requires rc.Valid() && slot == SlotOf(value) && bits == ExtraBits(value)
    modifies rc, rc.probs
    ensures rc.Valid() && rc.trace == old(rc.trace) + FooterEvents(value)
    ensures rc.header == old(rc.header) && (old(rc.error) ==> rc.error)
  {
    if slot >= 4 {
      SlotSplits(value);
      var base := SlotBase(slot, bits);
      var extra := value - base;
      if slot < 14 {
        SpecialFits(slot, bits);
        ReverseFits(SPECIAL + base - slot - 1, bits);
        EncodeReverse(rc, SPECIAL + base - slot - 1, bits, extra);
      } else {
        EncodeDirectBits(rc, bits, extra);
        PowersOfTwo();
        ReverseFits(ALIGN, 4);
        EncodeReverse(rc, ALIGN, 4, extra % 16);
        Regroup2(old(rc.trace), DirectEvents(extra, bits), ReverseEvents(ALIGN, 1, 0, 4, extra % 16));
      }
    }
  }

  method EncodeDirectBits(rc: Encoder, bits: nat, extra: nat)
    requires rc.Valid()
    modifies rc, rc.probs
    ensures rc.Valid() && rc.trace == old(rc.trace) + DirectEvents(extra, bits)
    ensures rc.header == old(rc.header) && (old(rc.error) ==> rc.error)
  {
    var i := bits;
    while i > 4
      invariant rc.Valid()
      invariant rc.trace + DirectEvents(extra, i) == old(rc.trace) + DirectEvents(extra, bits)
      invariant rc.header == old(rc.header) && (old(rc.error) ==> rc.error)
    {
      Regroup2(rc.trace, [Direct(BitAt(extra, i - 1))], DirectEvents(extra, i - 1));
      rc.EncodeDirect(BitAt(extra, i - 1));
      i := i - 1;
    }
  }

  // ---------------------------------------------------------------- literals

  /** Bit 8 of a value: whether it lies in the upper half of its run of 512. */
  function Bit8(m: nat): Bit {
    if m >= 512 then Bit8(m - 512) else if m < 256 then 0 else 1
  }

  /** Which probability the next bit of a literal uses, given the byte it is predicted from. */
  function LiteralIndex(index: nat, node: nat, matched: bool, m: nat): nat {
    index + node + if matched then 256 + 256 * Bit8(m) else 0
  }

  function LiteralEvents(index: nat, node: nat, matched: bool, guess: nat, byte: Byte, i: nat): (evs: seq<Event>)
    decreases i, node
  {
    if i == 0 then []
    else
      var bit, m := BitAt(byte, i - 1), guess * 2;
      [Model(LiteralIndex(index, node, matched, m), bit)]
      + LiteralEvents(index, 2 * node + bit, matched && bit == Bit8(m), m, byte, i - 1)
  }

  method EncodeLiteralBit(rc: Encoder, index: nat, node: nat, offset: nat, guess: nat, bit: Bit)
    requires rc.Valid() && index + 768 <= PROBS && node < 256 && (offset == 0 || offset == 256)
    modifies rc, rc.probs
    ensures rc.Valid()
    ensures rc.trace == old(rc.trace) + [Model(LiteralIndex(index, node, offset == 256, guess), bit)]
    ensures rc.header == old(rc.header) && (old(rc.error) ==> rc.error)
  {
    // match & offset keeps the ninth bit of match exactly when offset is 256
    rc.EncodeBit(index + node + offset + (if offset != 0 then 256 * Bit8(guess) else 0), bit);
  }

  method EncodeLiteralBits(rc: Encoder, index: nat, matched: bool, predicted: Byte, byte: Byte)
    requires rc.Valid() && index + 768 <= PROBS
    modifies rc, rc.probs
    ensures rc.Valid() && rc.trace == old(rc.trace) + LiteralEvents(index, 1, matched, predicted, byte, 8)
    ensures rc.header == old(rc.header) && (old(rc.error) ==> rc.error)
  {
    var node: nat := 1;
    var offset := if matched then 256 else 0;
    var guess: nat := predicted;
    var i: nat := 8;
    ghost var whole := rc.trace + LiteralEvents(index, node, matched, guess, byte, i);
    while i > 0
      invariant i <= 8 && node < Pow2(9 - i) && (offset == 0 || offset == 256) && rc.Valid()
      invariant LiteralLeft(rc.trace, index, node, offset == 256, guess, byte, i, whole)
      invariant rc.header == old(rc.header) && (old(rc.error) ==> rc.error)
    {
      node, offset, guess := EncodeLiteralStep(rc, index, node, offset, guess, byte, i, whole);
      i := i - 1;
    }
  }

  /** What is written so far and what is left of a literal make up the whole. */
  ghost predicate LiteralLeft(trace: seq<Event>, index: nat, node: nat, matched: bool, guess: nat, byte: Byte, i: nat,
                              whole: seq<Event>)
  {
    trace + LiteralEvents(index, node, matched, guess, byte, i) == whole
  }

  /** One bit of a literal; the first that differs from the prediction ends the matching. */
  method EncodeLiteralStep(rc: Encoder, index: nat, node0: nat, offset0: nat, match0: nat, byte: Byte, i: nat,
                           ghost whole: seq<Event>)
    returns (node: nat, offset: nat, guess: nat)
    requires rc.Valid() && index + 768 <= PROBS && 1 <= i <= 8 && node0 < Pow2(9 - i)
    requires (offset0 == 0 || offset0 == 256)
    requires LiteralLeft(rc.trace, index, node0, offset0 == 256, match0, byte, i, whole)
    modifies rc, rc.probs
    ensures rc.Valid() && node < Pow2(10 - i) && (offset == 0 || offset == 256)
    ensures LiteralLeft(rc.trace, index, node, offset == 256, guess, byte, i - 1, whole)
    ensures rc.header == old(rc.header) && (old(rc.error) ==> rc.error)
  {
    var bit := BitAt(byte, i - 1);
    NodeFits(node0, i);
    LiteralEventsStep(rc.trace, index, node0, offset0 == 256, match0, byte, i);
    node, offset, guess := node0, offset0, match0 * 2;
    EncodeLiteralBit(rc, index, node, offset, guess, bit);
    node := 2 * node + bit;
    if bit != Bit8(guess) {
      offset := 0;
    }
  }

  lemma LiteralEventsStep(trace: seq<Event>, index: nat, node: nat, matched: bool, guess: nat, byte: Byte, i: nat)
    requires i >= 1
    ensures trace + LiteralEvents(index, node, matched, guess, byte, i)
         == trace + [Model(LiteralIndex(index, node, matched, guess * 2), BitAt(byte, i - 1))]
            + LiteralEvents(index, 2 * node + BitAt(byte, i - 1),
                            matched && BitAt(byte, i - 1) == Bit8(guess * 2), guess * 2, byte, i - 1)
  {
    var bit, m := BitAt(byte, i - 1), guess * 2;
    Regroup2(trace, [Model(LiteralIndex(index, node, matched, m), bit)],
             LiteralEvents(index, 2 * node + bit, matched && bit == Bit8(m), m, byte, i - 1));
  }

  lemma NodeFits(node: nat, i: nat)
    requires 1 <= i <= 8 && node < Pow2(9 - i)
    ensures node < 256
  {
    PowersOfTwo();
    Pow2Monotone(9 - i, 8);
  }

  method EncodeLiteral(rc: Encoder, data: seq<Byte>, pos: nat, state: nat, distance: nat)
    requires rc.Valid() && pos < |data| && (state >= 7 ==> distance <= pos)
    modifies rc, rc.probs
    ensures rc.Valid()
    ensures rc.trace == old(rc.trace) + LiteralAt(data, pos, state, distance)
    ensures rc.header == old(rc.header) && (old(rc.error) ==> rc.error)
  {
    PowersOfTwo();
    var previous: nat := if pos > 0 then data[pos - 1] else 0;
    EncodeLiteralBits(rc, LITERAL + previous / 64 * 768, state >= 7,
                      if state >= 7 then data[pos - distance] else 0, data[pos]);
  }

  lemma PowersOfTwo()
    ensures Pow2(0) == 1 && Pow2(1) == 2 && Pow2(2) == 4 && Pow2(3) == 8 && Pow2(4) == 16
    ensures Pow2(5) == 32 && Pow2(6) == 64 && Pow2(7) == 128 && Pow2(8) == 256
  {
  }

  function LiteralAt(data: seq<Byte>, pos: nat, state: nat, distance: nat): (evs: seq<Event>)
    requires pos < |data| && (state >= 7 ==> distance <= pos)
  {
    var previous: nat := if pos > 0 then data[pos - 1] else 0;
    LiteralEvents(LITERAL + previous / 64 * 768, 1, state >= 7,
                  if state >= 7 then data[pos - distance] else 0, data[pos], 8)
  }
}
