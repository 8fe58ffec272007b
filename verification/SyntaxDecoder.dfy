/**
 * Reading trees, lengths, distances and literals back, element by element.
 *
 * Everything here is generic in the reader of single decisions: `holds(d, evs)` says that a reader in
 * state d has exactly the decisions evs still to hand out.
 */
module SyntaxDecoder {
  import opened Numeral
  import opened Words
  import opened IntervalCoder
  import opened Codebook

  // The decompressor's own offsets into the probability table.
  const DEC_IS_REP := 192
  const DEC_REP_G0 := 204
  const DEC_REP_G1 := 216
  const DEC_REP_G2 := 228
  const DEC_REP_LONG := 240
  const DEC_SLOT := 432
  const DEC_SPECIAL := 688
  const DEC_ALIGN := 802
  const DEC_LENGTH := 818
  const DEC_REP_LENGTH := 1332
  const DEC_LITERAL := 1846

  datatype Read<+D, +T> = Corrupt | Read(value: T, next: D)

  /** How single decisions are read: under a probability, or at even odds. */
  datatype Reader<!D> = Reader(bit: (D, nat) -> Read<D, Bit>, direct: D -> Read<D, Bit>)

  /** The read r yields v and leaves the reader before rest. */
  ghost predicate Gives<D, T>(r: Read<D, T>, v: T, holds: (D, seq<Event>) -> bool, rest: seq<Event>) {
    r.Read? && r.value == v && holds(r.next, rest)
  }

  ghost predicate Delivers<D(!new)>(rd: Reader<D>, holds: (D, seq<Event>) -> bool) {
    && (forall d: D, index: nat, bit: Bit, rest: seq<Event> ::
          holds(d, [Model(index, bit)] + rest) ==> Gives(rd.bit(d, index), bit, holds, rest))
    && (forall d: D, bit: Bit, rest: seq<Event> ::
          holds(d, [Direct(bit)] + rest) ==> Gives(rd.direct(d), bit, holds, rest))
  }

  lemma Shift1(ev: Event, a: seq<Event>, b: seq<Event>)
    ensures [ev] + a + b == [ev] + (a + b)
  {
  }

  // ---------------------------------------------------------------- trees

  function LowNode(node: nat, bits: nat): nat
    decreases bits
  {
    if bits == 0 then node else LowNode(2 * node, bits - 1)
  }

  lemma {:induction false} LowNodeMonotone(a: nat, b: nat, bits: nat)
    requires a <= b
    ensures LowNode(a, bits) <= LowNode(b, bits)
    decreases bits
  {
    if bits > 0 {
      LowNodeMonotone(2 * a, 2 * b, bits - 1);
    }
  }

  lemma TreeEdges()
    ensures LowNode(1, 3) == 8 && LowNode(1, 6) == 64 && LowNode(1, 8) == 256
    ensures TopNode(1, 3) == 15 && TopNode(1, 6) == 127 && TopNode(1, 8) == 511
  {
  }

  /** Walks `bits` levels down; the leading one of the node is kept. */
  function ReadTree<D>(rd: Reader<D>, d: D, index: nat, node: nat, bits: nat): (r: Read<D, nat>)
    ensures r.Read? ==> LowNode(node, bits) <= r.value <= TopNode(node, bits)
    decreases bits, node
  {
    if bits == 0 then Read(node, d)
    else
      match rd.bit(d, index + node)
      case Corrupt => Corrupt
      case Read(bit, n) =>
        TopNodeMonotone(2 * node + bit, 2 * node + 1, bits - 1);
        LowNodeMonotone(2 * node, 2 * node + bit, bits - 1);
        ReadTree(rd, n, index, 2 * node + bit, bits - 1)
  }

  /** The leaf a value's top-down bits lead to. */
  function Leaf(node: nat, bits: nat, value: nat): nat
    decreases bits, node
  {
    if bits == 0 then node else Leaf(2 * node + BitAt(value, bits - 1), bits - 1, value)
  }

  lemma {:induction false} LeafIs(node: nat, bits: nat, value: nat)
    ensures Leaf(node, bits, value) == Shl(node, bits) + LowPart(value, bits)
    decreases bits
  {
    if bits > 0 {
      var bit := BitAt(value, bits - 1);
      LeafIs(2 * node + bit, bits - 1, value);
      ShlBit(2 * node, bit, bits - 1);
    }
  }

  lemma LeafOf(bits: nat, value: nat)
    requires value < Pow2(bits)
    ensures Leaf(1, bits, value) == Pow2(bits) + value
  {
    LeafIs(1, bits, value);
    ShlPow(1, bits);
    LowPartIs(value, bits);
  }

  lemma {:induction false} TreeReads<D(!new)>(rd: Reader<D>, holds: (D, seq<Event>) -> bool, d: D,
                                              index: nat, node: nat, bits: nat, value: nat, rest: seq<Event>)
    requires Delivers(rd, holds) && holds(d, TreeEvents(index, node, bits, value) + rest)
    ensures Gives(ReadTree(rd, d, index, node, bits), Leaf(node, bits, value), holds, rest)
    decreases bits
  {
    if bits == 0 {
      assert TreeEvents(index, node, bits, value) + rest == rest;
    } else {
      var bit := BitAt(value, bits - 1);
      var next := TreeEvents(index, 2 * node + bit, bits - 1, value);
      Shift1(Model(index + node, bit), next, rest);
      assert Gives(rd.bit(d, index + node), bit, holds, next + rest);
      TreeReads(rd, holds, rd.bit(d, index + node).next, index, 2 * node + bit, bits - 1, value, rest);
    }
  }

  // ---------------------------------------------------------------- reversed codes

  /** Shifts the bits of a node out of its low end into a value, until only the leading one is left. */
  function ReverseBits(node: nat, acc: nat): nat
    decreases node
  {
    if node / 2 == 0 then acc else ReverseBits(node / 2, 2 * acc + node % 2)
  }

  lemma ReverseBitsStep(node: nat, bit: Bit, acc: nat)
    requires node >= 1
    ensures ReverseBits(2 * node + bit, acc) == ReverseBits(node, 2 * acc + bit)
  {
    assert (2 * node + bit) / 2 == node && (2 * node + bit) % 2 == bit;
  }

  lemma {:induction false} ReverseBitsUndo(value: nat, k: nat, node: nat, acc: nat)
    requires node == ReverseNode(value, k)
    ensures ReverseBits(node, acc) == Shl(acc, k) + LowPart(value, k)
    decreases k
  {
    if k > 0 {
      var bit, up := BitAt(value, k - 1), ReverseNode(value, k - 1);
      ReverseBitsStep(up, bit, acc);
      ReverseBitsUndo(value, k - 1, up, 2 * acc + bit);
      ShlBit(2 * acc, bit, k - 1);
    }
  }

  lemma {:induction false} ReverseWalk<D(!new)>(rd: Reader<D>, holds: (D, seq<Event>) -> bool, d: D, index: nat,
                                                node: nat, i: nat, bits: nat, value: nat, rest: seq<Event>)
    requires i <= bits && node == ReverseNode(value, i)
    requires Delivers(rd, holds) && holds(d, ReverseEvents(index, node, i, bits, value) + rest)
    ensures Gives(ReadTree(rd, d, index, node, bits - i), ReverseNode(value, bits), holds, rest)
    decreases bits - i
  {
    if i == bits {
      assert ReverseEvents(index, node, i, bits, value) + rest == rest;
    } else {
      var bit := BitAt(value, i);
      var next := ReverseEvents(index, 2 * node + bit, i + 1, bits, value);
      Shift1(Model(index + node, bit), next, rest);
      assert Gives(rd.bit(d, index + node), bit, holds, next + rest);
      ReverseWalk(rd, holds, rd.bit(d, index + node).next, index, 2 * node + bit, i + 1, bits, value, rest);
    }
  }

  function ReadReverse<D>(rd: Reader<D>, d: D, index: nat, bits: nat): Read<D, nat> {
    match ReadTree(rd, d, index, 1, bits)
    case Corrupt => Corrupt
    case Read(node, n) => Read(ReverseBits(node, 0), n)
  }

  lemma ReverseReads<D(!new)>(rd: Reader<D>, holds: (D, seq<Event>) -> bool, d: D,
                              index: nat, bits: nat, value: nat, rest: seq<Event>)
    requires Delivers(rd, holds) && value < Pow2(bits)
    requires holds(d, ReverseEvents(index, 1, 0, bits, value) + rest)
    ensures Gives(ReadReverse(rd, d, index, bits), value, holds, rest)
  {
    ReverseWalk(rd, holds, d, index, 1, 0, bits, value, rest);
    ReverseBitsUndo(value, bits, ReverseNode(value, bits), 0);
    ShlPow(0, bits);
    LowPartIs(value, bits);
  }

  // ---------------------------------------------------------------- lengths

  function Plus<D>(r: Read<D, nat>, bias: int): Read<D, int> {
    match r
    case Corrupt => Corrupt
    case Read(value, n) => Read(value + bias, n)
  }

  function ReadLength<D>(rd: Reader<D>, d: D, index: nat): (r: Read<D, int>)
    ensures r.Read? ==> 2 <= r.value <= MAX_MATCH
  {
    TreeEdges();
    match rd.bit(d, index)
    case Corrupt => Corrupt
    case Read(bit, n) =>
      if bit == 0 then Plus(ReadTree(rd, n, index + 2, 1, 3), 2 - 8)
      else ReadLongLength(rd, n, index)
  }

  function ReadLongLength<D>(rd: Reader<D>, d: D, index: nat): (r: Read<D, int>)
    ensures r.Read? ==> 10 <= r.value <= MAX_MATCH
  {
    TreeEdges();
    match rd.bit(d, index + 1)
    case Corrupt => Corrupt
    case Read(bit, n) =>
      if bit == 0 then Plus(ReadTree(rd, n, index + 130, 1, 3), 2 + 8 - 8)
      else Plus(ReadTree(rd, n, index + 258, 1, 8), 2 + 8 + 8 - 256)
  }

  lemma LengthReads<D(!new)>(rd: Reader<D>, holds: (D, seq<Event>) -> bool, d: D,
                             index: nat, length: nat, rest: seq<Event>)
    requires Delivers(rd, holds) && 2 <= length <= MAX_MATCH && holds(d, LengthEvents(index, length) + rest)
    ensures Gives(ReadLength(rd, d, index), length, holds, rest)
  {
    if length < 10 {
      var tree := TreeEvents(index + 2, 1, 3, length - 2);
      Shift1(Model(index, 0), tree, rest);
      assert Gives(rd.bit(d, index), 0, holds, tree + rest);
      TreeReads(rd, holds, rd.bit(d, index).next, index + 2, 1, 3, length - 2, rest);
      PowersOfTwo();
      LeafOf(3, length - 2);
    } else {
      var long := LongLengthEvents(index, length);
      Shift1(Model(index, 1), long, rest);
      assert Gives(rd.bit(d, index), 1, holds, long + rest);
      LongLengthReads(rd, holds, rd.bit(d, index).next, index, length, rest);
    }
  }

  lemma LongLengthReads<D(!new)>(rd: Reader<D>, holds: (D, seq<Event>) -> bool, d: D,
                                 index: nat, length: nat, rest: seq<Event>)
    requires Delivers(rd, holds) && 10 <= length <= MAX_MATCH && holds(d, LongLengthEvents(index, length) + rest)
    ensures Gives(ReadLongLength(rd, d, index), length, holds, rest)
  {
    var n := rd.bit(d, index + 1);
    PowersOfTwo();
    if length < 18 {
      var tree := TreeEvents(index + 130, 1, 3, length - 10);
      Shift1(Model(index + 1, 0), tree, rest);
      assert Gives(n, 0, holds, tree + rest);
      TreeReads(rd, holds, n.next, index + 130, 1, 3, length - 10, rest);
      LeafOf(3, length - 10);
    } else {
      var tree := TreeEvents(index + 258, 1, 8, length - 18);
      Shift1(Model(index + 1, 1), tree, rest);
      assert Gives(n, 1, holds, tree + rest);
      TreeReads(rd, holds, n.next, index + 258, 1, 8, length - 18, rest);
      LeafOf(8, length - 18);
    }
  }

  // ---------------------------------------------------------------- distances

  /** Plain bits from position i - 1 down to 4, set into acc. */
  function ReadDirects<D>(rd: Reader<D>, d: D, i: nat, acc: nat): Read<D, nat>
    decreases i
  {
    if i <= 4 then Read(acc, d)
    else
      match rd.direct(d)
      case Corrupt => Corrupt
      case Read(bit, n) => ReadDirects(rd, n, i - 1, if bit == 0 then acc else acc + Pow2(i - 1))
  }

  /** The number whose bits from 4 up to i - 1 are those of extra. */
  function HighBits(extra: nat, i: nat): nat {
    if i <= 4 then 0 else (if BitAt(extra, i - 1) == 0 then 0 else Pow2(i - 1)) + HighBits(extra, i - 1)
  }

  lemma {:induction false} HighBitsAre(extra: nat, i: nat)
    requires i >= 4
    ensures HighBits(extra, i) + LowPart(extra, 4) == LowPart(extra, i)
  {
    if i > 4 {
      HighBitsAre(extra, i - 1);
    }
  }

  lemma {:induction false} DirectsRead<D(!new)>(rd: Reader<D>, holds: (D, seq<Event>) -> bool, d: D,
                                                extra: nat, i: nat, acc: nat, rest: seq<Event>)
    requires Delivers(rd, holds) && holds(d, DirectEvents(extra, i) + rest)
    ensures Gives(ReadDirects(rd, d, i, acc), acc + HighBits(extra, i), holds, rest)
    decreases i
  {
    if i <= 4 {
      assert DirectEvents(extra, i) + rest == rest;
    } else {
      var bit := BitAt(extra, i - 1);
      Shift1(Direct(bit), DirectEvents(extra, i - 1), rest);
      assert Gives(rd.direct(d), bit, holds, DirectEvents(extra, i - 1) + rest);
      DirectsRead(rd, holds, rd.direct(d).next, extra, i - 1, if bit == 0 then acc else acc + Pow2(i - 1), rest);
    }
  }

  /** The slot's lowest bit with a one put before it, shifted up: where the slot's distances begin. */
  function Base(slot: nat, bits: nat): (base: nat)
    ensures base == SlotBase(slot, bits)
  {
    ShlPow(1, bits);
    ShlAdd(1, 1, bits);
    ShlAdd(2, 1, bits);
    Shl(slot % 2 + 2, bits)
  }

  /** Which of the four slot trees a match of a length uses. */
  function SlotTree(length: nat): (index: nat)
    requires length >= 2
    ensures index == SLOT + LengthState(length) * 64
  {
    DEC_SLOT + (if length - 2 <= 3 then length - 2 else 3) * 64
  }

  /** What follows the slot: nothing, a reversed code, or plain bits and a reversed nibble. */
  function ReadFooter<D>(rd: Reader<D>, d: D, slot: nat): Read<D, int> {
    if slot < 4 then Read(slot, d)
    else
      var bits := slot / 2 - 1;
      var base := Base(slot, bits);
      if slot < 14 then
        SpecialFits(slot, bits);
        Plus(ReadReverse(rd, d, DEC_SPECIAL + base - slot - 1, bits), base)
      else
        match ReadDirects(rd, d, bits, base)
        case Corrupt => Corrupt
        case Read(high, n) => Plus(ReadReverse(rd, n, DEC_ALIGN, 4), high)
  }

  lemma FooterReads<D(!new)>(rd: Reader<D>, holds: (D, seq<Event>) -> bool, d: D, value: nat, rest: seq<Event>)
    requires Delivers(rd, holds) && holds(d, FooterEvents(value) + rest)
    ensures Gives(ReadFooter(rd, d, SlotOf(value)), value, holds, rest)
  {
    var slot, bits := SlotOf(value), ExtraBits(value);
    if value < 4 {
      assert FooterEvents(value) + rest == rest;
    } else {
      SlotSplits(value);
      var extra := value - SlotBase(slot, bits);
      if slot < 14 {
        SpecialFits(slot, bits);
        ShortFooterReads(rd, holds, d, slot, bits, extra, rest);
      } else {
        LongFooterReads(rd, holds, d, slot, bits, extra, rest);
      }
    }
  }

  lemma ShortFooterReads<D(!new)>(rd: Reader<D>, holds: (D, seq<Event>) -> bool, d: D,
                                  slot: nat, bits: nat, extra: nat, rest: seq<Event>)
    requires Delivers(rd, holds) && 4 <= slot < 14 && bits == slot / 2 - 1 && extra < Pow2(bits)
    requires SlotBase(slot, bits) >= slot
    requires holds(d, ReverseEvents(SPECIAL + SlotBase(slot, bits) - slot - 1, 1, 0, bits, extra) + rest)
    ensures Gives(ReadFooter(rd, d, slot), SlotBase(slot, bits) + extra, holds, rest)
  {
    ReverseReads(rd, holds, d, SPECIAL + SlotBase(slot, bits) - slot - 1, bits, extra, rest);
  }

  lemma LongFooterReads<D(!new)>(rd: Reader<D>, holds: (D, seq<Event>) -> bool, d: D,
                                 slot: nat, bits: nat, extra: nat, rest: seq<Event>)
    requires Delivers(rd, holds) && slot >= 14 && bits == slot / 2 - 1 && extra < Pow2(bits)
    requires holds(d, DirectEvents(extra, bits) + ReverseEvents(ALIGN, 1, 0, 4, extra % 16) + rest)
    ensures Gives(ReadFooter(rd, d, slot), SlotBase(slot, bits) + extra, holds, rest)
  {
    var base, tail := SlotBase(slot, bits), ReverseEvents(ALIGN, 1, 0, 4, extra % 16);
    Regroup2(DirectEvents(extra, bits), tail, rest);
    DirectsRead(rd, holds, d, extra, bits, base, tail + rest);
    var high := ReadDirects(rd, d, bits, base);
    Pow2Sixteen();
    ReverseReads(rd, holds, high.next, ALIGN, 4, extra % 16, rest);
    FooterLong(rd, d, slot, bits, high.value, high.next);
    PlusGives(ReadReverse(rd, high.next, ALIGN, 4), high.value, extra % 16, holds, rest);
    ExtraSplits(extra, bits);
  }

  lemma FooterLong<D>(rd: Reader<D>, d: D, slot: nat, bits: nat, high: nat, n: D)
    requires slot >= 14 && bits == slot / 2 - 1 && ReadDirects(rd, d, bits, SlotBase(slot, bits)) == Read(high, n)
    ensures ReadFooter(rd, d, slot) == Plus(ReadReverse(rd, n, ALIGN, 4), high)
  {
  }

  lemma PlusGives<D>(r: Read<D, nat>, bias: int, v: nat, holds: (D, seq<Event>) -> bool, rest: seq<Event>)
    requires Gives(r, v, holds, rest)
    ensures Gives(Plus(r, bias), v + bias, holds, rest)
  {
  }

  lemma Pow2Sixteen()
    ensures Pow2(4) == 16
  {
    PowersOfTwo();
  }

  /** The bits above the nibble and the nibble make up the whole. */
  lemma ExtraSplits(extra: nat, bits: nat)
    requires bits >= 4 && extra < Pow2(bits)
    ensures HighBits(extra, bits) + extra % 16 == extra
  {
    HighBitsAre(extra, bits);
    LowPartIs(extra, bits);
    LowNibble(extra);
  }

  /** One more, in the decoder's 32-bit arithmetic. */
  function Increment(value: int): (r: int)
    ensures 0 <= r < 0x1_0000_0000
    ensures 0 <= value < 0xffff_ffff ==> r == value + 1
  {
    (value + 1) % 0x1_0000_0000
  }

  function ReadDistance<D>(rd: Reader<D>, d: D, length: nat): (r: Read<D, int>)
    requires length >= 2
    ensures r.Read? ==> 0 <= r.value < 0x1_0000_0000
  {
    TreeEdges();
    match ReadTree(rd, d, SlotTree(length), 1, 6)
    case Corrupt => Corrupt
    case Read(node, n) =>
      match ReadFooter(rd, n, node - 64)
      case Corrupt => Corrupt
      case Read(value, m) => Read(Increment(value), m)
  }

  lemma DistanceReads<D(!new)>(rd: Reader<D>, holds: (D, seq<Event>) -> bool, d: D,
                               length: nat, distance: nat, rest: seq<Event>)
    requires Delivers(rd, holds) && length >= 2 && 1 <= distance < 0x1_0000_0000
    requires holds(d, DistanceEvents(length, distance) + rest)
    ensures Gives(ReadDistance(rd, d, length), distance, holds, rest)
  {
    var index, slot, footer := SLOT + LengthState(length) * 64, SlotOf(distance - 1), FooterEvents(distance - 1);
    Regroup2(TreeEvents(index, 1, 6, slot), footer, rest);
    SlotFits(distance);
    SlotReads(rd, holds, d, index, slot, footer + rest);
    var t := ReadTree(rd, d, index, 1, 6);
    FooterReads(rd, holds, t.next, distance - 1, rest);
    DistanceIs(rd, d, length, slot, t.next, distance - 1, ReadFooter(rd, t.next, slot).next);
  }

  lemma DistanceIs<D>(rd: Reader<D>, d: D, length: nat, slot: nat, n: D, value: nat, m: D)
    requires length >= 2 && ReadTree(rd, d, SLOT + LengthState(length) * 64, 1, 6) == Read(64 + slot, n)
    requires ReadFooter(rd, n, slot) == Read(value, m)
    ensures ReadDistance(rd, d, length) == Read(Increment(value), m)
  {
  }

  lemma SlotReads<D(!new)>(rd: Reader<D>, holds: (D, seq<Event>) -> bool, d: D, index: nat, slot: nat, rest: seq<Event>)
    requires Delivers(rd, holds) && slot < 64 && holds(d, TreeEvents(index, 1, 6, slot) + rest)
    ensures Gives(ReadTree(rd, d, index, 1, 6), 64 + slot, holds, rest)
  {
    TreeReads(rd, holds, d, index, 1, 6, slot, rest);
    PowersOfTwo();
    LeafOf(6, slot);
  }

  // ---------------------------------------------------------------- literals

  /** Whether bit 8 of a number is set. */
  function Ninth(m: nat): (b: Bit)
    ensures b == Bit8(m)
    decreases m
  {
    Bit8Is(m);
    m / 256 % 2
  }

  lemma {:induction false} Bit8Is(m: nat)
    ensures Bit8(m) == m / 256 % 2
    decreases m
  {
    if m >= 512 {
      Bit8Is(m - 512);
      assert m / 256 == (m - 512) / 256 + 2;
    }
  }

  /** The decompressor's own choice of a probability: the node, the matched half, and the predicted bit in it. */
  function Predicted(index: nat, node: nat, matched: bool, m: nat): (at: nat)
    ensures at == LiteralIndex(index, node, matched, m)
  {
    (if matched && Ninth(m) == 1 then 256 else 0) + (node + if matched then 256 else 0) + index
  }

  function ReadLiteral<D>(rd: Reader<D>, d: D, index: nat, node: nat, matched: bool, guess: nat): Read<D, Byte>
    requires 1 <= node < 512
    decreases 512 - node
  {
    if node >= 256 then Read(node - 256, d)
    else
      var m := guess * 2;
      match rd.bit(d, Predicted(index, node, matched, m))
      case Corrupt => Corrupt
      case Read(bit, n) => ReadLiteral(rd, n, index, 2 * node + bit, matched && bit == Ninth(m), m)
  }

  /** The node after the top 8 - i bits of a byte. */
  function LiteralNode(byte: Byte, i: nat): (node: nat)
    requires i <= 8
    ensures 1 <= node
    decreases 8 - i
  {
    if i == 8 then 1 else 2 * LiteralNode(byte, i + 1) + BitAt(byte, i)
  }

  lemma {:induction false} LiteralNodeIs(byte: Byte, i: nat)
    requires i <= 8
    ensures LiteralNode(byte, i) == Pow2(8 - i) + Shr(byte, i)
    decreases 8 - i
  {
    if i == 8 {
      PowersOfTwo();
      ShrBound(byte, 8, 0);
    } else {
      LiteralNodeIs(byte, i + 1);
      ShrStep(byte, i);
    }
  }

  lemma LiteralNodeRange(byte: Byte, i: nat)
    requires i <= 8
    ensures i >= 1 ==> LiteralNode(byte, i) < 256
    ensures i == 0 ==> LiteralNode(byte, i) == 256 + byte
  {
    LiteralNodeIs(byte, i);
    PowersOfTwo();
    ShrBound(byte, i, 8 - i);
    if i >= 1 {
      Pow2Monotone(9 - i, 8);
    }
  }

  lemma {:induction false} LiteralReads<D(!new)>(rd: Reader<D>, holds: (D, seq<Event>) -> bool, d: D, index: nat,
                                                 node: nat, matched: bool, guess: nat, byte: Byte, i: nat,
                                                 rest: seq<Event>) returns (last: D)
    requires Delivers(rd, holds) && OnPath(byte, i, node)
    requires holds(d, LiteralEvents(index, node, matched, guess, byte, i) + rest)
    ensures ReadLiteral(rd, d, index, node, matched, guess) == Read(byte, last) && holds(last, rest)
    decreases i
  {
    if i == 0 {
      LiteralLeaf(rd, holds, d, index, node, matched, guess, byte, rest);
      last := d;
    } else {
      var n, matched' := LiteralBitReads(rd, holds, d, index, node, matched, guess, byte, i, rest);
      PathGoesOn(byte, i, node);
      last := LiteralReads(rd, holds, n, index, 2 * node + BitAt(byte, i - 1), matched', guess * 2, byte, i - 1, rest);
    }
  }

  /** At a leaf the byte has been read, and no event of it is left. */
  lemma LiteralLeaf<D(!new)>(rd: Reader<D>, holds: (D, seq<Event>) -> bool, d: D, index: nat, node: nat,
                             matched: bool, guess: nat, byte: Byte, rest: seq<Event>)
    requires node == 256 + byte && holds(d, LiteralEvents(index, node, matched, guess, byte, 0) + rest)
    ensures ReadLiteral(rd, d, index, node, matched, guess) == Read(byte, d) && holds(d, rest)
  {
    assert LiteralEvents(index, node, matched, guess, byte, 0) + rest == rest;
  }

  /** The node that the bits of a byte above the last i lead to: inside the tree, or at the byte's leaf. */
  ghost predicate OnPath(byte: Byte, i: nat, node: nat) {
    i <= 8 && node == LiteralNode(byte, i) && (if i == 0 then node == 256 + byte else 1 <= node < 256)
  }

  lemma PathGoesOn(byte: Byte, i: nat, node: nat)
    requires OnPath(byte, i, node) && i >= 1
    ensures OnPath(byte, i - 1, 2 * node + BitAt(byte, i - 1))
  {
    LiteralNodeRange(byte, i - 1);
  }

  /** One bit of a literal: it is read back, and the rest of the literal is still to come. */
  lemma LiteralBitReads<D(!new)>(rd: Reader<D>, holds: (D, seq<Event>) -> bool, d: D, index: nat, node: nat,
                                 matched: bool, guess: nat, byte: Byte, i: nat, rest: seq<Event>)
    returns (n: D, matched': bool)
    requires Delivers(rd, holds) && i >= 1 && 1 <= node < 256
    requires holds(d, LiteralEvents(index, node, matched, guess, byte, i) + rest)
    ensures ReadLiteral(rd, d, index, node, matched, guess)
         == ReadLiteral(rd, n, index, 2 * node + BitAt(byte, i - 1), matched', guess * 2)
    ensures holds(n, LiteralEvents(index, 2 * node + BitAt(byte, i - 1), matched', guess * 2, byte, i - 1) + rest)
  {
    var bit, m := BitAt(byte, i - 1), guess * 2;
    LiteralReadsOn(rd, holds, d, index, node, matched, m, byte, i, rest);
    n, matched' := rd.bit(d, LiteralIndex(index, node, matched, m)).next, matched && bit == Bit8(m);
    LiteralSteps(rd, d, index, node, matched, guess, bit, n);
  }

  /** Reading a literal takes one bit and goes on from the node below. */
  lemma LiteralSteps<D>(rd: Reader<D>, d: D, index: nat, node: nat, matched: bool, guess: nat, bit: Bit, n: D)
    requires 1 <= node < 256 && rd.bit(d, LiteralIndex(index, node, matched, guess * 2)) == Read(bit, n)
    ensures ReadLiteral(rd, d, index, node, matched, guess)
         == ReadLiteral(rd, n, index, 2 * node + bit, matched && bit == Bit8(guess * 2), guess * 2)
  {
  }

  /** One bit of a literal: it is read back, and the rest of the literal follows. */
  lemma LiteralReadsOn<D(!new)>(rd: Reader<D>, holds: (D, seq<Event>) -> bool, d: D, index: nat, node: nat,
                                matched: bool, m: nat, byte: Byte, i: nat, rest: seq<Event>)
    requires Delivers(rd, holds) && i >= 1
    requires holds(d, [Model(LiteralIndex(index, node, matched, m), BitAt(byte, i - 1))]
                      + LiteralEvents(index, 2 * node + BitAt(byte, i - 1), matched && BitAt(byte, i - 1) == Bit8(m),
                                      m, byte, i - 1)
                      + rest)
    ensures Gives(rd.bit(d, LiteralIndex(index, node, matched, m)), BitAt(byte, i - 1), holds,
                  LiteralEvents(index, 2 * node + BitAt(byte, i - 1), matched && BitAt(byte, i - 1) == Bit8(m),
                                m, byte, i - 1) + rest)
  {
    var bit := BitAt(byte, i - 1);
    var next := LiteralEvents(index, 2 * node + bit, matched && bit == Bit8(m), m, byte, i - 1);
    Shift1(Model(LiteralIndex(index, node, matched, m), bit), next, rest);
  }

  /** A literal after the bytes already out, predicted from the repeat distance after a match. */
  function ReadLiteralAfter<D>(rd: Reader<D>, d: D, out: seq<Byte>, state: nat, rep0: nat): Read<D, Byte>
    requires state >= 7 ==> 1 <= rep0 <= |out|
  {
    var previous: nat := if out == [] then 0 else out[|out| - 1];
    ReadLiteral(rd, d, DEC_LITERAL + previous / 64 * 768, 1, state >= 7, if state >= 7 then out[|out| - rep0] else 0)
  }

  lemma LiteralAtReads<D(!new)>(rd: Reader<D>, holds: (D, seq<Event>) -> bool, d: D,
                                data: seq<Byte>, pos: nat, state: nat, rep0: nat, rest: seq<Event>)
    requires Delivers(rd, holds) && pos < |data| && (state >= 7 ==> 1 <= rep0 <= pos)
    requires holds(d, LiteralAt(data, pos, state, rep0) + rest)
    ensures Gives(ReadLiteralAfter(rd, d, data[..pos], state, rep0), data[pos], holds, rest)
  {
    var previous: nat := if pos > 0 then data[pos - 1] else 0;
    var predicted := if state >= 7 then data[pos - rep0] else 0;
    var index := LITERAL + previous / 64 * 768;
    ReadsAfter(rd, d, data, pos, state, rep0, previous, predicted, index);
    WholeLiteralReads(rd, holds, d, index, state >= 7, predicted, data[pos], 8, rest);
  }

  /** The decompressor takes the literal's context and prediction from the bytes already out. */
  lemma ReadsAfter<D>(rd: Reader<D>, d: D, data: seq<Byte>, pos: nat, state: nat, rep0: nat, previous: nat,
                      predicted: nat, index: nat)
    requires pos < |data| && (state >= 7 ==> 1 <= rep0 <= pos)
    requires previous == if pos > 0 then data[pos - 1] else 0
    requires predicted == if state >= 7 then data[pos - rep0] else 0
    requires index == DEC_LITERAL + previous / 64 * 768
    ensures ReadLiteralAfter(rd, d, data[..pos], state, rep0)
         == ReadLiteral(rd, d, index, 1, state >= 7, predicted)
  {
    var out := data[..pos];
    assert pos > 0 ==> out[|out| - 1] == data[pos - 1];
  }

  /** A literal read from its first bit: the eight of them lead from the root of the tree to a leaf. */
  lemma WholeLiteralReads<D(!new)>(rd: Reader<D>, holds: (D, seq<Event>) -> bool, d: D, index: nat, matched: bool,
                                   predicted: nat, byte: Byte, i: nat, rest: seq<Event>)
    requires Delivers(rd, holds) && i == 8 && holds(d, LiteralEvents(index, 1, matched, predicted, byte, i) + rest)
    ensures Gives(ReadLiteral(rd, d, index, 1, matched, predicted), byte, holds, rest)
  {
    LiteralNodeRange(byte, i);
    var last := LiteralReads(rd, holds, d, index, 1, matched, predicted, byte, i, rest);
  }
}
