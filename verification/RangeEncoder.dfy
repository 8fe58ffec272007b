/**
 * The range encoder of the packer: a 33-bit `low`, one cached byte and a run of pending 0xFF bytes
 * whose value still depends on a carry.
 */
module RangeEncoder {
  import opened Numeral
  import opened IntervalCoder

  /** The carry machinery alone: bytes already out, the byte held back, the run after it, and low. */
  datatype Register = Register(out: seq<Byte>, cache: Byte, pending: nat, low: nat) {

    /** The number all digits spell together, held-back ones included. */
    ghost function Spelled(): nat
      requires pending >= 1
    {
      Num(out + [cache] + Repeat(255, pending - 1)) * 0x1_0000_0000 + low
    }

    /** Adding anything up to w to low is absorbed by the held-back digits. */
    ghost predicate Room(w: nat) {
      && pending >= 1 && 1 <= w && low + w <= 0x2_0000_0000
      && Held(cache, pending - 1) * 0x1_0000_0000 + low + w <= Pow256(pending) * 0x1_0000_0000
    }

    /** What shifting one byte out of low does. */
    function Shifted(): (r: Register)
      requires pending >= 1
      ensures r.pending >= 1 && r.low < 0x1_0000_0000
    {
      var low32 := low % 0x1_0000_0000;
      var carry := low / 0x1_0000_0000;
      if low32 < 0xff00_0000 || carry != 0 then
        Register(out + ([(cache + carry) % 256] + Repeat((255 + carry) % 256, pending - 1)),
                 low32 / 0x100_0000, 1, low32 * 256 % 0x1_0000_0000)
      else
        Register(out, cache, pending + 1, low32 * 256 % 0x1_0000_0000)
    }
  }

  /** The width of the zero half, in the encoder's 32-bit arithmetic. */
  function Bound(range: nat, p: nat): (b: nat)
    requires 0x100_0000 <= range < 0x1_0000_0000 && 31 <= p <= 2017
    ensures b == range / 2048 * p && 0x1_0000 <= b && b + 0x1_0000 <= range
  {
    BoundRange(range, p);
    range / 2048 * p % 0x1_0000_0000
  }

  /** One adaptation step, in the encoder's 16-bit arithmetic. */
  function Moved(p: nat, bit: Bit): (q: nat)
    requires 31 <= p <= 2017
    ensures q == Adapt(p, bit)
  {
    if bit == 0 then (p + (2048 - p) / 32) % 0x1_0000 else (p - p / 32) % 0x1_0000
  }

  /** Splitting low into the byte that leaves and the bytes that stay loses nothing. */
  lemma LowSplit(low: nat)
    requires low < 0x1_0000_0000
    ensures low / 0x100_0000 < 256
    ensures low / 0x100_0000 * 0x1_0000_0000 + low * 256 % 0x1_0000_0000 == low * 256
  {
    var b, rest := low / 0x100_0000, low % 0x100_0000;
    assert low * 256 == b * 0x1_0000_0000 + rest * 256 && rest * 256 < 0x1_0000_0000;
  }

  /** A carry never runs past the cached byte. */
  lemma CarryFits(r: Register, w: nat)
    requires r.Room(w) && r.low >= 0x1_0000_0000
    ensures r.cache < 255
  {
    if r.cache == 255 {
      HeldFull(r.pending - 1);
      assert false;
    }
  }

  /** Writing the held-back digits out with the carry added leaves the spelled number in place. */
  lemma FlushSpells(r: Register, w: nat)
    requires r.Room(w)
    ensures var carry := r.low / 0x1_0000_0000;
            Num(r.out + ([(r.cache + carry) % 256] + Repeat((255 + carry) % 256, r.pending - 1)))
            == Num(r.out + [r.cache] + Repeat(255, r.pending - 1)) + carry
  {
    var k := r.pending - 1;
    if r.low >= 0x1_0000_0000 {
      CarryFits(r, w);
      CarryThrough(r.out, r.cache, k);
      assert r.out + ([r.cache + 1] + Repeat(0, k)) == r.out + [r.cache + 1] + Repeat(0, k);
    } else {
      assert r.out + ([r.cache] + Repeat(255, k)) == r.out + [r.cache] + Repeat(255, k);
    }
  }

  lemma FlushedShift(r: Register, w: nat)
    requires r.Room(w) && w < 0x100_0000 && (r.low % 0x1_0000_0000 < 0xff00_0000 || r.low >= 0x1_0000_0000)
    ensures r.Shifted().Room(w * 256) && r.Shifted().Spelled() == r.Spelled() * 256
  {
    var s := r.Shifted();
    LowSplit(r.low % 0x1_0000_0000);
    FlushSpells(r, w);
    assert Pow256(0) == 1 && Pow256(1) == 256;
    assert s.out + [s.cache] + Repeat(255, 0) == s.out + [s.cache];
    NumSnoc(s.out, s.cache);
  }

  lemma HeldShift(r: Register, w: nat)
    requires r.Room(w) && w < 0x100_0000 && 0xff00_0000 <= r.low < 0x1_0000_0000
    ensures r.Shifted().Room(w * 256) && r.Shifted().Spelled() == r.Spelled() * 256
  {
    var s := r.Shifted();
    LowSplit(r.low);
    NumSnoc(r.out + [r.cache] + Repeat(255, r.pending - 1), 255);
    RepeatSnoc(255, r.pending - 1);
    assert s.out + [s.cache] + Repeat(255, s.pending - 1)
        == r.out + [r.cache] + Repeat(255, r.pending - 1) + [255];
  }

  /** A shift multiplies the spelled number by 256 and produces one more digit. */
  lemma ShiftSpells(r: Register, w: nat)
    requires r.Room(w) && w < 0x100_0000
    ensures r.Shifted().Room(w * 256)
    ensures r.Shifted().Spelled() == r.Spelled() * 256
    ensures |r.Shifted().out| + r.Shifted().pending == |r.out| + r.pending + 1
  {
    if r.low % 0x1_0000_0000 < 0xff00_0000 || r.low >= 0x1_0000_0000 {
      FlushedShift(r, w);
    } else {
      HeldShift(r, w);
    }
  }

  /** c is what a run of decisions makes of the starting interval. */
  ghost predicate Reached(c: Coder, trace: seq<Event>) {
    EventsOk(trace) && c == Run(START, trace)
  }

  lemma ReachedStep(c: Coder, trace: seq<Event>, ev: Event)
    requires Reached(c, trace) && EventOk(ev)
    ensures IntervalCoder.Valid(c) && Reached(Step(c, ev), trace + [ev])
  {
    RunAppend(START, trace, [ev]);
    assert Run(c, [ev]) == Step(c, ev);
  }

  class Encoder {
    var data: seq<Byte>
    var low: nat
    var range: nat
    var pending: nat
    var cache: Byte
    var error: bool
    const probs: array<nat>
    /** The most bytes the allocator will grant. */
    const limit: nat
    /** Every byte put so far, and the ones among them that precede the coded payload. */
    ghost var written: seq<Byte>
    ghost var header: seq<Byte>
    /** Every decision coded so far. */
    ghost var trace: seq<Event>

    /** The bytes put are in the buffer, all of them exactly as long as they fit. */
    ghost predicate Stored()
      reads this
    {
      header <= written && (error <==> |written| > limit) && (!error ==> data == written)
    }

    ghost function Digits(): Register
      reads this
      requires |header| <= |written|
    {
      Register(written[|header|..], cache, pending, low)
    }

    /** Registers and probabilities stand for exactly the interval c. */
    ghost predicate Matches(c: Coder)
      reads this, probs
    {
      && Stored() && probs.Length == PROBS && IntervalCoder.Valid(c)
      && Digits().Room(range)
      && c == Coder(Digits().Spelled(), range, |written| - |header| + pending - 1, probs[..])
    }

    /** Whatever interval the decisions so far lead to, this encoder stands for it. */
    ghost predicate Valid()
      reads this, probs
    {
      Stored() && EventsOk(trace) && forall c: Coder :: Reached(c, trace) ==> Matches(c)
    }

    constructor (limit: nat)
      ensures Stored() && !error && written == [] && header == [] && this.limit == limit
      ensures low == 0 && cache == 0 && probs.Length == PROBS && fresh(probs)
    {
      this.limit := limit;
      data, low, range, pending, cache, error := [], 0, 0, 0, 0, false;
      probs := new nat[PROBS];
      written, header, trace := [], [], [];
    }

    method PutByte(value: Byte)
      requires Stored()
      modifies this`data, this`error, this`written
      ensures Stored() && written == old(written) + [value]
      ensures old(error) ==> error
    {
      written := written + [value];
      if !error {
        if |data| == limit {
          error := true;
        } else {
          data := data + [value];
        }
      }
    }

    method Put32(value: nat)
      requires Stored() && value < 0x1_0000_0000
      modifies this`data, this`error, this`written
      ensures Stored()
      ensures written == old(written)
                         + [value % 256, value / 256 % 256, value / 0x1_0000 % 256, value / 0x100_0000 % 256]
      ensures old(error) ==> error
    {
      PutByte(value % 256);
      PutByte(value / 256 % 256);
      PutByte(value / 0x1_0000 % 256);
      PutByte(value / 0x100_0000 % 256);
    }

    /** Even odds everywhere, the full range, and nothing coded yet. */
    method Begin()
      requires Stored() && probs.Length == PROBS && low == 0 && cache == 0
      modifies this`range, this`pending, this`header, this`trace, probs
      ensures Valid() && trace == [] && header == written
    {
      range := 0xffff_ffff;
      pending := 1;
      header, trace := written, [];
      for i := 0 to PROBS
        invariant forall k :: 0 <= k < i ==> probs[k] == 1024
        modifies probs
      {
        probs[i] := 1024;
      }
      assert probs[..] == EvenOdds();
      StartMatches(this);
    }

    /** Puts the held-back bytes out, the carry added to each. */
    method PutHeld(carry: nat)
      requires Stored() && pending >= 1
      modifies this`data, this`error, this`written, this`pending
      ensures Stored() && pending == 0
      ensures written == old(written) + ([(cache + carry) % 256] + Repeat((255 + carry) % 256, old(pending) - 1))
      ensures old(error) ==> error
    {
      var value: Byte := cache;
      ghost var n, first, fill := pending, (cache + carry) % 256, (255 + carry) % 256;
      PutByte((value + carry) % 256);
      value := 255;
      pending := pending - 1;
      assert written == old(written) + ([first] + Repeat(fill, 0));
      while pending != 0
        invariant pending <= n - 1 && Stored() && value == 255
        invariant written == old(written) + ([first] + Repeat(fill, n - 1 - pending))
        invariant old(error) ==> error
        decreases pending
      {
        RepeatSnoc(fill, n - 1 - pending);
        assert old(written) + ([first] + Repeat(fill, n - 1 - pending)) + [fill]
            == old(written) + ([first] + (Repeat(fill, n - 1 - pending) + [fill]));
        PutByte((value + carry) % 256);
        pending := pending - 1;
      }
    }

    method ShiftLow()
      requires Stored() && pending >= 1 && low < 0x2_0000_0000
      modifies this`data, this`error, this`written, this`pending, this`cache, this`low
      ensures Stored() && pending >= 1 && Digits() == old(Digits()).Shifted()
      ensures old(error) ==> error
    {
      var low32 := low % 0x1_0000_0000;
      var carry := low / 0x1_0000_0000;
      if low32 < 0xff00_0000 || carry != 0 {
        ghost var out, tail := written[|header|..], [(cache + carry) % 256] + Repeat((255 + carry) % 256, pending - 1);
        PutHeld(carry);
        assert written[|header|..] == out + tail;
        cache := low32 / 0x100_0000;
      }
      pending := pending + 1;
      low := low32 * 256 % 0x1_0000_0000;
    }

    method Normalise()
      requires Stored() && 0x1_0000 <= range < 0x1_0000_0000 && Digits().Room(range)
      modifies this`data, this`error, this`written, this`pending, this`cache, this`low, this`range
      ensures Stored() && 0x100_0000 <= range < 0x1_0000_0000 && Digits().Room(range)
      ensures old(range) >= 0x100_0000 ==> range == old(range) && Digits() == old(Digits())
      ensures old(range) < 0x100_0000 ==>
                && range == old(range) * 256
                && Digits().Spelled() == old(Digits().Spelled()) * 256
                && |written| + pending == old(|written| + pending) + 1
      ensures old(error) ==> error
    {
      if range < 0x100_0000 {
        ghost var r, w := Digits(), range;
        ShiftSpells(r, w);
        range := range * 256 % 0x1_0000_0000;
        ShiftLow();
        assert range == w * 256 && Digits() == r.Shifted();
      }
    }

    /** Writes out everything still held back. */
    method Flush()
      requires Valid()
      modifies this`data, this`error, this`written, this`pending, this`cache, this`low
      ensures Stored() && EventsOk(trace) && (old(error) ==> error)
      ensures |written[|header|..]| == Run(START, trace).shifts + 5 && Num(written[|header|..]) == Run(START, trace).low
    {
      ghost var c, r := Run(START, trace), Digits();
      assert Reached(c, trace);
      for i: nat := 0 to 5
        invariant Stored() && pending >= 1 && low < 0x2_0000_0000 && Digits() == ShiftedBy(r, i)
        invariant old(error) ==> error
      {
        ShiftLow();
        assert Digits() == ShiftedBy(r, i + 1);
      }
      FiveShifts(r);
    }

    /** Moves one probability a thirty-second of the way towards the bit just coded. */
    method Learn(index: nat, bit: Bit)
      requires probs.Length == PROBS && ProbsOk(probs[..]) && index < PROBS
      modifies probs
      ensures ProbsOk(probs[..]) && probs[..] == old(probs[..])[index := Adapt(old(probs[index]), bit)]
    {
      var p := probs[index];
      assert p == probs[..][index];
      probs[index] := Moved(p, bit);
      assert probs[..] == old(probs[..])[index := Adapt(p, bit)];
    }

    /** Moves to the chosen side of a decision and renormalises. */
    method Narrow(offset: nat, width: nat, ghost before: Coder, ghost ev: Event)
      requires Stored() && Digits().Room(range)
      requires IntervalCoder.Valid(before) && EventOk(ev)
      requires before.low == Digits().Spelled() && before.range == range
      requires before.shifts == |written| - |header| + pending - 1
      requires Offset(before, ev) == offset && Width(before, ev) == width
      modifies this`data, this`error, this`written, this`pending, this`cache, this`low, this`range
      ensures Stored() && Digits().Room(range)
      ensures Step(before, ev) == Coder(Digits().Spelled(), range, |written| - |header| + pending - 1,
                                        NextProbs(before, ev))
      ensures old(error) ==> error
    {
      AddLow(Digits(), offset, width, range);
      low := low + offset;
      range := width;
      Normalise();
    }

    /** encode_bit on an encoder known to stand for the interval c. */
    method CodeBit(index: nat, bit: Bit, ghost c: Coder)
      requires Matches(c) && index < PROBS
      modifies this`data, this`error, this`written, this`pending, this`cache, this`low, this`range, probs
      ensures Matches(Step(c, Model(index, bit)))
      ensures old(error) ==> error
    {
      ghost var ev := Model(index, bit);
      var bound := Bound(range, probs[index]);
      Learn(index, bit);
      assert probs[..] == NextProbs(c, ev);
      if bit == 0 {
        Narrow(0, bound, c, ev);
      } else {
        Narrow(bound, range - bound, c, ev);
      }
    }

    /** One bit at even odds on an encoder known to stand for the interval c. */
    method CodeDirect(bit: Bit, ghost c: Coder)
      requires Matches(c)
      modifies this`data, this`error, this`written, this`pending, this`cache, this`low, this`range
      ensures Matches(Step(c, Direct(bit)))
      ensures old(error) ==> error
    {
      if bit == 0 {
        Narrow(0, range / 2, c, Direct(bit));
      } else {
        Narrow(range / 2, range / 2, c, Direct(bit));
      }
    }

    method EncodeBit(index: nat, bit: Bit)
      requires Valid() && index < PROBS
      modifies this`data, this`error, this`written, this`pending, this`cache, this`low, this`range, this`trace, probs
      ensures Valid() && trace == old(trace) + [Model(index, bit)]
      ensures old(error) ==> error
    {
      ghost var c := Run(START, trace);
      assert Reached(c, trace);
      CodeBit(index, bit, c);
      ReachedStep(c, trace, Model(index, bit));
      trace := trace + [Model(index, bit)];
    }

    /** One bit at even odds, as the distance coder writes them. */
    method EncodeDirect(bit: Bit)
      requires Valid()
      modifies this`data, this`error, this`written, this`pending, this`cache, this`low, this`range, this`trace
      ensures Valid() && trace == old(trace) + [Direct(bit)]
      ensures old(error) ==> error
    {
      ghost var c := Run(START, trace);
      assert Reached(c, trace);
      CodeDirect(bit, c);
      ReachedStep(c, trace, Direct(bit));
      trace := trace + [Direct(bit)];
    }
  }

  function ShiftedBy(r: Register, n: nat): (s: Register)
    requires r.pending >= 1
    ensures s.pending >= 1
  {
    if n == 0 then r else ShiftedBy(r, n - 1).Shifted()
  }

  lemma TimesPow(a: nat, n: nat)
    requires n >= 1
    ensures a * Pow256(n) == a * Pow256(n - 1) * 256
  {
    var p := Pow256(n - 1);
    assert a * (256 * p) == a * p * 256;
  }

  function LowAfter(low: nat, n: nat): nat {
    if n == 0 then low else LowAfter(low, n - 1) % 0x1_0000_0000 * 256 % 0x1_0000_0000
  }

  /** Shifting with nothing added only moves the number up, and low does not depend on the rest. */
  lemma {:induction false} ShiftsSpell(r: Register, n: nat)
    requires r.Room(1)
    ensures var s := ShiftedBy(r, n);
            && s.Room(1) && s.Spelled() == r.Spelled() * Pow256(n) && s.low == LowAfter(r.low, n)
            && |s.out| + s.pending == |r.out| + r.pending + n
  {
    if n > 0 {
      ShiftsSpell(r, n - 1);
      ShiftSpells(ShiftedBy(r, n - 1), 1);
      TimesPow(r.Spelled(), n);
    } else {
      assert Pow256(0) == 1;
    }
  }

  lemma ClearOne(x: nat)
    ensures x * 256 % 0x1_0000_0000 % 256 == 0
  {
    assert x * 256 % 0x1_0000_0000 == 256 * (x - 0x100_0000 * (x * 256 / 0x1_0000_0000));
  }

  lemma ClearTwo(x: nat)
    requires x % 256 == 0
    ensures x * 256 % 0x1_0000_0000 % 0x1_0000 == 0
  {
    assert x * 256 % 0x1_0000_0000 == 0x1_0000 * (x / 256 - 0x1_0000 * (x * 256 / 0x1_0000_0000));
  }

  lemma ClearThree(x: nat)
    requires x % 0x1_0000 == 0
    ensures x * 256 % 0x1_0000_0000 % 0x100_0000 == 0
  {
    assert x * 256 % 0x1_0000_0000 == 0x100_0000 * (x / 0x1_0000 - 256 * (x * 256 / 0x1_0000_0000));
  }

  lemma ClearFour(x: nat)
    requires x % 0x100_0000 == 0
    ensures x * 256 % 0x1_0000_0000 == 0
  {
    assert x * 256 == 0x1_0000_0000 * (x / 0x100_0000);
  }

  lemma LowAfterStep(low: nat, n: nat)
    requires n >= 1
    ensures LowAfter(low, n) < 0x1_0000_0000 && LowAfter(low, n + 1) == LowAfter(low, n) * 256 % 0x1_0000_0000
  {
  }

  /** Shifting a byte out four times leaves nothing of a 32-bit word. */
  lemma LowClears(low: nat)
    ensures LowAfter(low, 4) == 0
  {
    ClearOne(low % 0x1_0000_0000);
    assert LowAfter(low, 1) == LowAfter(low, 0) % 0x1_0000_0000 * 256 % 0x1_0000_0000;
    LowAfterStep(low, 1);
    ClearTwo(LowAfter(low, 1));
    LowAfterStep(low, 2);
    ClearThree(LowAfter(low, 2));
    LowAfterStep(low, 3);
    ClearFour(LowAfter(low, 3));
  }

  /** Five shifts with nothing added put every digit out: only a zero byte is still held. */
  lemma FiveShifts(r: Register)
    requires r.Room(1)
    ensures var e := ShiftedBy(r, 5);
            |e.out| == |r.out| + r.pending + 4 && Num(e.out) == r.Spelled()
  {
    var e := ShiftedBy(r, 5);
    ShiftsSpell(r, 4);
    LowClears(r.low);
    ShiftsSpell(r, 5);
    Pow256Five();
    assert e.low == 0 && e.cache == 0 && e.pending == 1;
    assert e.out + [e.cache] + Repeat(255, 0) == e.out + [0];
    NumSnoc(e.out, 0);
  }

  lemma Pow256Five()
    ensures Pow256(5) == 0x100_0000_0000
  {
  }

  lemma StartMatches(rc: Encoder)
    requires rc.Stored() && rc.probs.Length == PROBS && rc.low == 0 && rc.cache == 0
    requires rc.range == 0xffff_ffff && rc.pending == 1 && rc.header == rc.written && rc.trace == []
    requires rc.probs[..] == EvenOdds()
    ensures rc.Valid()
  {
    StartSpells();
    assert rc.Digits() == Register([], 0, 1, 0);
    forall c: Coder | Reached(c, []) ensures rc.Matches(c) {
      assert c == START;
    }
  }

  lemma StartSpells()
    ensures Register([], 0, 1, 0).Spelled() == 0 && Register([], 0, 1, 0).Room(0xffff_ffff)
  {
    assert [] + [0] + Repeat(255, 0) == [0];
    NumSnoc([], 0);
    assert [] + [0] == [0];
    assert Pow256(0) == 1 && Pow256(1) == 256;
  }

  /** Moving low up inside the range keeps the room, and moves the spelled number by as much. */
  lemma AddLow(r: Register, d: nat, v: nat, w: nat)
    requires r.Room(w) && d + v <= w && v >= 1
    ensures r.(low := r.low + d).Room(v)
    ensures r.(low := r.low + d).Spelled() == r.Spelled() + d
  {
  }
}
