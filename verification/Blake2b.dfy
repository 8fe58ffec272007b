/**
 * BLAKE2b as a stream: blocks of 128 bytes are compressed only once more input is known to follow, so that the last
 * one, full or not, is left for the end. The compression function itself is a parameter.
 */
module Blake2b {
  import opened Numeral

  /** The compression function: chaining value, block, the two counter words and the final-block flag. */
  type Compress<!H> = (H, seq<Byte>, nat, nat, bool) -> H

  function Pad(block: seq<Byte>): (r: seq<Byte>)
    requires |block| <= 128
    ensures |r| == 128
  {
    block + seq(128 - |block|, _ => 0)
  }

  /** The compression function with its counter as one number. */
  function Mix<H>(f: Compress<H>, h: H, block: seq<Byte>, count: nat, last: bool): H {
    f(h, block, count % 0x1_0000_0000_0000_0000, count / 0x1_0000_0000_0000_0000 % 0x1_0000_0000_0000_0000, last)
  }

  // ---------------------------------------------------------------- the standard

  /** The number of blocks of a message that are not its last, from section 3.3 of RFC 7693. */
  function Before(n: nat): nat { if n == 0 then 0 else (n - 1) / 128 }

  /** The chaining value after the first k blocks. */
  function Chained<H>(f: Compress<H>, iv: H, msg: seq<Byte>, k: nat): H
    requires 128 * k <= |msg|
  {
    if k == 0 then iv else Mix(f, Chained(f, iv, msg, k - 1), msg[128 * (k - 1)..128 * k], 128 * k, false)
  }

  /** The digest by the standard. */
  function Digest<H>(f: Compress<H>, iv: H, msg: seq<Byte>): H {
    var k := Before(|msg|);
    Mix(f, Chained(f, iv, msg, k), Pad(msg[128 * k..]), |msg|, true)
  }

  // ---------------------------------------------------------------- the stream

  /** What the stream holds: chaining value, bytes compressed and bytes waiting. */
  datatype Held<H> = Held(h: H, count: nat, waiting: seq<Byte>)

  /** Compresses while more than a block is waiting. */
  function Settle<H>(f: Compress<H>, s: Held<H>): (r: Held<H>)
    ensures |r.waiting| <= 128
    decreases |s.waiting|
  {
    if |s.waiting| <= 128 then s
    else Settle(f, Held(Mix(f, s.h, s.waiting[..128], s.count + 128, false), s.count + 128, s.waiting[128..]))
  }

  function Finish<H>(f: Compress<H>, s: Held<H>): H
    requires |s.waiting| <= 128
  {
    Mix(f, s.h, Pad(s.waiting), s.count + |s.waiting|, true)
  }

  /** Settling early makes no difference to what is settled later. */
  lemma {:induction false} SettleAppend<H>(f: Compress<H>, s: Held<H>, more: seq<Byte>)
    ensures var r := Settle(f, s);
            Settle(f, s.(waiting := s.waiting + more)) == Settle(f, r.(waiting := r.waiting + more))
    decreases |s.waiting|
  {
    if |s.waiting| > 128 {
      var t := Held(Mix(f, s.h, s.waiting[..128], s.count + 128, false), s.count + 128, s.waiting[128..]);
      SettleAppend(f, t, more);
      assert (s.waiting + more)[..128] == s.waiting[..128];
      assert (s.waiting + more)[128..] == s.waiting[128..] + more;
    }
  }

  /** A first block made up from what is waiting and the start of the data. */
  lemma SettleFirst<H>(f: Compress<H>, h: H, count: nat, waiting: seq<Byte>, data: seq<Byte>, fill: nat)
    requires |waiting| + fill == 128 && fill < |data|
    ensures Settle(f, Held(h, count, waiting + data))
         == Settle(f, Held(Mix(f, h, waiting + data[..fill], count + 128, false), count + 128, data[fill..]))
  {
    var all := waiting + data;
    assert all[..128] == waiting + data[..fill] && all[128..] == data[fill..];
  }

  /** The stream's states are those of the standard's loop. */
  lemma {:induction false} SettleChains<H>(f: Compress<H>, iv: H, msg: seq<Byte>, k: nat)
    requires 128 * k <= |msg| && (k > 0 ==> 128 * k < |msg|)
    ensures Settle(f, Held(iv, 0, msg)) == Settle(f, Held(Chained(f, iv, msg, k), 128 * k, msg[128 * k..]))
  {
    if k == 0 {
      assert msg[0..] == msg;
    } else {
      SettleChains(f, iv, msg, k - 1);
      var s := Held(Chained(f, iv, msg, k - 1), 128 * (k - 1), msg[128 * (k - 1)..]);
      assert s.waiting[..128] == msg[128 * (k - 1)..128 * k] && s.waiting[128..] == msg[128 * k..];
    }
  }

  /** Hashing as a stream gives the standard's digest. */
  lemma StreamDigest<H>(f: Compress<H>, iv: H, msg: seq<Byte>)
    ensures Finish(f, Settle(f, Held(iv, 0, msg))) == Digest(f, iv, msg)
  {
    var k := Before(|msg|);
    SettleChains(f, iv, msg, k);
  }

  // ---------------------------------------------------------------- the code

  lemma Carries(count: nat, inc: nat)
    requires inc <= 128
    ensures var low, high := count % 0x1_0000_0000_0000_0000, count / 0x1_0000_0000_0000_0000 % 0x1_0000_0000_0000_0000;
            var low', high' := (count + inc) % 0x1_0000_0000_0000_0000,
                               (count + inc) / 0x1_0000_0000_0000_0000 % 0x1_0000_0000_0000_0000;
            && low' == (low + inc) % 0x1_0000_0000_0000_0000
            && high' == (high + if low' < inc then 1 else 0) % 0x1_0000_0000_0000_0000
  {
    var q, r := count / 0x1_0000_0000_0000_0000, count % 0x1_0000_0000_0000_0000;
    if r + inc < 0x1_0000_0000_0000_0000 {
      Splits(count + inc, q, r + inc);
    } else {
      Splits(count + inc, q + 1, r + inc - 0x1_0000_0000_0000_0000);
      NextWraps(q);
    }
  }

  lemma Splits(x: nat, q: nat, r: nat)
    requires r < 0x1_0000_0000_0000_0000 && x == 0x1_0000_0000_0000_0000 * q + r
    ensures x / 0x1_0000_0000_0000_0000 == q && x % 0x1_0000_0000_0000_0000 == r
  {
  }

  lemma NextWraps(q: nat)
    ensures (q + 1) % 0x1_0000_0000_0000_0000 == (q % 0x1_0000_0000_0000_0000 + 1) % 0x1_0000_0000_0000_0000
  {
  }

  class Hash<!H> {
    const compress: Compress<H>
    const iv: H
    var h: H
    var t0: nat
    var t1: nat
    const buf: array<Byte>
    var bufLen: nat
    var closed: bool
    ghost var count: nat
    ghost var message: seq<Byte>

    ghost predicate Sound()
      reads this, buf
    {
      && buf.Length == 128 && bufLen <= 128
      && t0 == count % 0x1_0000_0000_0000_0000
      && t1 == count / 0x1_0000_0000_0000_0000 % 0x1_0000_0000_0000_0000
    }

    ghost function State(): Held<H>
      requires Sound()
      reads this, buf
    {
      Held(h, count, buf[..bufLen])
    }

    /** The state is the one the whole message so far leads to, however it came in. */
    ghost predicate Valid()
      reads this, buf
    {
      Sound() && !closed && State() == Settle(compress, Held(iv, 0, message))
    }

    constructor (f: Compress<H>, start: H)
      ensures Valid() && fresh(buf) && message == [] && compress == f && iv == start
    {
      compress, iv, h := f, start, start;
      t0, t1, bufLen, closed, count, message := 0, 0, 0, false, 0, [];
      buf := new Byte[128](_ => 0);
    }

    /** Two words with a carry count as one. */
    method Increment(inc: nat)
      requires Sound() && inc <= 128
      modifies this`t0, this`t1, this`count
      ensures Sound() && count == old(count) + inc
    {
      Carries(count, inc);
      t0 := (t0 + inc) % 0x1_0000_0000_0000_0000;
      t1 := (t1 + if t0 < inc then 1 else 0) % 0x1_0000_0000_0000_0000;
      count := count + inc;
    }

    method CompressBlock(block: seq<Byte>)
      requires Sound() && |block| == 128
      modifies this`h
      ensures Sound() && h == Mix(compress, old(h), block, count, closed)
    {
      h := compress(h, block, t0, t1, closed);
    }

    method Append(data: seq<Byte>)
      requires Sound() && bufLen + |data| <= 128
      modifies this`bufLen, buf
      ensures Sound() && State() == old(State()).(waiting := old(State()).waiting + data)
    {
      var left := bufLen;
      for i := 0 to |data|
        modifies buf
        invariant buf[..left] == old(buf[..left])
        invariant forall k :: 0 <= k < i ==> buf[left + k] == data[k]
      {
        buf[left + i] := data[i];
      }
      bufLen := bufLen + |data|;
      assert buf[..bufLen] == old(buf[..left]) + data;
    }

    /** Completes the waiting block and compresses it. */
    method CompressWaiting(part: seq<Byte>)
      requires Sound() && bufLen + |part| == 128
      modifies this`h, this`t0, this`t1, this`count, this`bufLen, buf
      ensures Sound() && bufLen == 0
      ensures State() == Held(Mix(compress, old(h), old(State()).waiting + part, old(count) + 128, closed),
                              old(count) + 128, [])
    {
      ghost var block := State().waiting + part;
      Append(part);
      assert buf[..] == block;
      bufLen := 0;
      Increment(128);
      CompressBlock(buf[..]);
    }

    /** Compresses whole blocks of the input where they stand, as long as more follows. */
    method CompressInput(data: seq<Byte>) returns (rest: seq<Byte>)
      requires Sound() && bufLen == 0
      modifies this`h, this`t0, this`t1, this`count
      ensures Sound() && |rest| <= 128
      ensures !closed ==> Held(h, count, rest) == Settle(compress, Held(old(h), old(count), data))
    {
      rest := data;
      while |rest| > 128
        invariant Sound()
        invariant !closed ==> Settle(compress, Held(h, count, rest)) == Settle(compress, Held(old(h), old(count), data))
      {
        Increment(128);
        CompressBlock(rest[..128]);
        rest := rest[128..];
      }
    }

    /** Takes in data: the state settles as if everything had been waiting. */
    method Absorb(data: seq<Byte>)
      requires Sound()
      modifies this`h, this`t0, this`t1, this`count, this`bufLen, buf
      ensures Sound()
      ensures !closed ==> State() == Settle(compress, Held(old(h), old(count), old(State()).waiting + data))
    {
      var rest := data;
      if |rest| > 128 - bufLen {
        rest := Fold(rest);
      }
      Append(rest);
      assert [] + rest == rest;
    }

    /** Compresses all but the last block of what is waiting and the data together. */
    method Fold(data: seq<Byte>) returns (rest: seq<Byte>)
      requires Sound() && bufLen + |data| > 128
      modifies this`h, this`t0, this`t1, this`count, this`bufLen, buf
      ensures Sound() && bufLen == 0 && |rest| <= 128
      ensures !closed ==>
                Held(h, count, rest) == Settle(compress, Held(old(h), old(count), old(State()).waiting + data))
    {
      var fill := 128 - bufLen;
      SettleFirst(compress, h, count, State().waiting, data, fill);
      CompressWaiting(data[..fill]);
      rest := CompressInput(data[fill..]);
    }

    /** Takes in data; once the digest is out the state stands for nothing, but stays sound. */
    method Update(data: seq<Byte>)
      requires Sound()
      modifies this, buf
      ensures Sound() && message == old(message) + data && (old(Valid()) ==> Valid())
    {
      if |data| == 0 {
        message := message + data;
        assert message == old(message);
        return;
      }
      SettleAppend(compress, Held(iv, 0, message), data);
      Absorb(data);
      message := message + data;
    }

    method FillZero()
      requires buf.Length == 128 && bufLen <= 128
      modifies buf
      ensures buf[..] == Pad(old(buf[..bufLen]))
    {
      for i := bufLen to 128
        invariant buf[..bufLen] == old(buf[..bufLen]) && forall k :: bufLen <= k < i ==> buf[k] == 0
      {
        buf[i] := 0;
      }
    }

    /** The digest of everything fed in, by the standard. */
    method Final() returns (digest: H)
      requires Valid()
      modifies this`h, this`t0, this`t1, this`count, this`closed, buf
      ensures Sound() && closed && digest == Digest(compress, iv, message)
    {
      StreamDigest(compress, iv, message);
      digest := Close();
    }

    method Close() returns (digest: H)
      requires Sound()
      modifies this`h, this`t0, this`t1, this`count, this`closed, buf
      ensures Sound() && closed && digest == Finish(compress, old(State()))
    {
      Increment(bufLen);
      closed := true;
      FillZero();
      CompressBlock(buf[..]);
      digest := h;
    }
  }

  /** However a message is cut up, the stream ends in the same state. */
  lemma ChunksAgree<H(!new)>(a: Hash<H>, b: Hash<H>)
    requires a.Valid() && b.Valid() && a.compress == b.compress && a.iv == b.iv && a.message == b.message
    ensures a.State() == b.State() && a.t0 == b.t0 && a.t1 == b.t1
  {
  }

  /** A file read through a hash, in order, and compared with a reference at the end. */
  class Filter<!H(==)> {
    const source: seq<Byte>
    const state: Hash<H>
    var pos: nat
    var finalized: bool
    var digest: H
    /** What had been read of the file when the digest was taken. */
    ghost var hashed: seq<Byte>

    ghost predicate Valid()
      reads this, state, state.buf
    {
      && pos <= |source| && state.Sound()
      && (!finalized ==> state.Valid() && state.message == source[..pos])
      && (finalized ==> hashed <= source && digest == Digest(state.compress, state.iv, hashed))
    }

    constructor (file: seq<Byte>, f: Compress<H>, start: H)
      ensures Valid() && fresh(state) && fresh(state.buf) && source == file && pos == 0 && !finalized
      ensures state.compress == f && state.iv == start
    {
      source := file;
      state := new Hash(f, start);
      pos, finalized, digest, hashed := 0, false, start, [];
    }

    /** The next bytes of the file; a read anywhere else is refused. */
    method Read(loc: nat, count: nat) returns (ok: bool, buffer: seq<Byte>)
      requires Valid() && loc + count <= |source|
      modifies this`pos, state, state.buf
      ensures Valid() && (ok <==> loc == old(pos))
      ensures ok ==> buffer == source[loc..loc + count] && pos == loc + count
      ensures !ok ==> pos == old(pos)
    {
      if loc != pos {
        return false, [];
      }
      buffer := source[loc..loc + count];
      state.Update(buffer);
      assert source[..pos] + buffer == source[..pos + count];
      pos := pos + count;
      ok := true;
    }

    /** Whether the bytes read so far have the reference's digest; asking again gives the same digest. */
    method Check(reference: H) returns (same: bool)
      requires Valid()
      modifies this`finalized, this`digest, this`hashed, state, state.buf
      ensures Valid() && finalized && (same <==> digest == reference)
      ensures old(finalized) ==> digest == old(digest)
      ensures !old(finalized) ==> digest == Digest(state.compress, state.iv, source[..pos])
    {
      if !finalized {
        hashed := state.message;
        digest := state.Final();
        finalized := true;
      }
      same := digest == reference;
    }
  }
}
