/**
 * Reads of a volume through its block cache: a partition or a whole disk on a medium that does not change, read in
 * transfers of the drive's favourite size, the last one cut short at the volume's end.
 */
module Volume {
  import opened Numeral
  import opened Words
  import opened Blocks

  const UNKNOWN: nat := MAX64

  class Vol {
    const xfer: nat
    const sector: nat
    const firstSect: nat
    const sectCount: nat
    const medium: seq<Byte>
    const fault: nat -> bool
    var clock: nat
    var ready: bool
    var cached: nat
    const cache: array<Byte>
    ghost var loaded: nat
    ghost var reach: nat

    /** A volume on a medium, with nothing cached yet. */
    constructor (transfer: nat, sectorSize: nat, first: nat, count: nat, bytes: seq<Byte>, behaviour: nat -> bool)
      requires |bytes| < 0x8000_0000_0000_0000 && first <= MAX64 && count <= MAX64
      ensures Valid() && fresh(cache) && !ready && xfer == transfer && sector == sectorSize && firstSect == first
      ensures sectCount == count && medium == bytes && fault == behaviour
    {
      xfer, sector, firstSect, sectCount, medium, fault := transfer, sectorSize, first, count, bytes, behaviour;
      clock, ready, cached, loaded, reach := 0, false, 0, 0, 0;
      cache := new Byte[Start(transfer, sectorSize)](_ => 0);
    }

    /** What the reading code asks of the drive's parameters. */
    predicate Geometry() {
      xfer > 0 && sector >= 512 && sector % 512 == 0
    }

    function Block(): nat { Start(xfer, sector) }

    /** Where the volume starts on the medium. */
    function Origin(): nat { 512 * firstSect }

    /** One past the last sector the volume has a share in. */
    ghost function EndSector(): nat
      requires Geometry()
    {
      BlockOf(firstSect, sector / 512) + BlockOf(sectCount + sector / 512 - 1, sector / 512)
    }

    /** The volume starts on a sector of the drive. */
    predicate Aligned()
      requires Geometry()
    {
      Start(BlockOf(firstSect, sector / 512), sector / 512) == firstSect
    }

    ghost predicate Valid()
      reads this, cache
    {
      && |medium| < 0x8000_0000_0000_0000 && firstSect <= MAX64 && sectCount <= MAX64
      && (Geometry() ==>
            && cache.Length == Block()
            && (sectCount != UNKNOWN ==> reach <= EndSector())
            && (ready ==> Loaded(cached, loaded, cache[..])))
    }

    /** The cache holds the block's bytes as far as it was read, which is to its end or past the volume's. */
    ghost predicate Loaded(b: nat, n: nat, bytes: seq<Byte>) {
      && n <= |bytes| && Origin() + Start(b, Block()) + n <= |medium|
      && bytes[..n] == medium[Origin() + Start(b, Block())..Origin() + Start(b, Block()) + n]
      && (n == Block() || (sectCount != UNKNOWN && Start(b, Block()) + n >= 512 * sectCount))
    }

    /** Whatever of the volume falls into the block can be copied out of it. */
    lemma LoadedSees(b: nat, n: nat, bytes: seq<Byte>, offset: nat, chunk: nat)
      requires Loaded(b, n, bytes) && 0 < chunk && offset + chunk <= Block() == |bytes|
      requires sectCount != UNKNOWN ==> Start(b, Block()) + offset + chunk <= 512 * sectCount
      ensures Sees(medium, Origin() + Start(b, Block()) + offset, chunk, bytes[offset..offset + chunk])
    {
      PartOfSame(bytes, n, medium, Origin() + Start(b, Block()), offset, chunk);
    }

    /** A transfer cut short was cut at the volume's end. */
    lemma JustLoaded(b: nat, at: nat, count: nat, bytes: seq<Byte>)
      requires Geometry() && |medium| < 0x8000_0000_0000_0000 && |bytes| == Block() && Aligned()
      requires Start(at, sector) == Origin() + Start(b, Block()) && count <= xfer
      requires Start(at + count, sector) <= |medium|
      requires count < xfer ==> sectCount != UNKNOWN && (at + count == MAX64 || at + count == EndSector())
      requires Start(count, sector) <= |bytes| && Start(at, sector) + Start(count, sector) == Start(at + count, sector)
      requires bytes[..Start(count, sector)] == medium[Start(at, sector)..Start(at + count, sector)]
      ensures Loaded(b, Start(count, sector), bytes)
    {
      if count < xfer {
        StartGrows(at + count, sector);
        EndCovers(firstSect, sectCount, sector / 512, sector);
      }
    }

    ghost predicate Healthy()
      reads this
    {
      forall t :: t >= clock ==> !fault(t)
    }

    /** The whole of the volume is on the medium. */
    ghost predicate Complete() {
      && Geometry() && Aligned() && sectCount < UNKNOWN && 512 * sectCount <= MAX64
      && Start(EndSector(), sector) <= |medium|
    }

    /** The drive's transfer: whole sectors, or nothing to rely on. */
    method ReadSectors(at: nat, count: nat) returns (ok: bool)
      requires Geometry() && count <= xfer && cache.Length == Block()
      modifies this`clock, this`reach, cache
      ensures clock >= old(clock) && reach == if at + count > old(reach) then at + count else old(reach)
      ensures ok ==> Start(at + count, sector) <= |medium| && Start(count, sector) <= cache.Length
      ensures ok ==> Start(at, sector) + Start(count, sector) == Start(at + count, sector)
      ensures ok ==> cache[..Start(count, sector)] == medium[Start(at, sector)..Start(at + count, sector)]
      ensures old(Healthy()) ==> (ok <==> Start(at + count, sector) <= |medium|)
    {
      reach := if at + count > reach then at + count else reach;
      ok := !fault(clock) && Start(at + count, sector) <= |medium|;
      clock := clock + 1;
      if ok {
        StartAdds(at, count, sector);
        StartMonotone(count, xfer, sector);
        var n := Start(count, sector);
        for i := 0 to n
          modifies cache
          invariant forall k :: 0 <= k < i ==> cache[k] == medium[Start(at, sector) + k]
        {
          cache[i] := medium[Start(at, sector) + i];
        }
      }
    }

    /** Where a block lies on the drive and how much of it to transfer. */
    method Place(b: nat) returns (ok: bool, at: nat, count: nat)
      requires Geometry() && sectCount <= MAX64
      ensures ok ==> Start(at, sector) == Origin() + Start(b, Block()) && 0 < count <= xfer && Aligned()
      ensures ok && sectCount != UNKNOWN ==> at + count <= EndSector()
      ensures ok && count < xfer ==> sectCount != UNKNOWN && (at + count == MAX64 || at + count == EndSector())
      ensures Complete() && Origin() + Start(b, Block()) < Start(EndSector(), sector) <= MAX64 ==> ok
    {
      var per := sector / 512;
      at, count := 0, xfer;
      BlockIs(firstSect, per);
      if firstSect % per != 0 {
        return false, 0, 0;
      }
      var first, skip := firstSect / per, b * xfer;
      PlaceIs(firstSect, per, sector, b, xfer);
      PlaceFits(first + skip, EndSector(), sector);
      if skip > MAX64 || first + skip > MAX64 {
        return false, 0, 0;
      }
      at := first + skip;
      ok, count := Clip(first, at);
    }

    /** How much to transfer: no more than up to the volume's end, if its size is known. */
    method Clip(first: nat, at: nat) returns (ok: bool, count: nat)
      requires Geometry() && sectCount <= MAX64 && first == BlockOf(firstSect, sector / 512)
      ensures ok ==> 0 < count <= xfer
      ensures ok && sectCount != UNKNOWN ==> at + count <= EndSector()
      ensures ok && count < xfer ==> sectCount != UNKNOWN && (at + count == MAX64 || at + count == EndSector())
      ensures sectCount + sector / 512 - 1 <= MAX64 && at < EndSector() <= MAX64 ==> ok
    {
      var per := sector / 512;
      count := xfer;
      BlockIs(sectCount + per - 1, per);
      if sectCount != UNKNOWN {
        if sectCount + per - 1 > MAX64 {
          return false, 0;
        }
        var sectors := (sectCount + per - 1) / per;
        var end := if first + sectors > MAX64 then MAX64 else first + sectors;
        if at >= end {
          return false, 0;
        }
        if count > end - at {
          count := end - at;
        }
      }
      ok := true;
    }

    /** Brings a block into the cache. */
    method CacheBlock(b: nat) returns (ok: bool)
      requires Valid() && Geometry()
      modifies this`clock, this`ready, this`cached, this`loaded, this`reach, cache
      ensures Valid() && clock >= old(clock) && (ok ==> ready && cached == b)
      ensures old(Healthy()) && Complete() && Origin() + Start(b, Block()) < Start(EndSector(), sector) ==> ok
    {
      if ready && cached == b {
        return true;
      }
      ready := false;
      var at, count;
      ok, at, count := Place(b);
      if !ok {
        return;
      }
      if Complete() && Origin() + Start(b, Block()) < Start(EndSector(), sector) {
        StartMonotone(at + count, EndSector(), sector);
      }
      ok := ReadSectors(at, count);
      if ok {
        loaded := Start(count, sector);
        JustLoaded(b, at, count, cache[..]);
        ready, cached := true, b;
      }
    }

    /** The part of a range that falls into its first block. */
    method ReadChunk(loc: nat, count: nat) returns (ok: bool, part: seq<Byte>)
      requires Valid() && Geometry() && count > 0 && (sectCount != UNKNOWN ==> loc + count <= 512 * sectCount)
      modifies this`clock, this`ready, this`cached, this`loaded, this`reach, cache
      ensures Valid() && clock >= old(clock)
      ensures ok ==> 0 < |part| <= count && Sees(medium, Origin() + loc, |part|, part)
      ensures old(Healthy()) && Complete() ==> ok
    {
      BlockHasRoom();
      var b, offset := Locate(loc, Block());
      if Complete() {
        StartsBeforeEnd(loc, b);
      }
      ok := CacheBlock(b);
      part := [];
      if ok {
        part := CopyOut(b, offset, count);
      }
    }

    lemma BlockHasRoom()
      requires Geometry()
      ensures Block() >= 512
    {
      StartMonotone(1, xfer, sector);
      assert Start(1, sector) == Start(0, sector) + sector;
    }

    /** The block of a byte of the volume starts before the volume's end. */
    lemma StartsBeforeEnd(loc: nat, b: nat)
      requires Complete() && loc < 512 * sectCount && Start(b, Block()) <= loc
      ensures Origin() + Start(b, Block()) < Start(EndSector(), sector)
    {
      EndCovers(firstSect, sectCount, sector / 512, sector);
    }

    /** What of a range lies in the cached block. */
    method CopyOut(b: nat, offset: nat, count: nat) returns (part: seq<Byte>)
      requires Valid() && Geometry() && ready && cached == b && offset < Block() && count > 0
      requires sectCount != UNKNOWN ==> Start(b, Block()) + offset + count <= 512 * sectCount
      ensures 0 < |part| <= count && Sees(medium, Origin() + Start(b, Block()) + offset, |part|, part)
    {
      var chunk := count;
      if chunk > Block() - offset {
        chunk := Block() - offset;
      }
      LoadedSees(b, loaded, cache[..], offset, chunk);
      part := cache[offset..offset + chunk];
    }

    /** Whether a range lies in the volume, as far as its size is known. */
    predicate Bounded(loc: nat, count: nat) {
      sectCount != UNKNOWN ==> 512 * sectCount <= MAX64 && loc < 512 * sectCount && count <= 512 * sectCount - loc
    }

    /** A read is a read of the medium at the volume's place, whatever was cached before. */
    method Read(loc: nat, count: nat) returns (ok: bool, buffer: seq<Byte>)
      requires Valid() && loc <= MAX64 && count <= MAX64
      modifies this`clock, this`ready, this`cached, this`loaded, this`reach, cache
      ensures Valid() && clock >= old(clock)
      ensures ok ==> Geometry() && Bounded(loc, count) && Sees(medium, Origin() + loc, count, buffer)
      ensures old(Healthy()) && Complete() ==> (ok <==> Bounded(loc, count))
    {
      buffer := [];
      if xfer == 0 || sector < 512 || sector % 512 != 0 {
        return false, [];
      }
      if sectCount != UNKNOWN {
        if sectCount * 512 > MAX64 {
          return false, [];
        }
        var partSize := sectCount * 512;
        if loc >= partSize || count > partSize - loc {
          return false, [];
        }
      }
      var progress := 0;
      while progress < count
        invariant progress <= count && Valid() && clock >= old(clock)
        invariant Sees(medium, Origin() + loc, progress, buffer)
      {
        var part;
        ok, part := ReadChunk(loc + progress, count - progress);
        if !ok {
          return;
        }
        SeesMore(medium, Origin() + loc, progress, buffer, |part|, part);
        buffer := buffer + part;
        progress := progress + |part|;
      }
      ok := true;
    }
  }

  /** Parts of equal ranges are equal. */
  lemma PartOfSame(bytes: seq<Byte>, n: nat, medium: seq<Byte>, at: nat, offset: nat, chunk: nat)
    requires n <= |bytes| && at + n <= |medium| && bytes[..n] == medium[at..at + n] && offset + chunk <= n
    ensures bytes[offset..offset + chunk] == medium[at + offset..at + offset + chunk]
  {
    forall k | offset <= k < offset + chunk ensures bytes[k] == medium[at + k] {
      assert bytes[..n][k] == medium[at..at + n][k];
    }
  }

  /** The sectors the volume has a share in hold all of its bytes. */
  lemma EndCovers(firstSect: nat, sectCount: nat, per: nat, sector: nat)
    requires per > 0 && sector == 512 * per && Start(BlockOf(firstSect, per), per) == firstSect
    ensures Start(BlockOf(firstSect, per) + BlockOf(sectCount + per - 1, per), sector)
         >= 512 * firstSect + 512 * sectCount
  {
    var first, sectors := BlockOf(firstSect, per), BlockOf(sectCount + per - 1, per);
    StartAdds(first, sectors, sector);
    StartScales(first, per);
    StartScales(sectors, per);
    BlockEnds(sectCount + per - 1, per);
  }

  lemma {:induction false} BlockEnds(x: nat, block: nat)
    requires block > 0
    ensures x < Start(BlockOf(x, block), block) + block
  {
    if x >= block {
      BlockEnds(x - block, block);
    }
  }

  lemma {:induction false} StartScales(b: nat, per: nat)
    ensures Start(b, 512 * per) == 512 * Start(b, per)
  {
    if b > 0 {
      StartScales(b - 1, per);
    }
  }

  lemma PlaceFits(at: nat, end: nat, sector: nat)
    requires sector >= 512 && sector % 512 == 0
    ensures Start(at, sector) < Start(end, sector) <= MAX64 ==> at < end <= MAX64 / 2 && sector <= MAX64
  {
    StartGrows(end, sector);
    if at < end {
      StartMonotone(1, end, sector);
      assert Start(1, sector) == Start(0, sector) + sector;
    } else {
      StartMonotone(end, at, sector);
    }
  }

  lemma PlaceIs(firstSect: nat, per: nat, sector: nat, b: nat, xfer: nat)
    requires per > 0 && sector == 512 * per && Start(BlockOf(firstSect, per), per) == firstSect
    ensures Start(BlockOf(firstSect, per) + b * xfer, sector) == 512 * firstSect + Start(b, Start(xfer, sector))
  {
    StartAdds(BlockOf(firstSect, per), b * xfer, sector);
    StartIs(b, xfer);
    StartNests(b, xfer, sector);
    StartScales(BlockOf(firstSect, per), per);
  }
}
