/**
 * The installer's conversion of a hybrid image from GPT to MBR, and the placement of the boot code on such an image:
 * what is written where, and what that leaves of the partitions.
 */
module GptToMbr {
  import opened Numeral
  import opened Words
  import opened Device
  import opened Blocks

  /** The most that fits: a boot sector, and stage 2 from byte 4096 up to sector 63. */
  const MAX_IMAGE: nat := 28672

  /** What the table's header and the medium say, in logical blocks. */
  datatype Header = Header(block: nat, firstUsable: nat, lastUsable: nat, lastBlock: nat)

  /** A GPT entry; the kind is the MBR type its own type converts to, or -1. */
  datatype GptEntry = GptEntry(used: bool, start: nat, last: nat, kind: int)

  /** An MBR entry, in sectors of 512 bytes. */
  datatype Part = Part(kind: Byte, start: nat, count: nat)

  datatype Result = Refused | TooLow | Parts(parts: seq<Part>)

  predicate KnownBlock(h: Header) { h.block == 512 || h.block == 2048 || h.block == 4096 }

  /** n logical blocks in bytes. */
  function Bytes(n: nat, block: nat): nat {
    if block == 512 then 512 * n else if block == 2048 then 2048 * n else 4096 * n
  }

  /** n logical blocks in sectors. */
  function Sectors(n: nat, block: nat): nat {
    if block == 512 then n else if block == 2048 then 4 * n else 8 * n
  }

  // ---------------------------------------------------------------- which tables are converted

  /** An entry the MBR can hold: ordered, in the usable range and on the medium, within 32 bits of sectors. */
  predicate Convertible(e: GptEntry, h: Header) {
    && e.start <= e.last && h.firstUsable <= e.start && e.last <= h.lastUsable && e.last <= h.lastBlock
    && Sectors(e.start, h.block) <= MAX32 && Sectors(e.last - e.start + 1, h.block) <= MAX32
    && Sectors(e.start, h.block) + Sectors(e.last - e.start + 1, h.block) - 1 <= MAX32
    && 0 <= e.kind < 256
  }

  function Convert(e: GptEntry, h: Header): Part
    requires Convertible(e, h)
  {
    Part(e.kind, Sectors(e.start, h.block), Sectors(e.last - e.start + 1, h.block))
  }

  function UsedOf(entries: seq<GptEntry>): (r: seq<GptEntry>)
    ensures forall e :: e in r <==> e in entries && e.used
  {
    if entries == [] then []
    else UsedOf(entries[..|entries| - 1]) + if entries[|entries| - 1].used then [entries[|entries| - 1]] else []
  }

  /** A table that can be converted: at most four used entries, all convertible. */
  predicate ConvertibleTable(entries: seq<GptEntry>, h: Header) {
    |UsedOf(entries)| <= 4 && forall e :: e in entries && e.used ==> Convertible(e, h)
  }

  /** The entries and their conversions, one for one. */
  ghost predicate Converts(used: seq<GptEntry>, parts: seq<Part>, h: Header) {
    |used| == |parts| && forall k :: 0 <= k < |used| ==> Convertible(used[k], h) && parts[k] == Convert(used[k], h)
  }

  lemma {:induction false} UsedPrefix(entries: seq<GptEntry>, i: nat)
    requires i <= |entries|
    ensures |UsedOf(entries[..i])| <= |UsedOf(entries)|
    decreases |entries|
  {
    if i < |entries| {
      UsedPrefix(entries[..|entries| - 1], i);
      assert entries[..|entries| - 1][..i] == entries[..i];
    } else {
      assert entries[..i] == entries;
    }
  }

  method ConvertOne(e: GptEntry, h: Header) returns (ok: bool, part: Part)
    requires KnownBlock(h)
    ensures ok <==> Convertible(e, h)
    ensures ok ==> part == Convert(e, h)
  {
    part := Part(0, 0, 0);
    if e.last < e.start || e.start < h.firstUsable || e.last > h.lastUsable || e.last > h.lastBlock {
      return false, part;
    }
    var start, count := Sectors(e.start, h.block), Sectors(e.last - e.start + 1, h.block);
    if start > MAX32 || count > MAX32 || start + count - 1 > MAX32 || !(0 <= e.kind < 256) {
      return false, part;
    }
    return true, Part(e.kind, start, count);
  }

  /** The used entries, converted; refused at the first that cannot be, or at a fifth. */
  method GatherParts(entries: seq<GptEntry>, h: Header) returns (ok: bool, parts: seq<Part>)
    requires KnownBlock(h)
    ensures ok <==> ConvertibleTable(entries, h)
    ensures ok ==> Converts(UsedOf(entries), parts, h)
  {
    parts := [];
    for i := 0 to |entries|
      invariant Converts(UsedOf(entries[..i]), parts, h) && |parts| <= 4
    {
      var e := entries[i];
      assert entries[..i + 1][..i] == entries[..i];
      UsedPrefix(entries, i + 1);
      if !e.used {
        continue;
      }
      if |parts| == 4 {
        return false, parts;
      }
      var part;
      ok, part := ConvertOne(e, h);
      if !ok {
        return;
      }
      parts := parts + [part];
    }
    assert entries[..|entries|] == entries;
    ConvertsAll(entries, parts, h);
    ok := true;
  }

  lemma ConvertsAll(entries: seq<GptEntry>, parts: seq<Part>, h: Header)
    requires Converts(UsedOf(entries), parts, h) && |parts| <= 4
    ensures ConvertibleTable(entries, h)
  {
    var used := UsedOf(entries);
    forall e | e in entries && e.used ensures Convertible(e, h) {
      assert e in used;
      var k :| 0 <= k < |used| && used[k] == e;
    }
  }

  /** Gathers the partitions to convert, before anything is written. */
  method Gather(entries: seq<GptEntry>, h: Header) returns (r: Result)
    requires KnownBlock(h)
    ensures r.Refused? <==> !ConvertibleTable(entries, h)
    ensures r.Parts? ==>
              Converts(UsedOf(entries), r.parts, h) && forall k :: 0 <= k < |r.parts| ==> r.parts[k].start >= 63
    ensures r.TooLow? ==> exists e :: e in entries && e.used && Sectors(e.start, h.block) < 63
  {
    var ok, parts := GatherParts(entries, h);
    if !ok {
      return Refused;
    }
    for i := 0 to |parts|
      invariant forall k :: 0 <= k < i ==> parts[k].start >= 63
    {
      if parts[i].start < 63 {
        assert UsedOf(entries)[i] in UsedOf(entries);
        return TooLow;
      }
    }
    return Parts(parts);
  }

  /** The bytes of a partition. */
  predicate InPartition(e: GptEntry, h: Header, x: int) {
    Bytes(e.start, h.block) <= x < Bytes(e.last + 1, h.block)
  }

  /** The MBR entry denotes the same bytes as the GPT entry. */
  lemma SameExtent(e: GptEntry, h: Header, x: int)
    requires KnownBlock(h) && Convertible(e, h)
    ensures var p := Convert(e, h);
            InPartition(e, h, x) <==> 512 * p.start <= x < 512 * (p.start + p.count)
  {
  }

  // ---------------------------------------------------------------- writes that keep clear of a byte

  /** None of the writes touches the byte. */
  predicate Clear(ops: seq<Op>, x: int) {
    forall k :: 0 <= k < |ops| ==> !Inside(ops[k].loc, Extent(ops[k]), x)
  }

  lemma {:induction false} ClearKeeps(view: seq<Byte>, ops: seq<Op>, x: int)
    requires Clear(ops, x) && 0 <= x < |view|
    ensures Effects(view, ops)[x] == view[x]
  {
    if ops != [] {
      ClearKeeps(view, ops[..|ops| - 1], x);
    }
  }

  lemma {:induction false} EffectsAppend(view: seq<Byte>, a: seq<Op>, b: seq<Op>)
    ensures Effects(view, a + b) == Effects(Effects(view, a), b)
  {
    if b == [] {
      assert a + b == a;
    } else {
      EffectsAppend(view, a, b[..|b| - 1]);
      assert (a + b)[..|a + b| - 1] == a + b[..|b| - 1];
    }
  }

  // ---------------------------------------------------------------- erasing the GPTs

  function Zeros(n: nat): (z: seq<Byte>)
    ensures |z| == n && forall k :: 0 <= k < n ==> z[k] == 0
  {
    seq(n, _ => 0)
  }

  /** The blocks of the protective MBR, the header and the entry array, as far as they are not usable ones. */
  function Reserve(h: Header): nat
    requires KnownBlock(h)
  {
    var most := 2 + (16384 + h.block - 1) / h.block;
    var n := if h.firstUsable < most then h.firstUsable else most;
    if n < 2 then 2 else n
  }

  /** The alternate header and its entry array. */
  function AltReserve(h: Header): nat
    requires KnownBlock(h)
  {
    1 + (16384 + h.block - 1) / h.block
  }

  /**
   * Both reserves are the fewest blocks that hold their headers and the 16384 bytes of the entry array; the primary one
   * is cut short at the first usable block, but not below two.
   */
  lemma ReservesAre(h: Header)
    requires KnownBlock(h)
    ensures Reserve(h) >= 2 && (Reserve(h) > 2 ==> Reserve(h) <= h.firstUsable)
    ensures Bytes(Reserve(h) - 1, h.block) < 2 * h.block + 16384
    ensures h.firstUsable > Reserve(h) ==> Bytes(Reserve(h), h.block) >= 2 * h.block + 16384
    ensures Bytes(AltReserve(h) - 1, h.block) < h.block + 16384 <= Bytes(AltReserve(h), h.block)
  {
  }

  /** Erases the blocks from first to last. */
  function Erase(h: Header, first: nat, end: nat): seq<Op>
    decreases end
  {
    if end <= first then [] else Erase(h, first, end - 1) + [Put(Bytes(end - 1, h.block), Zeros(h.block))]
  }

  /** An erase stays within its blocks. */
  lemma {:induction false} EraseWithin(h: Header, first: nat, end: nat, x: int)
    requires KnownBlock(h) && !(Bytes(first, h.block) <= x < Bytes(end, h.block))
    ensures Clear(Erase(h, first, end), x)
    decreases end
  {
    if first < end {
      EraseWithin(h, first, end - 1, x);
    }
  }

  /** And leaves zeros in all of them. */
  lemma {:induction false} EraseZeros(view: seq<Byte>, h: Header, first: nat, end: nat, x: int)
    requires KnownBlock(h) && Bytes(first, h.block) <= x < Bytes(end, h.block) <= |view|
    ensures Effects(view, Erase(h, first, end))[x] == 0
    decreases end
  {
    var ops := Erase(h, first, end);
    assert ops[..|ops| - 1] == Erase(h, first, end - 1);
    if x < Bytes(end - 1, h.block) {
      EraseZeros(view, h, first, end - 1, x);
    }
  }

  // ---------------------------------------------------------------- the alternate tables

  /** A run of blocks to erase, up to an alternate header. */
  datatype Wipe = Wipe(first: nat, last: nat)

  /** Where an alternate header may be: where the header says, and at the end of the medium. */
  function Candidates(h: Header, named: nat): (blocks: seq<nat>)
    requires KnownBlock(h)
    ensures |blocks| <= 2 && forall k :: 0 <= k < |blocks| ==> blocks[k] >= AltReserve(h)
  {
    (if named >= AltReserve(h) then [named] else [])
    + if h.lastBlock >= AltReserve(h) && !(named >= AltReserve(h) && named == h.lastBlock) then [h.lastBlock] else []
  }

  lemma CandidatesAre(h: Header, named: nat, c: nat)
    requires KnownBlock(h)
    ensures c in Candidates(h, named) <==> c >= AltReserve(h) && (c == named || c == h.lastBlock)
    ensures |Candidates(h, named)| == 2 ==> Candidates(h, named)[0] != Candidates(h, named)[1]
  {
  }

  /** The run to erase for a header at block c: its array ahead of it, as far as that is not usable. */
  function WipeOf(h: Header, c: nat): Wipe
    requires KnownBlock(h) && c >= AltReserve(h)
  {
    var first := c - (AltReserve(h) - 1);
    Wipe(if first <= h.lastUsable then h.lastUsable + 1 else first, c)
  }

  /** It is the reserve's blocks up to the header that lie past the last usable one. */
  lemma WipeIs(h: Header, c: nat, b: nat)
    requires KnownBlock(h) && c >= AltReserve(h)
    ensures WipeOf(h, c).first <= b <= WipeOf(h, c).last <==> b <= c < b + AltReserve(h) && h.lastUsable < b
  {
  }

  /** The runs for those of the blocks that carry a header, in turn. */
  function WipesOf(h: Header, blocks: seq<nat>, probe: nat -> bool): (wipes: seq<Wipe>)
    requires KnownBlock(h) && forall k :: 0 <= k < |blocks| ==> blocks[k] >= AltReserve(h)
    ensures |wipes| <= |blocks|
    ensures forall w :: w in wipes ==>
              w.last in blocks && probe(w.last) && w.last >= AltReserve(h) && w == WipeOf(h, w.last)
    ensures forall c :: c in blocks && probe(c) ==> WipeOf(h, c) in wipes
  {
    if blocks == [] then []
    else
      var n := |blocks| - 1;
      WipesOf(h, blocks[..n], probe) + if probe(blocks[n]) then [WipeOf(h, blocks[n])] else []
  }

  /** The runs to erase for the alternate headers there are. */
  function Wipes(h: Header, named: nat, probe: nat -> bool): (wipes: seq<Wipe>)
    requires KnownBlock(h)
    ensures |wipes| <= 2
    ensures forall w :: w in wipes ==>
              w.last in Candidates(h, named) && probe(w.last) && w.last >= AltReserve(h) && w == WipeOf(h, w.last)
    ensures forall c :: c in Candidates(h, named) && probe(c) ==> WipeOf(h, c) in wipes
  {
    WipesOf(h, Candidates(h, named), probe)
  }

  /** Settles what to erase, given which candidates carry a header; fails if one lies in the usable range. */
  method PlanWipes(h: Header, named: nat, probe: nat -> bool) returns (ok: bool, wipes: seq<Wipe>)
    requires KnownBlock(h)
    ensures ok <==> forall c :: c in Candidates(h, named) && probe(c) ==> h.lastUsable < c
    ensures ok ==> wipes == Wipes(h, named, probe)
  {
    ok, wipes := PlanRuns(h, Candidates(h, named), probe);
  }

  method PlanRuns(h: Header, alternates: seq<nat>, probe: nat -> bool) returns (ok: bool, wipes: seq<Wipe>)
    requires KnownBlock(h) && forall k :: 0 <= k < |alternates| ==> alternates[k] >= AltReserve(h)
    ensures ok <==> forall c :: c in alternates && probe(c) ==> h.lastUsable < c
    ensures ok ==> wipes == WipesOf(h, alternates, probe)
  {
    wipes := [];
    for i := 0 to |alternates|
      invariant wipes == WipesOf(h, alternates[..i], probe)
      invariant forall k :: 0 <= k < i && probe(alternates[k]) ==> h.lastUsable < alternates[k]
    {
      var alt := alternates[i];
      assert alternates[..i + 1][..i] == alternates[..i];
      if !probe(alt) {
        continue;
      }
      if h.lastUsable >= alt {
        assert alt in alternates;
        return false, [];
      }
      var w := PlanRun(h, alt);
      wipes := wipes + [w];
    }
    assert alternates[..|alternates|] == alternates;
    ok := true;
  }

  method PlanRun(h: Header, alt: nat) returns (w: Wipe)
    requires KnownBlock(h) && alt >= AltReserve(h)
    ensures w == WipeOf(h, alt)
  {
    var first := alt - (AltReserve(h) - 1);
    if first <= h.lastUsable {
      first := h.lastUsable + 1;
    }
    w := Wipe(first, alt);
  }

  lemma WipesAbove(h: Header, named: nat, probe: nat -> bool)
    requires KnownBlock(h) && forall c :: c in Candidates(h, named) && probe(c) ==> h.lastUsable < c
    ensures forall w :: w in Wipes(h, named, probe) ==> h.lastUsable < w.first <= w.last < w.first + AltReserve(h)
  {
  }

  function WipeOps(h: Header, wipes: seq<Wipe>): seq<Op> {
    if wipes == [] then []
    else WipeOps(h, wipes[..|wipes| - 1]) + Erase(h, wipes[|wipes| - 1].first, wipes[|wipes| - 1].last + 1)
  }

  lemma {:induction false} WipesWithin(h: Header, wipes: seq<Wipe>, x: int)
    requires KnownBlock(h) && x < Bytes(h.lastUsable + 1, h.block) && forall w :: w in wipes ==> h.lastUsable < w.first
    ensures Clear(WipeOps(h, wipes), x)
  {
    if wipes != [] {
      var w := wipes[|wipes| - 1];
      WipesWithin(h, wipes[..|wipes| - 1], x);
      EraseWithin(h, w.first, w.last + 1, x);
    }
  }

  // ---------------------------------------------------------------- the table written

  function EntryAt(i: nat): nat { 446 + 16 * i }

  /** The writes of one table entry. */
  function EntryOps(p: Part, i: nat): seq<Op> {
    FieldOps(EntryAt(i), p.kind, Le32(p.start), Le32(p.count), Chs(p.start), Chs(p.start + p.count - 1))
  }

  function FieldOps(at: nat, kind: Byte, start: seq<Byte>, count: seq<Byte>, first: seq<Byte>,
                    last: seq<Byte>): seq<Op> {
    [Put(at + 4, [kind]), Put(at + 8, start), Put(at + 12, count), Put(at + 1, first), Put(at + 5, last)]
  }

  /** Head, sector with the two high bits of the cylinder, and cylinder; a fixed value for what is too far out. */
  function Chs(sector: int): (r: seq<Byte>)
    ensures |r| == 3
  {
    if sector < 0 || sector > 63 * 255 * 1024 || sector / (255 * 63) >= 1024 then [0xfe, 0xff, 0xff]
    else
      var cylinder := sector / (255 * 63);
      [sector / 63 % 255, cylinder / 256 * 64 + (sector % 63 + 1), cylinder % 256]
  }

  /** The address is the sector's: heads of 63 sectors and cylinders of 255 heads. */
  lemma ChsReads(sector: nat)
    requires sector < 1024 * 255 * 63
    ensures var a := Chs(sector);
            var head: nat, mixed: nat, low: nat := a[0], a[1], a[2];
            ((mixed / 64 * 256 + low) * 255 + head) * 63 + (mixed % 64 - 1) == sector && 1 <= mixed % 64 <= 63
  {
    var cylinder, track := sector / (255 * 63), sector / 63;
    assert cylinder == track / 255;
    assert cylinder == cylinder / 256 * 256 + cylinder % 256;
  }

  function TableOps(parts: seq<Part>, n: nat): seq<Op>
    requires n <= |parts|
  {
    if n == 0 then [] else TableOps(parts, n - 1) + EntryOps(parts[n - 1], n - 1)
  }

  /** A table entry as the MBR's readers see it. */
  function ReadPart(view: seq<Byte>, i: nat): Part
    requires EntryAt(i) + 16 <= |view|
  {
    Part(view[EntryAt(i) + 4], FromLe32(view[EntryAt(i) + 8..EntryAt(i) + 12]),
         FromLe32(view[EntryAt(i) + 12..EntryAt(i) + 16]))
  }

  /** The entry holds the part, with the addresses of its first and last sector. */
  predicate EntryIs(view: seq<Byte>, i: nat, p: Part)
    requires EntryAt(i) + 16 <= |view|
  {
    && ReadPart(view, i) == p && view[EntryAt(i) + 1..EntryAt(i) + 4] == Chs(p.start)
    && view[EntryAt(i) + 5..EntryAt(i) + 8] == Chs(p.start + p.count - 1)
  }

  lemma EntryWritten(view: seq<Byte>, p: Part, i: nat)
    requires i < 4 && |view| >= 512 && p.start <= MAX32 && p.count <= MAX32
    ensures EntryIs(Effects(view, EntryOps(p, i)), i, p)
    ensures forall x :: 0 <= x < |view| && !Inside(EntryAt(i) + 1, 15, x) ==>
              Effects(view, EntryOps(p, i))[x] == view[x]
  {
    var start, count, first, last := Le32(p.start), Le32(p.count), Chs(p.start), Chs(p.start + p.count - 1);
    var v := Effects(view, EntryOps(p, i));
    EntryPatches(view, EntryOps(p, i), v, EntryAt(i), p.kind, start, count, first, last);
    EntryHolds(v, i, p);
  }

  lemma EntryPatches(view: seq<Byte>, ops: seq<Op>, v: seq<Byte>, at: nat, kind: Byte, start: seq<Byte>,
                     count: seq<Byte>, first: seq<Byte>, last: seq<Byte>)
    requires v == Effects(view, ops)
    requires |start| == |count| == 4 && |first| == |last| == 3 && at + 16 <= |view|
    requires ops == FieldOps(at, kind, start, count, first, last)
    ensures && v[at + 4] == kind && v[at + 8..at + 12] == start && v[at + 12..at + 16] == count
            && v[at + 1..at + 4] == first && v[at + 5..at + 8] == last
            && forall x :: 0 <= x < |view| && !Inside(at + 1, 15, x) ==> v[x] == view[x]
  {
    FiveEffects(view, ops);
    EntryLayers(view, v, at, kind, start, count, first, last);
  }

  function FivePatches(view: seq<Byte>, at: nat, kind: Byte, start: seq<Byte>, count: seq<Byte>, first: seq<Byte>,
                       last: seq<Byte>): (v: seq<Byte>)
    requires |start| == |count| == 4 && |first| == |last| == 3 && at + 16 <= |view|
    ensures |v| == |view|
  {
    Patch(Patch(Patch(Patch(Patch(view, at + 4, [kind]), at + 8, start), at + 12, count), at + 1, first), at + 5, last)
  }

  lemma EntryLayers(view: seq<Byte>, v: seq<Byte>, at: nat, kind: Byte, start: seq<Byte>, count: seq<Byte>,
                    first: seq<Byte>, last: seq<Byte>)
    requires |start| == |count| == 4 && |first| == |last| == 3 && at + 16 <= |view|
    requires v == FivePatches(view, at, kind, start, count, first, last)
    ensures && v[at + 4] == kind && v[at + 8..at + 12] == start && v[at + 12..at + 16] == count
            && v[at + 1..at + 4] == first && v[at + 5..at + 8] == last
            && forall x :: 0 <= x < |view| && !(at < x < at + 16) ==> v[x] == view[x]
  {
  }

  lemma EntryHolds(v: seq<Byte>, i: nat, p: Part)
    requires EntryAt(i) + 16 <= |v| && p.start <= MAX32 && p.count <= MAX32
    requires var at := EntryAt(i);
             && v[at + 4] == p.kind && v[at + 8..at + 12] == Le32(p.start) && v[at + 12..at + 16] == Le32(p.count)
             && v[at + 1..at + 4] == Chs(p.start) && v[at + 5..at + 8] == Chs(p.start + p.count - 1)
    ensures EntryIs(v, i, p)
  {
    Le32Reads(p.start);
    Le32Reads(p.count);
  }

  lemma FiveEffects(view: seq<Byte>, ops: seq<Op>)
    requires |ops| == 5
    ensures Effects(view, ops) == Effect(Effect(Effect(Effect(Effect(view, ops[0]), ops[1]), ops[2]), ops[3]), ops[4])
  {
    assert ops[..4][..3] == ops[..3] && ops[..3][..2] == ops[..2] && ops[..2][..1] == ops[..1] && ops[..1][..0] == [];
    assert Effects(view, ops[..1]) == Effect(view, ops[0]);
    assert Effects(view, ops[..2]) == Effect(Effects(view, ops[..1]), ops[1]);
    assert Effects(view, ops[..3]) == Effect(Effects(view, ops[..2]), ops[2]);
    assert Effects(view, ops[..4]) == Effect(Effects(view, ops[..3]), ops[3]);
  }

  /** The first n entries are in the table, and nothing else has changed. */
  ghost predicate Listed(v: seq<Byte>, view: seq<Byte>, parts: seq<Part>, n: nat) {
    && n <= |parts| <= 4 && |v| == |view| >= 512
    && (forall i :: 0 <= i < n ==> EntryIs(v, i, parts[i]))
    && (forall x :: 0 <= x < |view| && !(446 <= x < 446 + 16 * n) ==> v[x] == view[x])
    && (forall i :: 0 <= i < 4 ==> v[EntryAt(i)] == view[EntryAt(i)])
  }

  lemma ListedMore(v: seq<Byte>, v': seq<Byte>, view: seq<Byte>, parts: seq<Part>, n: nat)
    requires Listed(v, view, parts, n) && n < |parts| && |v'| == |v| && EntryIs(v', n, parts[n])
    requires forall x :: 0 <= x < |v| && !Inside(EntryAt(n) + 1, 15, x) ==> v'[x] == v[x]
    ensures Listed(v', view, parts, n + 1)
  {
    forall i | 0 <= i < n ensures EntryIs(v', i, parts[i]) {
      SameEntry(v, v', i, parts[i]);
    }
  }

  lemma {:induction false} TableWritten(view: seq<Byte>, parts: seq<Part>, n: nat)
    requires n <= |parts| <= 4 && |view| >= 512
    requires forall k :: 0 <= k < |parts| ==> parts[k].start <= MAX32 && parts[k].count <= MAX32
    ensures Listed(Effects(view, TableOps(parts, n)), view, parts, n)
  {
    if n > 0 {
      TableWritten(view, parts, n - 1);
      var before := Effects(view, TableOps(parts, n - 1));
      EffectsAppend(view, TableOps(parts, n - 1), EntryOps(parts[n - 1], n - 1));
      EntryWritten(before, parts[n - 1], n - 1);
      ListedMore(before, Effects(before, EntryOps(parts[n - 1], n - 1)), view, parts, n - 1);
    }
  }

  lemma SamePart(a: seq<Byte>, b: seq<Byte>, i: nat)
    requires |a| == |b| && EntryAt(i) + 16 <= |a| && forall x :: EntryAt(i) < x < EntryAt(i) + 16 ==> a[x] == b[x]
    ensures ReadPart(a, i) == ReadPart(b, i)
  {
    assert a[EntryAt(i) + 8..EntryAt(i) + 12] == b[EntryAt(i) + 8..EntryAt(i) + 12];
    assert a[EntryAt(i) + 12..EntryAt(i) + 16] == b[EntryAt(i) + 12..EntryAt(i) + 16];
  }

  lemma SameEntry(a: seq<Byte>, b: seq<Byte>, i: nat, p: Part)
    requires |a| == |b| && EntryAt(i) + 16 <= |a| && forall x :: EntryAt(i) < x < EntryAt(i) + 16 ==> a[x] == b[x]
    ensures EntryIs(a, i, p) <==> EntryIs(b, i, p)
  {
    SamePart(a, b, i);
    assert a[EntryAt(i) + 1..EntryAt(i) + 4] == b[EntryAt(i) + 1..EntryAt(i) + 4];
    assert a[EntryAt(i) + 5..EntryAt(i) + 8] == b[EntryAt(i) + 5..EntryAt(i) + 8];
  }

  // ---------------------------------------------------------------- the conversion

  /** Everything the erase writes. */
  function EraseOps(h: Header, wipes: seq<Wipe>): seq<Op>
    requires KnownBlock(h)
  {
    Erase(h, 0, Reserve(h)) + WipeOps(h, wipes)
  }

  /** What is erased is neither usable nor, for a partition that starts late enough, part of it. */
  lemma EraseKeeps(view: seq<Byte>, h: Header, wipes: seq<Wipe>, e: GptEntry, x: int)
    requires KnownBlock(h) && Convertible(e, h) && Sectors(e.start, h.block) >= 63
    requires forall w :: w in wipes ==> h.lastUsable < w.first
    requires InPartition(e, h, x) && 0 <= x < |view|
    ensures Effects(view, EraseOps(h, wipes))[x] == view[x]
  {
    assert Bytes(Reserve(h), h.block) <= x;
    EraseWithin(h, 0, Reserve(h), x);
    WipesWithin(h, wipes, x);
    EffectsAppend(view, Erase(h, 0, Reserve(h)), WipeOps(h, wipes));
    ClearKeeps(view, Erase(h, 0, Reserve(h)), x);
    ClearKeeps(Effects(view, Erase(h, 0, Reserve(h))), WipeOps(h, wipes), x);
  }

  /** The old first sector is gone. */
  lemma EraseClears(view: seq<Byte>, h: Header, wipes: seq<Wipe>, x: int)
    requires KnownBlock(h) && Bytes(Reserve(h), h.block) <= |view| && 0 <= x < 512
    requires forall w :: w in wipes ==> h.lastUsable < w.first
    ensures Effects(view, EraseOps(h, wipes))[x] == 0
  {
    EffectsAppend(view, Erase(h, 0, Reserve(h)), WipeOps(h, wipes));
    EraseZeros(view, h, 0, Reserve(h), x);
    WipesWithin(h, wipes, x);
    ClearKeeps(Effects(view, Erase(h, 0, Reserve(h))), WipeOps(h, wipes), x);
  }

  /** The disk identifier, byte by byte. */
  function IdOps(id: seq<Byte>): seq<Op>
    requires |id| == 4
  {
    [Put(0x1b8, [id[0]]), Put(0x1b9, [id[1]]), Put(0x1ba, [id[2]]), Put(0x1bb, [id[3]])]
  }

  /** Everything the conversion writes. */
  function ConversionOps(h: Header, plan: Plan): seq<Op>
    requires KnownBlock(h) && |plan.id| == 4
  {
    EraseOps(h, plan.wipes)
    + (IdOps(plan.id) + (TableOps(plan.parts, |plan.parts|) + [Put(510, [0x55, 0xaa])]))
  }

  /** What is settled before the first write. */
  datatype Plan = Plan(wipes: seq<Wipe>, parts: seq<Part>, id: seq<Byte>)

  ghost predicate Sound(h: Header, plan: Plan) {
    && KnownBlock(h) && |plan.id| == 4 && |plan.parts| <= 4 && (forall w :: w in plan.wipes ==> h.lastUsable < w.first)
    && forall k :: 0 <= k < |plan.parts| ==> plan.parts[k].start <= MAX32 && plan.parts[k].count <= MAX32
  }

  /** The magic number of an ext file system, which the checks of a finished MBR look for. */
  predicate Magic(view: seq<Byte>) { |view| >= 1082 && view[1080] == 0x53 && view[1081] == 0xef }

  /** What forcing an installation mends of a converted medium: that magic number, if it is there. */
  function MendOps(view: seq<Byte>, force: bool): seq<Op> {
    if force && Magic(view) then [Put(1080, [0, 0])] else []
  }

  /** The mended medium with the active flag. */
  function Marked(view: seq<Byte>, force: bool): (v: seq<Byte>)
    ensures |v| == |view|
  {
    Effect(Effects(view, MendOps(view, force)), Put(446, [0x80]))
  }

  /** After the conversion: what forcing mends, and the active flag. */
  function ConvertedView(view: seq<Byte>, h: Header, plan: Plan, force: bool): (v: seq<Byte>)
    requires KnownBlock(h) && |plan.id| == 4
    ensures |v| == |view|
  {
    Marked(Effects(view, ConversionOps(h, plan)), force)
  }

  lemma MarkedKeeps(view: seq<Byte>, force: bool, x: int)
    requires 0 <= x < |view| && x != 446 && !(force && Magic(view) && 1080 <= x < 1082)
    ensures Marked(view, force)[x] == view[x]
  {
    if force && Magic(view) {
      OneEffect(view, Put(1080, [0, 0]));
    }
  }

  /** The entries are in the table, and besides the identifier and the signature nothing else has changed. */
  ghost predicate Tabled(v: seq<Byte>, erased: seq<Byte>, parts: seq<Part>) {
    && |parts| <= 4 && |v| == |erased| >= 512 && (forall i :: 0 <= i < |parts| ==> EntryIs(v, i, parts[i]))
    && (forall i :: 0 <= i < 4 ==> v[EntryAt(i)] == erased[EntryAt(i)]) && v[510] == 0x55 && v[511] == 0xaa
    && forall x :: 0 <= x < |v| && !(440 <= x < 444) && !(446 <= x < 446 + 16 * |parts|) && !(510 <= x < 512) ==>
         v[x] == erased[x]
  }

  lemma FourLayers(view: seq<Byte>, a: seq<Op>, b: seq<Op>, c: seq<Op>, d: Op)
    ensures Effects(view, a + (b + (c + [d]))) == Effect(Effects(Effects(Effects(view, a), b), c), d)
  {
    EffectsAppend(view, a, b + (c + [d]));
    EffectsAppend(Effects(view, a), b, c + [d]);
    EffectsAppend(Effects(Effects(view, a), b), c, [d]);
    OneEffect(Effects(Effects(Effects(view, a), b), c), d);
  }

  lemma OneEffect(view: seq<Byte>, op: Op)
    ensures Effects(view, [op]) == Effect(view, op)
  {
    assert [op][..0] == [];
  }

  lemma IdKeeps(view: seq<Byte>, id: seq<Byte>, x: int)
    requires |id| == 4 && 0 <= x < |view| && !(440 <= x < 444)
    ensures Effects(view, IdOps(id))[x] == view[x]
  {
    ClearKeeps(view, IdOps(id), x);
  }

  lemma IdWritten(view: seq<Byte>, id: seq<Byte>)
    requires |id| == 4 && |view| >= 512
    ensures Effects(view, IdOps(id))[440..444] == id
  {
    IdPatches(view, IdOps(id), id, id[0], id[1], id[2], id[3]);
  }

  lemma IdPatches(view: seq<Byte>, ops: seq<Op>, id: seq<Byte>, a: Byte, b: Byte, c: Byte, d: Byte)
    requires |view| >= 512 && ops == [Put(440, [a]), Put(441, [b]), Put(442, [c]), Put(443, [d])]
    requires |id| == 4 && id[0] == a && id[1] == b && id[2] == c && id[3] == d
    ensures Effects(view, ops)[440..444] == id
  {
    assert ops[..3][..2] == ops[..2] && ops[..2][..1] == ops[..1] && ops[..1][..0] == [];
    assert Effects(view, ops[..1]) == Effect(view, ops[0]);
    assert Effects(view, ops[..2]) == Effect(Effects(view, ops[..1]), ops[1]);
    assert Effects(view, ops[..3]) == Effect(Effects(view, ops[..2]), ops[2]);
  }

  lemma TabledLast(erased: seq<Byte>, named: seq<Byte>, listed: seq<Byte>, parts: seq<Part>)
    requires |erased| == |named| && Listed(listed, named, parts, |parts|)
    requires forall x :: 0 <= x < |erased| && !(440 <= x < 444) ==> named[x] == erased[x]
    ensures Tabled(Effect(listed, Put(510, [0x55, 0xaa])), erased, parts)
  {
    var v := Effect(listed, Put(510, [0x55, 0xaa]));
    forall i | 0 <= i < |parts| ensures EntryIs(v, i, parts[i]) {
      SameEntry(listed, v, i, parts[i]);
    }
  }

  lemma ConversionTabled(view: seq<Byte>, h: Header, plan: Plan)
    requires Sound(h, plan) && |view| >= 512
    ensures Tabled(Effects(view, ConversionOps(h, plan)), Effects(view, EraseOps(h, plan.wipes)), plan.parts)
  {
    var erased, table := Effects(view, EraseOps(h, plan.wipes)), TableOps(plan.parts, |plan.parts|);
    var named := Effects(erased, IdOps(plan.id));
    FourLayers(view, EraseOps(h, plan.wipes), IdOps(plan.id), table, Put(510, [0x55, 0xaa]));
    TableWritten(named, plan.parts, |plan.parts|);
    forall x | 0 <= x < |erased| && !(440 <= x < 444) ensures named[x] == erased[x] {
      IdKeeps(erased, plan.id, x);
    }
    TabledLast(erased, named, Effects(named, table), plan.parts);
  }

  lemma ConversionNamed(view: seq<Byte>, h: Header, plan: Plan)
    requires Sound(h, plan) && |view| >= 512
    ensures Effects(view, ConversionOps(h, plan))[440..444] == plan.id
  {
    var erased, table := Effects(view, EraseOps(h, plan.wipes)), TableOps(plan.parts, |plan.parts|);
    var named := Effects(erased, IdOps(plan.id));
    FourLayers(view, EraseOps(h, plan.wipes), IdOps(plan.id), table, Put(510, [0x55, 0xaa]));
    TableWritten(named, plan.parts, |plan.parts|);
    IdWritten(erased, plan.id);
    NamedLast(named, Effects(named, table), plan.parts);
  }

  lemma NamedLast(named: seq<Byte>, listed: seq<Byte>, parts: seq<Part>)
    requires Listed(listed, named, parts, |parts|)
    ensures Effect(listed, Put(510, [0x55, 0xaa]))[440..444] == named[440..444]
  {
  }

  lemma ConvertedTable(view: seq<Byte>, h: Header, plan: Plan, force: bool)
    requires Sound(h, plan) && 512 <= |view| && Bytes(Reserve(h), h.block) <= |view|
    ensures var v := ConvertedView(view, h, plan, force);
            && (forall i :: 0 <= i < |plan.parts| ==> ReadPart(v, i) == plan.parts[i])
            && (forall i :: |plan.parts| <= i < 4 ==> ReadPart(v, i) == Part(0, 0, 0))
  {
    ConversionTabled(view, h, plan);
    forall x | 0 <= x < 512 ensures Effects(view, EraseOps(h, plan.wipes))[x] == 0 {
      EraseClears(view, h, plan.wipes, x);
    }
    TableReads(Effects(view, ConversionOps(h, plan)), Effects(view, EraseOps(h, plan.wipes)), plan.parts, force);
  }

  lemma TableReads(tabled: seq<Byte>, erased: seq<Byte>, parts: seq<Part>, force: bool)
    requires Tabled(tabled, erased, parts) && forall x :: 0 <= x < 512 ==> erased[x] == 0
    ensures var v := Marked(tabled, force);
            && (forall i :: 0 <= i < |parts| ==> ReadPart(v, i) == parts[i])
            && (forall i :: |parts| <= i < 4 ==> ReadPart(v, i) == Part(0, 0, 0))
  {
    var v := Marked(tabled, force);
    forall i | 0 <= i < 4 ensures ReadPart(v, i) == ReadPart(tabled, i) {
      forall x | EntryAt(i) < x < EntryAt(i) + 16 ensures tabled[x] == v[x] {
        MarkedKeeps(tabled, force, x);
      }
      SamePart(tabled, v, i);
    }
    forall i | |parts| <= i < 4 ensures ReadPart(tabled, i) == Part(0, 0, 0) {
      ZeroPart(tabled, i);
    }
  }

  lemma ZeroPart(view: seq<Byte>, i: nat)
    requires EntryAt(i) + 16 <= |view| && forall x :: EntryAt(i) <= x < EntryAt(i) + 16 ==> view[x] == 0
    ensures ReadPart(view, i) == Part(0, 0, 0)
  {
    var a, b := view[EntryAt(i) + 8..EntryAt(i) + 12], view[EntryAt(i) + 12..EntryAt(i) + 16];
    assert a[0] == 0 && a[1] == 0 && a[2] == 0 && a[3] == 0 && b[0] == 0 && b[1] == 0 && b[2] == 0 && b[3] == 0;
  }

  lemma ConvertedKeeps(view: seq<Byte>, h: Header, plan: Plan, force: bool, e: GptEntry, x: int)
    requires Sound(h, plan) && 512 <= |view|
    requires Convertible(e, h) && Sectors(e.start, h.block) >= 63 && InPartition(e, h, x) && 0 <= x < |view|
    ensures ConvertedView(view, h, plan, force)[x] == view[x] && x >= 63 * 512
  {
    EraseKeeps(view, h, plan.wipes, e, x);
    StartsLate(e, h, x);
    ConversionTabled(view, h, plan);
    TabledKeeps(Effects(view, ConversionOps(h, plan)), Effects(view, EraseOps(h, plan.wipes)), plan.parts, force, x);
  }

  lemma StartsLate(e: GptEntry, h: Header, x: int)
    requires KnownBlock(h) && Sectors(e.start, h.block) >= 63 && InPartition(e, h, x)
    ensures x >= 63 * 512
  {
  }

  lemma TabledKeeps(tabled: seq<Byte>, erased: seq<Byte>, parts: seq<Part>, force: bool, x: int)
    requires Tabled(tabled, erased, parts) && 512 <= x < |tabled| && !(force && Magic(tabled) && 1080 <= x < 1082)
    ensures Marked(tabled, force)[x] == erased[x]
  {
    MarkedKeeps(tabled, force, x);
  }

  // ---------------------------------------------------------------- the boot code

  /** The boot sector and stage 2, with the timestamp and the table put back. */
  function BootOps(view: seq<Byte>, image: seq<Byte>): seq<Op>
    requires |view| >= 512 && |image| >= 512
  {
    [Put(0, image[..512]), Put(4096, image[512..]), Put(0x1a4, Le32(4096) + Le32(0)), Put(218, view[218..224]),
     Put(440, view[440..510])]
  }

  /** Byte by byte: what is kept, stage 2, and its address in the boot sector. */
  predicate BootAt(v: seq<Byte>, view: seq<Byte>, image: seq<Byte>) {
    && |v| == |view| >= 63 * 512 && 512 <= |image| && |image| <= MAX_IMAGE
    && (forall x :: 512 <= x < |view| && !(4096 <= x < 4096 + |image| - 512) ==> v[x] == view[x])
    && (forall x :: 440 <= x < 510 ==> v[x] == view[x]) && (forall x :: 218 <= x < 224 ==> v[x] == view[x])
    && (forall x :: 0 <= x < 512 && !(218 <= x < 224) && !(0x1a4 <= x < 0x1ac) && !(440 <= x < 510) ==>
          v[x] == image[x])
    && (forall x :: 4096 <= x < 4096 + |image| - 512 ==> v[x] == image[x - 3584])
    && (forall x :: 0x1a4 <= x < 0x1ac ==> v[x] == (Le32(4096) + Le32(0))[x - 0x1a4])
  }

  /** Boot code that fits before sector 63 touches nothing from there on, and keeps the table. */
  lemma BootPlaced(view: seq<Byte>, image: seq<Byte>)
    requires |view| >= 63 * 512 && 512 <= |image| && |image| <= MAX_IMAGE
    ensures BootAt(Effects(view, BootOps(view, image)), view, image)
  {
    FiveEffects(view, BootOps(view, image));
    BootLayers(view, image, Le32(4096) + Le32(0), view[218..224], view[440..510]);
  }

  lemma BootLayers(view: seq<Byte>, image: seq<Byte>, at: seq<Byte>, stamp: seq<Byte>, table: seq<Byte>)
    requires |view| >= 63 * 512 && 512 <= |image| && |image| <= MAX_IMAGE
    requires |at| == 8 && stamp == view[218..224] && table == view[440..510] && at == Le32(4096) + Le32(0)
    ensures BootAt(Patch(Patch(Patch(Patch(Patch(view, 0, image[..512]), 4096, image[512..]), 0x1a4, at), 218, stamp),
                         440, table),
                   view, image)
  {
  }

  /** Stage 2 is where the boot sector says it is, and the table reads as before. */
  lemma BootReads(v: seq<Byte>, view: seq<Byte>, image: seq<Byte>)
    requires BootAt(v, view, image)
    ensures v[4096..4096 + |image| - 512] == image[512..]
    ensures FromLe32(v[0x1a4..0x1a8]) == 4096 && FromLe32(v[0x1a8..0x1ac]) == 0
    ensures forall i :: 0 <= i < 4 ==> ReadPart(v, i) == ReadPart(view, i)
  {
    var a, b := v[4096..4096 + |image| - 512], image[512..];
    assert |a| == |b|;
    forall k | 0 <= k < |a| ensures a[k] == b[k] {
      assert a[k] == v[4096 + k];
    }
    assert v[0x1a4..0x1a8] == Le32(4096) && v[0x1a8..0x1ac] == Le32(0);
    Le32Reads(4096);
    Le32Reads(0);
    forall i | 0 <= i < 4 ensures ReadPart(v, i) == ReadPart(view, i) {
      SamePart(v, view, i);
    }
  }

  // ---------------------------------------------------------------- what a conversion comes to

  /** The table lists exactly the GPT's partitions, and the boot code lies where the boot sector says. */
  ghost predicate Lists(v: seq<Byte>, used: seq<GptEntry>, parts: seq<Part>, h: Header, image: seq<Byte>) {
    && |v| >= 63 * 512 && 512 <= |image| && |image| <= MAX_IMAGE && Converts(used, parts, h) && |parts| <= 4
    && (forall i :: 0 <= i < |parts| ==> ReadPart(v, i) == Convert(used[i], h))
    && (forall i :: |parts| <= i < 4 ==> ReadPart(v, i) == Part(0, 0, 0))
    && v[4096..4096 + |image| - 512] == image[512..] && FromLe32(v[0x1a4..0x1a8]) == 4096
    && FromLe32(v[0x1a8..0x1ac]) == 0
  }

  /** Every byte of every partition is as it was. */
  ghost predicate Keeps(v: seq<Byte>, view: seq<Byte>, entries: seq<GptEntry>, h: Header) {
    && |v| == |view|
    && forall e, x :: e in entries && e.used && InPartition(e, h, x) && 0 <= x < |view| ==> v[x] == view[x]
  }

  /** A plan made from the table: its parts are the used entries, and none starts too low. */
  ghost predicate Planned(entries: seq<GptEntry>, h: Header, plan: Plan) {
    && Sound(h, plan) && Converts(UsedOf(entries), plan.parts, h)
    && forall k :: 0 <= k < |plan.parts| ==> plan.parts[k].start >= 63
  }

  lemma ConversionKeeps(view: seq<Byte>, entries: seq<GptEntry>, h: Header, plan: Plan, force: bool,
                        image: seq<Byte>)
    requires Planned(entries, h, plan) && |view| >= 63 * 512 && 512 <= |image| <= MAX_IMAGE
    ensures var converted := ConvertedView(view, h, plan, force);
            Keeps(Effects(converted, BootOps(converted, image)), view, entries, h)
  {
    var converted, used := ConvertedView(view, h, plan, force), UsedOf(entries);
    BootPlaced(converted, image);
    forall e, x | e in entries && e.used && InPartition(e, h, x) && 0 <= x < |view|
      ensures Effects(converted, BootOps(converted, image))[x] == view[x]
    {
      assert e in used;
      var k :| 0 <= k < |used| && used[k] == e;
      assert plan.parts[k].start >= 63;
      ConvertedKeeps(view, h, plan, force, e, x);
    }
  }

  lemma ConversionLists(view: seq<Byte>, entries: seq<GptEntry>, h: Header, plan: Plan, force: bool,
                        image: seq<Byte>)
    requires Planned(entries, h, plan) && |view| >= 63 * 512 && 512 <= |image| <= MAX_IMAGE
    requires Bytes(Reserve(h), h.block) <= |view|
    ensures var converted := ConvertedView(view, h, plan, force);
            Lists(Effects(converted, BootOps(converted, image)), UsedOf(entries), plan.parts, h, image)
  {
    var converted := ConvertedView(view, h, plan, force);
    BootPlaced(converted, image);
    ConvertedTable(view, h, plan, force);
    ListsAfterBoot(Effects(converted, BootOps(converted, image)), converted, UsedOf(entries), plan.parts, h, image);
  }

  lemma ListsAfterBoot(v: seq<Byte>, converted: seq<Byte>, used: seq<GptEntry>, parts: seq<Part>, h: Header,
                       image: seq<Byte>)
    requires BootAt(v, converted, image) && Converts(used, parts, h) && |parts| <= 4
    requires forall i :: 0 <= i < |parts| ==> ReadPart(converted, i) == parts[i]
    requires forall i :: |parts| <= i < 4 ==> ReadPart(converted, i) == Part(0, 0, 0)
    ensures Lists(v, used, parts, h, image)
  {
    BootReads(v, converted, image);
  }

  // ---------------------------------------------------------------- how much is written, and where

  lemma {:induction false} PutsAtMost(ops: seq<Op>)
    ensures Puts(ops) <= |ops|
  {
    if ops != [] {
      PutsAtMost(ops[..|ops| - 1]);
    }
  }

  lemma {:induction false} EraseSize(h: Header, first: nat, end: nat)
    requires first <= end
    ensures |Erase(h, first, end)| == end - first
    decreases end
  {
    if first < end {
      EraseSize(h, first, end - 1);
    }
  }

  lemma {:induction false} WipesSize(h: Header, wipes: seq<Wipe>)
    requires KnownBlock(h) && forall w :: w in wipes ==> w.first <= w.last < w.first + AltReserve(h)
    ensures |WipeOps(h, wipes)| <= 33 * |wipes|
  {
    if wipes != [] {
      var w := wipes[|wipes| - 1];
      WipesSize(h, wipes[..|wipes| - 1]);
      EraseSize(h, w.first, w.last + 1);
    }
  }

  lemma {:induction false} TableSize(parts: seq<Part>, n: nat)
    requires n <= |parts|
    ensures |TableOps(parts, n)| == 5 * n
  {
    if n > 0 {
      TableSize(parts, n - 1);
    }
  }

  /** Two alternates at most, each with no more than its reserve. */
  ghost predicate Bounded(h: Header, wipes: seq<Wipe>) {
    KnownBlock(h) && |wipes| <= 2 && forall w :: w in wipes ==> w.first <= w.last < w.first + AltReserve(h)
  }

  /** The conversion takes at most 125 writes, whatever the table. */
  lemma ConversionSize(h: Header, plan: Plan)
    requires Sound(h, plan) && Bounded(h, plan.wipes)
    ensures |ConversionOps(h, plan)| <= 125
  {
    assert Reserve(h) <= 34;
    EraseSize(h, 0, Reserve(h));
    WipesSize(h, plan.wipes);
    TableSize(plan.parts, |plan.parts|);
  }

  /** No operation reaches past the given end. */
  predicate Below(ops: seq<Op>, end: nat) {
    forall k :: 0 <= k < |ops| ==> ops[k].Put? && ops[k].loc + |ops[k].data| <= end
  }

  lemma {:induction false} EraseBelow(h: Header, first: nat, end: nat)
    requires KnownBlock(h)
    ensures Below(Erase(h, first, end), Bytes(end, h.block))
    decreases end
  {
    if first < end {
      EraseBelow(h, first, end - 1);
    }
  }

  lemma {:induction false} WipesBelow(h: Header, wipes: seq<Wipe>)
    requires KnownBlock(h) && forall w :: w in wipes ==> w.last <= h.lastBlock
    ensures Below(WipeOps(h, wipes), Bytes(h.lastBlock + 1, h.block))
  {
    if wipes != [] {
      var w := wipes[|wipes| - 1];
      WipesBelow(h, wipes[..|wipes| - 1]);
      EraseBelow(h, w.first, w.last + 1);
    }
  }

  lemma {:induction false} TableBelow(parts: seq<Part>, n: nat)
    requires n <= |parts| <= 4
    ensures Below(TableOps(parts, n), 512)
  {
    if n > 0 {
      TableBelow(parts, n - 1);
    }
  }

  lemma ConversionBelow(h: Header, plan: Plan)
    requires Sound(h, plan) && Reserve(h) <= h.lastBlock + 1 && forall w :: w in plan.wipes ==> w.last <= h.lastBlock
    ensures Below(ConversionOps(h, plan), Bytes(h.lastBlock + 1, h.block))
  {
    var end := Bytes(h.lastBlock + 1, h.block);
    EraseBelow(h, 0, Reserve(h));
    WipesBelow(h, plan.wipes);
    BelowWidens(Erase(h, 0, Reserve(h)), Bytes(Reserve(h), h.block), end);
    BelowJoins(Erase(h, 0, Reserve(h)), WipeOps(h, plan.wipes), end);
    var fields := IdOps(plan.id) + (TableOps(plan.parts, |plan.parts|) + [Put(510, [0x55, 0xaa])]);
    FieldsBelow(plan);
    BelowWidens(fields, 512, end);
    BelowJoins(EraseOps(h, plan.wipes), fields, end);
  }

  lemma FieldsBelow(plan: Plan)
    requires |plan.id| == 4 && |plan.parts| <= 4
    ensures Below(IdOps(plan.id) + (TableOps(plan.parts, |plan.parts|) + [Put(510, [0x55, 0xaa])]), 512)
  {
    var table, last := TableOps(plan.parts, |plan.parts|), [Put(510, [0x55, 0xaa])];
    TableBelow(plan.parts, |plan.parts|);
    BelowJoins(table, last, 512);
    BelowJoins(IdOps(plan.id), table + last, 512);
  }

  lemma BelowWidens(ops: seq<Op>, a: nat, b: nat)
    requires Below(ops, a) && a <= b
    ensures Below(ops, b)
  {
  }

  lemma BelowJoins(a: seq<Op>, b: seq<Op>, end: nat)
    requires Below(a, end) && Below(b, end)
    ensures Below(a + b, end)
  {
  }

  /** On a device of 512-byte blocks whatever ends at a whole block can be written. */
  lemma BelowFits(ops: seq<Op>, end: nat, size: nat)
    requires Below(ops, end) && end % 512 == 0 && end <= size
    ensures AllFit(ops, 512, size)
  {
    forall k | 0 <= k < |ops| ensures OpFits(ops[k], 512, size) {
      RangeFits(ops[k].loc, |ops[k].data|, end, size);
    }
  }

  lemma RangeFits(loc: nat, count: nat, end: nat, size: nat)
    requires loc + count <= end && end % 512 == 0 && end <= size
    ensures Fits(512, size, loc, count)
  {
    if count > 0 {
      BlockIs(loc + count - 1, 512);
    }
  }

  lemma FitsInside(block: nat, size: nat, loc: nat, count: nat)
    requires Fits(block, size, loc, count) && count > 0
    ensures loc + count <= size
  {
    BlockIs(loc + count - 1, block);
  }
}
