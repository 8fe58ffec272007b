/**
 * The run of the installer on a hybrid image: what is settled before anything is written, the converting writes and
 * their checks, the boot code, and the way back. A run installs the acceptable images and restores the others.
 */
module HybridInstall {
  import opened Numeral
  import opened Words
  import opened Device
  import opened Blocks
  import opened GptToMbr

  /** Not a table to convert; given up, with what was written taken back; or converted and installed. */
  datatype Outcome = NotConverted | Aborted | Installed

  predicate HasText(view: seq<Byte>, at: nat, text: seq<Byte>) {
    at + |text| <= |view| && forall k :: 0 <= k < |text| ==> view[at + k] == text[k]
  }

  /** The checks of the first sector: signature, status bytes, starts, and no trace of a file system. */
  predicate SectorPasses(view: seq<Byte>) {
    && |view| >= 512 && view[510] == 0x55 && view[511] == 0xaa
    && (forall i :: 0 <= i < 4 ==>
          && (view[EntryAt(i)] == 0 || view[EntryAt(i)] == 0x80)
          && (view[EntryAt(i) + 4] != 0 ==> ReadPart(view, i).start >= 63))
    && !HasText(view, 3, [0x4e, 0x54, 0x46, 0x53]) && !HasText(view, 54, [0x46, 0x41, 0x54])
    && !HasText(view, 82, [0x46, 0x41, 0x54]) && !HasText(view, 3, [0x46, 0x41, 0x54, 0x33, 0x32])
  }

  /** Some partition is marked active. */
  predicate Active(view: seq<Byte>)
    requires |view| >= 512
  {
    exists i :: 0 <= i < 4 && view[EntryAt(i)] == 0x80
  }

  /** A converted sector passes every check of the finished MBR made in it, and marks no partition active. */
  lemma ConvertedPasses(view: seq<Byte>, v: seq<Byte>, entries: seq<GptEntry>, h: Header, plan: Plan)
    requires Planned(entries, h, plan) && 512 <= |view| && Bytes(Reserve(h), h.block) <= |view|
    requires v == Effects(view, ConversionOps(h, plan))
    ensures SectorPasses(v) && !Active(v)
  {
    var erased := Effects(view, EraseOps(h, plan.wipes));
    assert Tabled(v, erased, plan.parts) by {
      ConversionTabled(view, h, plan);
    }
    SectorCleared(view, h, plan.wipes);
    TabledPasses(v, erased, plan.parts);
  }

  lemma SectorCleared(view: seq<Byte>, h: Header, wipes: seq<Wipe>)
    requires KnownBlock(h) && Bytes(Reserve(h), h.block) <= |view| && 512 <= |view|
    requires forall w :: w in wipes ==> h.lastUsable < w.first
    ensures forall x :: 0 <= x < 512 ==> Effects(view, EraseOps(h, wipes))[x] == 0
  {
    forall x | 0 <= x < 512 ensures Effects(view, EraseOps(h, wipes))[x] == 0 {
      EraseClears(view, h, wipes, x);
    }
  }

  lemma TabledPasses(tabled: seq<Byte>, erased: seq<Byte>, parts: seq<Part>)
    requires Tabled(tabled, erased, parts) && forall x :: 0 <= x < 512 ==> erased[x] == 0
    requires forall k :: 0 <= k < |parts| ==> parts[k].start >= 63
    ensures SectorPasses(tabled) && !Active(tabled)
  {
    assert tabled[3] == 0 && tabled[54] == 0 && tabled[82] == 0;
    TextStarts(tabled, 3, [0x4e, 0x54, 0x46, 0x53]);
    TextStarts(tabled, 54, [0x46, 0x41, 0x54]);
    TextStarts(tabled, 82, [0x46, 0x41, 0x54]);
    TextStarts(tabled, 3, [0x46, 0x41, 0x54, 0x33, 0x32]);
    forall i | 0 <= i < 4 ensures tabled[EntryAt(i) + 4] != 0 ==> ReadPart(tabled, i).start >= 63 {
      assert i < |parts| ==> ReadPart(tabled, i) == parts[i];
    }
  }

  lemma TextStarts(view: seq<Byte>, at: nat, text: seq<Byte>)
    requires text != [] && at < |view|
    ensures HasText(view, at, text) ==> view[at] == text[0]
  {
    if HasText(view, at, text) {
      var k := 0;
      assert view[at + k] == text[k];
    }
  }

  // ---------------------------------------------------------------- the first sector

  /** The entry at byte 446 + 16 * i denotes the partition, by number of sectors and by address. */
  predicate EntryDenotes(v: seq<Byte>, i: nat, e: GptEntry, h: Header)
    requires Convertible(e, h) && 446 + 16 * i + 16 <= |v|
  {
    var at, start, count := 446 + 16 * i, Sectors(e.start, h.block), Sectors(e.last - e.start + 1, h.block);
    && v[at + 4] == e.kind && FromLe32(v[at + 8..at + 12]) == start && FromLe32(v[at + 12..at + 16]) == count
    && v[at + 1..at + 4] == Chs(start) && v[at + 5..at + 8] == Chs(start + count - 1)
  }

  /**
   * Every byte of the first sector: the boot sector's code and signature, no timestamp, stage 2's address, the
   * identifier, and a table that lists the partitions and marks the first entry active.
   */
  ghost predicate SectorIs(v: seq<Byte>, id: seq<Byte>, used: seq<GptEntry>, h: Header, image: seq<Byte>) {
    && |v| >= 512 && |image| >= 512 && |id| == 4 && |used| <= 4
    && (forall x :: 0 <= x < 512 && !(218 <= x < 224) && !(0x1a4 <= x < 0x1ac) && !(440 <= x < 510) ==>
          v[x] == image[x])
    && (forall x :: 218 <= x < 224 ==> v[x] == 0)
    && v[0x1a4..0x1ac] == [0, 0x10, 0, 0, 0, 0, 0, 0]
    && v[440..444] == id && v[444] == 0 && v[445] == 0
    && v[446] == 0x80 && v[462] == 0 && v[478] == 0 && v[494] == 0
    && (forall i :: 0 <= i < |used| ==> Convertible(used[i], h) && EntryDenotes(v, i, used[i], h))
    && (forall x :: 446 + 16 * |used| <= x < 510 && x != 446 ==> v[x] == 0)
  }

  lemma ConversionSector(view: seq<Byte>, entries: seq<GptEntry>, h: Header, plan: Plan, force: bool,
                         image: seq<Byte>)
    requires Planned(entries, h, plan) && |view| >= 63 * 512 && 512 <= |image| <= MAX_IMAGE
    requires Bytes(Reserve(h), h.block) <= |view|
    ensures var converted := ConvertedView(view, h, plan, force);
            SectorIs(Effects(converted, BootOps(converted, image)), plan.id, UsedOf(entries), h, image)
  {
    var converted, tabled := ConvertedView(view, h, plan, force), Effects(view, ConversionOps(h, plan));
    var erased := Effects(view, EraseOps(h, plan.wipes));
    assert Tabled(tabled, erased, plan.parts) by {
      ConversionTabled(view, h, plan);
    }
    assert tabled[440..444] == plan.id by {
      ConversionNamed(view, h, plan);
    }
    SectorCleared(view, h, plan.wipes);
    BootPlaced(converted, image);
    SectorMarked(tabled, converted, erased, plan.parts, force);
    SectorBuilt(Effects(converted, BootOps(converted, image)), converted, tabled, erased, plan.parts, plan.id,
                UsedOf(entries), h, image);
  }

  /** Below byte 512 marking changes the active flag alone. */
  lemma SectorMarked(tabled: seq<Byte>, converted: seq<Byte>, erased: seq<Byte>, parts: seq<Part>, force: bool)
    requires Tabled(tabled, erased, parts) && converted == Marked(tabled, force)
    ensures converted[446] == 0x80 && forall x :: 0 <= x < 512 && x != 446 ==> converted[x] == tabled[x]
  {
    forall x | 0 <= x < 512 && x != 446 ensures converted[x] == tabled[x] {
      MarkedKeeps(tabled, force, x);
    }
  }

  lemma SectorBuilt(v: seq<Byte>, converted: seq<Byte>, tabled: seq<Byte>, erased: seq<Byte>, parts: seq<Part>,
                    id: seq<Byte>, used: seq<GptEntry>, h: Header, image: seq<Byte>)
    requires BootAt(v, converted, image) && Tabled(tabled, erased, parts) && |tabled| == |converted|
    requires converted[446] == 0x80 && forall x :: 0 <= x < 512 && x != 446 ==> converted[x] == tabled[x]
    requires forall x :: 0 <= x < 512 ==> erased[x] == 0
    requires |id| == 4 && tabled[440..444] == id && Converts(used, parts, h)
    ensures SectorIs(v, id, used, h, image)
  {
    FixedBytes(v, converted, tabled, erased, parts, id, image);
    forall i | 0 <= i < |used| ensures EntryDenotes(v, i, used[i], h) {
      EntryBuilt(v, tabled, i, parts[i], used[i], h);
    }
  }

  lemma FixedBytes(v: seq<Byte>, converted: seq<Byte>, tabled: seq<Byte>, erased: seq<Byte>, parts: seq<Part>,
                   id: seq<Byte>, image: seq<Byte>)
    requires BootAt(v, converted, image) && Tabled(tabled, erased, parts) && |tabled| == |converted|
    requires converted[446] == 0x80 && forall x :: 0 <= x < 512 && x != 446 ==> converted[x] == tabled[x]
    requires (forall x :: 0 <= x < 512 ==> erased[x] == 0) && |id| == 4 && tabled[440..444] == id
    ensures v[0x1a4..0x1ac] == [0, 0x10, 0, 0, 0, 0, 0, 0] && v[440..444] == id && v[444] == 0 && v[445] == 0
    ensures v[446] == 0x80 && v[462] == 0 && v[478] == 0 && v[494] == 0
    ensures forall x :: 218 <= x < 224 ==> v[x] == 0
    ensures forall x :: 446 + 16 * |parts| <= x < 510 && x != 446 ==> v[x] == 0
  {
    assert EntryAt(1) == 462 && EntryAt(2) == 478 && EntryAt(3) == 494;
    AddressBytes(v, Le32(4096) + Le32(0));
    assert v[440..444] == tabled[440..444];
  }

  lemma AddressBytes(v: seq<Byte>, address: seq<Byte>)
    requires |v| >= 512 && address == Le32(4096) + Le32(0)
    requires forall x :: 0x1a4 <= x < 0x1ac ==> v[x] == address[x - 0x1a4]
    ensures v[0x1a4..0x1ac] == [0, 0x10, 0, 0, 0, 0, 0, 0]
  {
    assert address == [0, 0x10, 0, 0, 0, 0, 0, 0];
    assert v[0x1a4..0x1ac] == address;
  }

  lemma EntryBuilt(v: seq<Byte>, tabled: seq<Byte>, i: nat, p: Part, e: GptEntry, h: Header)
    requires |v| == |tabled| >= 512 && i < 4 && Convertible(e, h) && p == Convert(e, h) && EntryIs(tabled, i, p)
    requires forall x :: EntryAt(i) < x < EntryAt(i) + 16 ==> v[x] == tabled[x]
    ensures EntryDenotes(v, i, e, h)
  {
    SameEntry(tabled, v, i, p);
  }

  // ---------------------------------------------------------------- what is erased

  /** The byte is in one of the blocks erased. */
  predicate ErasedAt(h: Header, wipes: seq<Wipe>, x: nat)
    requires KnownBlock(h)
  {
    x < Bytes(Reserve(h), h.block) || WipedAt(h, wipes, x)
  }

  predicate WipedAt(h: Header, wipes: seq<Wipe>, x: nat) {
    exists k :: 0 <= k < |wipes| && InRun(h, wipes[k], x)
  }

  predicate InRun(h: Header, w: Wipe, x: nat) {
    Bytes(w.first, h.block) <= x < Bytes(w.last + 1, h.block)
  }

  lemma WipedMore(h: Header, wipes: seq<Wipe>, x: nat)
    requires wipes != []
    ensures var n := |wipes| - 1; WipedAt(h, wipes, x) <==> WipedAt(h, wipes[..n], x) || InRun(h, wipes[n], x)
  {
    var n := |wipes| - 1;
    forall k | 0 <= k < n && InRun(h, wipes[..n][k], x) ensures WipedAt(h, wipes, x) {
      assert InRun(h, wipes[k], x);
    }
    forall k | 0 <= k < n && InRun(h, wipes[k], x) ensures WipedAt(h, wipes[..n], x) {
      assert InRun(h, wipes[..n][k], x);
    }
  }

  /** The erase leaves zeros in the blocks erased and nothing else. */
  lemma EraseExact(view: seq<Byte>, h: Header, wipes: seq<Wipe>, x: nat)
    requires KnownBlock(h) && x < |view| && Bytes(Reserve(h), h.block) <= |view|
    requires forall w :: w in wipes ==> Bytes(w.last + 1, h.block) <= |view|
    ensures Effects(view, EraseOps(h, wipes))[x] == if ErasedAt(h, wipes, x) then 0 else view[x]
  {
    var first := Effects(view, Erase(h, 0, Reserve(h)));
    EffectsAppend(view, Erase(h, 0, Reserve(h)), WipeOps(h, wipes));
    if x < Bytes(Reserve(h), h.block) {
      EraseZeros(view, h, 0, Reserve(h), x);
    } else {
      EraseWithin(h, 0, Reserve(h), x);
      ClearKeeps(view, Erase(h, 0, Reserve(h)), x);
    }
    WipesExact(first, h, wipes, x);
  }

  lemma {:induction false} WipesExact(view: seq<Byte>, h: Header, wipes: seq<Wipe>, x: nat)
    requires KnownBlock(h) && x < |view| && forall w :: w in wipes ==> Bytes(w.last + 1, h.block) <= |view|
    ensures Effects(view, WipeOps(h, wipes))[x] == if WipedAt(h, wipes, x) then 0 else view[x]
  {
    if wipes != [] {
      var n := |wipes| - 1;
      var w, before := wipes[n], Effects(view, WipeOps(h, wipes[..n]));
      WipesExact(view, h, wipes[..n], x);
      WipedMore(h, wipes, x);
      EffectsAppend(view, WipeOps(h, wipes[..n]), Erase(h, w.first, w.last + 1));
      if InRun(h, w, x) {
        EraseZeros(before, h, w.first, w.last + 1, x);
      } else {
        EraseWithin(h, w.first, w.last + 1, x);
        ClearKeeps(before, Erase(h, w.first, w.last + 1), x);
      }
    }
  }

  /** From byte 512 on every byte erased is zero in the end, but for stage 2. */
  ghost predicate Cleared(v: seq<Byte>, h: Header, wipes: seq<Wipe>, image: seq<Byte>) {
    && KnownBlock(h) && |image| >= 512
    && forall x: nat :: 512 <= x < |v| && ErasedAt(h, wipes, x) ==>
         v[x] == if 4096 <= x < 4096 + |image| - 512 then image[x - 3584] else 0
  }

  /** The blocks to erase are on the medium. */
  ghost predicate OnMedium(h: Header, wipes: seq<Wipe>, size: nat)
    requires KnownBlock(h)
  {
    Bytes(Reserve(h), h.block) <= size && forall w :: w in wipes ==> Bytes(w.last + 1, h.block) <= size
  }

  lemma ConversionClears(view: seq<Byte>, h: Header, plan: Plan, force: bool, image: seq<Byte>)
    requires Sound(h, plan) && OnMedium(h, plan.wipes, |view|) && |view| >= 63 * 512 && 512 <= |image| <= MAX_IMAGE
    ensures var converted := ConvertedView(view, h, plan, force);
            Cleared(Effects(converted, BootOps(converted, image)), h, plan.wipes, image)
  {
    var converted, tabled := ConvertedView(view, h, plan, force), Effects(view, ConversionOps(h, plan));
    BootPlaced(converted, image);
    ConversionTabled(view, h, plan);
    forall x: nat | 512 <= x < |view| && ErasedAt(h, plan.wipes, x) ensures converted[x] == 0 {
      EraseExact(view, h, plan.wipes, x);
      MarkedKeepsZero(tabled, force, x);
    }
  }

  lemma MarkedKeepsZero(view: seq<Byte>, force: bool, x: nat)
    requires 512 <= x < |view| && view[x] == 0
    ensures Marked(view, force)[x] == 0
  {
    if force && Magic(view) {
      OneEffect(view, Put(1080, [0, 0]));
    }
  }

  /** The magic number survives the conversion exactly when it was there and its block is not erased. */
  lemma MagicSurvives(view: seq<Byte>, h: Header, plan: Plan)
    requires Sound(h, plan) && OnMedium(h, plan.wipes, |view|) && |view| >= 1082
    ensures Magic(Effects(view, ConversionOps(h, plan))) <==> Magic(view) && !ErasedAt(h, plan.wipes, 1080)
  {
    ConversionTabled(view, h, plan);
    EraseExact(view, h, plan.wipes, 1080);
    EraseExact(view, h, plan.wipes, 1081);
    SameBlock1080(h, plan.wipes);
  }

  lemma SameBlock1080(h: Header, wipes: seq<Wipe>)
    requires KnownBlock(h)
    ensures ErasedAt(h, wipes, 1080) <==> ErasedAt(h, wipes, 1081)
  {
  }

  // ---------------------------------------------------------------- the writes

  /** The converting writes, the checks of the finished MBR, what forcing mends, and the active flag. */
  method WriteConversion(dev: Disk, ops: seq<Op>, force: bool) returns (ok: bool, ghost broken: Op)
    requires dev.Valid() && dev.lost == {} && dev.journal == [] && |dev.original| >= 63 * 512
    requires |ops| <= 125 && (forall k :: 0 <= k < |ops| ==> ops[k].loc <= NONE)
    requires AllFit(ops, dev.block, |dev.original|) ==>
               SectorPasses(Effects(dev.View(), ops)) && !Active(Effects(dev.View(), ops))
    modifies dev, dev.cache
    ensures dev.Valid() && dev.clock >= old(dev.clock) && dev.lost <= Range(broken.loc, Extent(broken))
    ensures ok ==> dev.View() == Marked(Effects(old(dev.View()), ops), force)
    ensures ok ==> dev.lost == {} && |dev.journal| <= 142 && AllFit(ops, dev.block, |dev.original|)
    ensures old(dev.Healthy()) ==> dev.lost == {}
    ensures old(dev.Healthy()) && dev.block == 512 ==>
              (ok <==> AllFit(ops, 512, |dev.original|) && (force || !Magic(Effects(old(dev.View()), ops))))
  {
    PutsAtMost(ops);
    ok, broken := dev.PerformAll(ops);
    if ok {
      ok, broken := CheckAndMark(dev, force);
    }
  }

  /** Runs the checks of the finished MBR on a sector that passes them; what remains is the magic number. */
  method Inspect(dev: Disk) returns (ok: bool, magic: bool)
    requires dev.Valid() && |dev.original| >= 63 * 512 && SectorPasses(dev.View()) && !Active(dev.View())
    modifies dev, dev.cache
    ensures dev.Valid() && dev.clock >= old(dev.clock) && dev.View() == old(dev.View())
    ensures dev.lost == old(dev.lost) && dev.journal == old(dev.journal)
    ensures ok ==> magic == Magic(dev.View())
    ensures old(dev.Healthy()) ==> dev.Healthy()
    ensures old(dev.Healthy()) && dev.block == 512 ==> ok
  {
    magic := false;
    ghost var view := dev.View();
    RangeFits(0, 512, 512, |dev.original|);
    RangeFits(1080, 2, 1536, |dev.original|);
    var sector, found;
    ok, sector := dev.Fetch(0, 512);
    if !ok {
      return;
    }
    // every check of the sector passes, and no partition is active yet
    assert SectorPasses(view) && !Active(view) && sector == view[0..512];
    ok, found := dev.Fetch(1080, 2);
    if ok {
      assert found == [view[1080], view[1081]];
      magic := found == [0x53, 0xef];
    }
  }

  /** The checks of the finished MBR, what forcing mends, and the active flag. */
  method CheckAndMark(dev: Disk, force: bool) returns (ok: bool, ghost broken: Op)
    requires dev.Valid() && dev.lost == {} && |dev.journal| <= 125 && |dev.original| >= 63 * 512
    requires SectorPasses(dev.View()) && !Active(dev.View())
    modifies dev, dev.cache
    ensures dev.Valid() && dev.clock >= old(dev.clock) && dev.lost <= Range(broken.loc, Extent(broken))
    ensures ok ==> dev.View() == Marked(old(dev.View()), force) && dev.lost == {} && |dev.journal| <= 142
    ensures old(dev.Healthy()) ==> dev.lost == {}
    ensures old(dev.Healthy()) && dev.block == 512 ==> (ok <==> force || !Magic(old(dev.View())))
  {
    broken := Get(0, 0);
    var magic;
    ok, magic := Inspect(dev);
    if ok && magic && !force {
      ok := false;
    }
    if ok {
      ok, broken := Mark(dev, magic);
    }
  }

  method Mark(dev: Disk, mend: bool) returns (ok: bool, ghost broken: Op)
    requires dev.Valid() && dev.lost == {} && |dev.journal| <= 125 && |dev.original| >= 63 * 512
    modifies dev, dev.cache
    ensures dev.Valid() && dev.clock >= old(dev.clock) && dev.lost <= Range(broken.loc, Extent(broken))
    ensures ok ==>
              var mends := if mend then [Put(1080, [0, 0])] else [];
              dev.View() == Effect(Effects(old(dev.View()), mends), Put(446, [0x80]))
    ensures ok ==> dev.lost == {} && |dev.journal| <= 142
    ensures old(dev.Healthy()) ==> dev.lost == {}
    ensures old(dev.Healthy()) && dev.block == 512 ==> ok
  {
    var mends := if mend then [Put(1080, [0, 0])] else [];
    var marks := mends + [Put(446, [0x80])];
    PutsAtMost(marks);
    BelowFits(marks, 1536, |dev.original|);
    EffectsAppend(dev.View(), mends, [Put(446, [0x80])]);
    OneEffect(Effects(dev.View(), mends), Put(446, [0x80]));
    ok, broken := dev.PerformAll(marks);
  }

  /** Reads the timestamp and the table, which the boot sector would overwrite. */
  method FetchKept(dev: Disk) returns (ok: bool, stamp: seq<Byte>, table: seq<Byte>)
    requires dev.Valid() && |dev.original| >= 63 * 512
    modifies dev, dev.cache
    ensures dev.Valid() && dev.clock >= old(dev.clock) && dev.View() == old(dev.View())
    ensures dev.lost == old(dev.lost) && dev.journal == old(dev.journal)
    ensures ok ==> stamp == dev.View()[218..224] && table == dev.View()[440..510]
    ensures old(dev.Healthy()) ==> dev.Healthy()
    ensures old(dev.Healthy()) && dev.block == 512 ==> ok
  {
    table := [];
    RangeFits(218, 6, 512, |dev.original|);
    RangeFits(440, 70, 512, |dev.original|);
    ok, stamp := dev.Fetch(218, 6);
    if ok {
      ok, table := dev.Fetch(440, 70);
    }
  }

  /** The boot code, with the timestamp and the table read first and put back last. */
  method WriteBoot(dev: Disk, image: seq<Byte>) returns (ok: bool, ghost broken: Op)
    requires dev.Valid() && dev.lost == {} && |dev.journal| <= 142 && |dev.original| >= 63 * 512 && |image| >= 512
    modifies dev, dev.cache
    ensures dev.Valid() && dev.clock >= old(dev.clock) && dev.lost <= Range(broken.loc, Extent(broken))
    ensures ok ==> |image| <= MAX_IMAGE && dev.View() == Effects(old(dev.View()), BootOps(old(dev.View()), image))
    ensures old(dev.Healthy()) ==> dev.lost == {}
    ensures old(dev.Healthy()) && dev.block == 512 && |image| <= MAX_IMAGE ==> ok
  {
    broken := Get(0, 0);
    ghost var view := dev.View();
    var stamp, table;
    ok, stamp, table := FetchKept(dev);
    if !ok || |image| - 512 > 63 * 512 - 4096 {
      return false, broken;
    }
    var ops := [Put(0, image[..512]), Put(4096, image[512..]), Put(0x1a4, Le32(4096) + Le32(0)), Put(218, stamp),
                Put(440, table)];
    assert ops == BootOps(view, image);
    PutsAtMost(ops);
    BelowFits(ops, 63 * 512, |dev.original|);
    ok, broken := dev.PerformAll(ops);
  }

  /** The boot code, down to the medium. */
  method Finish(dev: Disk, image: seq<Byte>) returns (ok: bool, ghost broken: Op)
    requires dev.Valid() && dev.lost == {} && |dev.journal| <= 142 && |dev.original| >= 63 * 512 && |image| >= 512
    modifies dev, dev.cache
    ensures dev.Valid() && dev.clock >= old(dev.clock) && dev.lost <= Range(broken.loc, Extent(broken))
    ensures ok ==> |image| <= MAX_IMAGE && dev.disk == Effects(old(dev.View()), BootOps(old(dev.View()), image))
    ensures old(dev.Healthy()) ==> dev.lost == {}
    ensures old(dev.Healthy()) && dev.block == 512 && |image| <= MAX_IMAGE ==> ok
  {
    ok, broken := WriteBoot(dev, image);
    if ok {
      ok := dev.Commit();
    }
  }

  /** What is found out about the medium and the table before anything is written. */
  method MakePlan(size: nat, entries: seq<GptEntry>, h0: Header, named: nat, probe: nat -> bool, id: seq<Byte>)
    returns (outcome: Outcome, h: Header, plan: Plan)
    requires KnownBlock(h0) && |id| == 4 && h0.block <= size < 0x8000_0000_0000_0000
    ensures h == h0.(lastBlock := h.lastBlock)
    ensures Bytes(h.lastBlock + 1, h.block) <= size < Bytes(h.lastBlock + 2, h.block)
    ensures outcome.NotConverted? <==> !ConvertibleTable(entries, h)
    ensures outcome.Installed? ==> Planned(entries, h, plan) && Bounded(h, plan.wipes)
    ensures outcome.Installed? ==> plan.wipes == Wipes(h, named, probe) && plan.id == id
    ensures outcome.Installed? <==>
            && ConvertibleTable(entries, h) && (forall e :: e in entries && e.used ==> Sectors(e.start, h.block) >= 63)
            && (forall c :: c in Candidates(h, named) && probe(c) ==> h.lastUsable < c)
  {
    var found, last := LastBlock(size, h0.block);
    LastIs(size, h0.block, last);
    h := h0.(lastBlock := last);
    plan := Plan([], [], id);
    var r := Gather(entries, h);
    if r.Refused? {
      return NotConverted, h, plan;
    }
    if r.TooLow? {
      return Aborted, h, plan;
    }
    var ok, wipes := PlanWipes(h, named, probe);
    if !ok {
      return Aborted, h, plan;
    }
    plan := Plan(wipes, r.parts, id);
    WipesAbove(h, named, probe);
    NoneLow(entries, h, r.parts);
    outcome := Installed;
  }

  lemma NoneLow(entries: seq<GptEntry>, h: Header, parts: seq<Part>)
    requires KnownBlock(h) && Converts(UsedOf(entries), parts, h)
    requires forall k :: 0 <= k < |parts| ==> parts[k].start >= 63
    ensures forall e :: e in entries && e.used ==> Sectors(e.start, h.block) >= 63
  {
    var used := UsedOf(entries);
    forall e | e in entries && e.used ensures Sectors(e.start, h.block) >= 63 {
      assert e in used;
      var k :| 0 <= k < |used| && used[k] == e;
      assert parts[k].start >= 63;
    }
  }

  lemma LastIs(size: nat, block: nat, last: nat)
    requires (block == 512 || block == 2048 || block == 4096) && size < 0x8000_0000_0000_0000
    requires forall b: nat :: Probe(size, b, block) <==> b <= last
    ensures Bytes(last + 1, block) <= size < Bytes(last + 2, block)
  {
    assert Probe(size, last, block) && !Probe(size, last + 1, block);
    StartIs(last, block);
    StartIs(last + 1, block);
  }

  lemma {:induction false} ErasePlaces(h: Header, first: nat, end: nat, k: nat)
    requires KnownBlock(h) && k < |Erase(h, first, end)|
    ensures Erase(h, first, end)[k].loc < Bytes(end, h.block)
    decreases end
  {
    if k < |Erase(h, first, end)| - 1 {
      ErasePlaces(h, first, end - 1, k);
    }
  }

  lemma {:induction false} WipePlaces(h: Header, wipes: seq<Wipe>, k: nat, size: nat)
    requires KnownBlock(h) && k < |WipeOps(h, wipes)| && forall w :: w in wipes ==> Bytes(w.last, h.block) < size
    ensures WipeOps(h, wipes)[k].loc < size + 4096
  {
    var w := wipes[|wipes| - 1];
    var n := |WipeOps(h, wipes[..|wipes| - 1])|;
    if k < n {
      WipePlaces(h, wipes[..|wipes| - 1], k, size);
    } else {
      ErasePlaces(h, w.first, w.last + 1, k - n);
    }
  }

  lemma ConversionPlaces(h: Header, plan: Plan, size: nat)
    requires Sound(h, plan) && size < 0x8000_0000_0000_0000
    requires forall w :: w in plan.wipes ==> Bytes(w.last, h.block) < size
    ensures forall k :: 0 <= k < |ConversionOps(h, plan)| ==> ConversionOps(h, plan)[k].loc <= NONE
  {
    var ops, erase := ConversionOps(h, plan), Erase(h, 0, Reserve(h));
    var n := |erase| + |WipeOps(h, plan.wipes)|;
    var fields := IdOps(plan.id) + (TableOps(plan.parts, |plan.parts|) + [Put(510, [0x55, 0xaa])]);
    FieldsBelow(plan);
    forall k | 0 <= k < |ops| ensures ops[k].loc <= NONE {
      if k < |erase| {
        ErasePlaces(h, 0, Reserve(h), k);
      } else if k < n {
        WipePlaces(h, plan.wipes, k - |erase|, size);
      } else {
        assert ops[k] == fields[k - n];
      }
    }
  }

  lemma {:induction false} WipeOpsHave(h: Header, wipes: seq<Wipe>, w: Wipe)
    requires KnownBlock(h) && w in wipes && w.first <= w.last
    ensures Put(Bytes(w.last, h.block), Zeros(h.block)) in WipeOps(h, wipes)
  {
    var n := |wipes| - 1;
    if w != wipes[n] {
      WipeOpsHave(h, wipes[..n], w);
    }
  }

  /** Writes that all fit prove that the blocks erased are on the medium. */
  lemma FitMeansOnMedium(h: Header, plan: Plan, block: nat, size: nat)
    requires Sound(h, plan) && Bounded(h, plan.wipes) && AllFit(ConversionOps(h, plan), block, size)
    ensures OnMedium(h, plan.wipes, size)
  {
    var ops, erase := ConversionOps(h, plan), Erase(h, 0, Reserve(h));
    assert ops[|erase| - 1] == erase[|erase| - 1];
    BlockFits(ops[|erase| - 1], h, Reserve(h) - 1, block, size);
    forall w | w in plan.wipes ensures Bytes(w.last + 1, h.block) <= size {
      WipeOpsHave(h, plan.wipes, w);
      var op := Put(Bytes(w.last, h.block), Zeros(h.block));
      assert op in ops;
      BlockFits(op, h, w.last, block, size);
    }
  }

  lemma BlockFits(op: Op, h: Header, n: nat, block: nat, size: nat)
    requires KnownBlock(h) && op == Put(Bytes(n, h.block), Zeros(h.block)) && OpFits(op, block, size)
    ensures Bytes(n + 1, h.block) <= size
  {
    FitsInside(block, size, op.loc, h.block);
  }

  /** All the writes, down to the medium. */
  method WriteAll(dev: Disk, ops: seq<Op>, force: bool, image: seq<Byte>) returns (ok: bool, ghost broken: Op)
    requires dev.Valid() && dev.lost == {} && dev.journal == [] && |dev.original| >= 63 * 512 && |image| >= 512
    requires |ops| <= 125 && (forall k :: 0 <= k < |ops| ==> ops[k].loc <= NONE)
    requires AllFit(ops, dev.block, |dev.original|) ==>
               SectorPasses(Effects(dev.View(), ops)) && !Active(Effects(dev.View(), ops))
    modifies dev, dev.cache
    ensures dev.Valid() && dev.clock >= old(dev.clock) && dev.lost <= Range(broken.loc, Extent(broken))
    ensures ok ==>
              var converted := Marked(Effects(old(dev.View()), ops), force);
              |image| <= MAX_IMAGE && dev.disk == Effects(converted, BootOps(converted, image))
    ensures ok ==> AllFit(ops, dev.block, |dev.original|)
    ensures old(dev.Healthy()) ==> dev.lost == {}
    ensures old(dev.Healthy()) && dev.block == 512 ==>
              (ok <==> && AllFit(ops, 512, |dev.original|) && |image| <= MAX_IMAGE
                       && (force || !Magic(Effects(old(dev.View()), ops))))
  {
    ok, broken := WriteConversion(dev, ops, force);
    if ok {
      ok, broken := Finish(dev, image);
    }
  }

  /** The writes of a plan, down to the medium. */
  method WritePlan(dev: Disk, entries: seq<GptEntry>, h: Header, plan: Plan, force: bool, image: seq<Byte>)
    returns (ok: bool, ghost broken: Op)
    requires dev.Valid() && dev.View() == dev.original && dev.lost == {} && dev.journal == []
    requires |dev.original| >= 63 * 512
    requires Planned(entries, h, plan) && Bounded(h, plan.wipes) && |image| >= 512
    requires forall w :: w in plan.wipes ==> Bytes(w.last, h.block) < |dev.original|
    requires Bytes(h.lastBlock + 1, h.block) <= |dev.original| < Bytes(h.lastBlock + 2, h.block)
    modifies dev, dev.cache
    ensures dev.Valid() && dev.clock >= old(dev.clock) && dev.lost <= Range(broken.loc, Extent(broken))
    ensures ok ==> Keeps(dev.disk, dev.original, entries, h) && Lists(dev.disk, UsedOf(entries), plan.parts, h, image)
    ensures ok ==> Cleared(dev.disk, h, plan.wipes, image) && SectorIs(dev.disk, plan.id, UsedOf(entries), h, image)
    ensures old(dev.Healthy()) ==> dev.lost == {}
    ensures old(dev.Healthy()) && dev.block == 512 ==> (ok <==> GoesThrough(h, plan.wipes, dev.original, force, image))
  {
    PlanFits(h, plan, |dev.original|);
    ConversionSize(h, plan);
    PlanPasses(dev.original, entries, h, plan, dev.block);
    ok, broken := WriteAll(dev, ConversionOps(h, plan), force, image);
    if ok {
      Faithful(dev.original, dev.disk, entries, h, plan, force, image, dev.block);
    }
  }

  /** What the medium must be for the writes to go through on a healthy device. */
  ghost predicate GoesThrough(h: Header, wipes: seq<Wipe>, view: seq<Byte>, force: bool, image: seq<Byte>)
    requires KnownBlock(h)
  {
    && |image| <= MAX_IMAGE && (forall w :: w in wipes ==> w.last <= h.lastBlock)
    && (force || ErasedAt(h, wipes, 1080) || !Magic(view))
  }

  lemma PlanPasses(view: seq<Byte>, entries: seq<GptEntry>, h: Header, plan: Plan, block: nat)
    requires Planned(entries, h, plan) && Bounded(h, plan.wipes) && |view| >= 63 * 512
    ensures AllFit(ConversionOps(h, plan), block, |view|) ==>
              && SectorPasses(Effects(view, ConversionOps(h, plan))) && !Active(Effects(view, ConversionOps(h, plan)))
              && (Magic(Effects(view, ConversionOps(h, plan))) <==> Magic(view) && !ErasedAt(h, plan.wipes, 1080))
  {
    if AllFit(ConversionOps(h, plan), block, |view|) {
      FitMeansOnMedium(h, plan, block, |view|);
      ConvertedPasses(view, Effects(view, ConversionOps(h, plan)), entries, h, plan);
      MagicSurvives(view, h, plan);
    }
  }

  lemma BytesWhole(n: nat, block: nat)
    ensures Bytes(n, block) % 512 == 0
  {
  }

  /**
   * On a device of 512-byte blocks the conversion can be written exactly when the headers found are in whole blocks.
   */
  lemma PlanFits(h: Header, plan: Plan, size: nat)
    requires Sound(h, plan) && Bounded(h, plan.wipes) && 63 * 512 <= size < 0x8000_0000_0000_0000
    requires forall w :: w in plan.wipes ==> Bytes(w.last, h.block) < size
    requires Bytes(h.lastBlock + 1, h.block) <= size < Bytes(h.lastBlock + 2, h.block)
    ensures forall k :: 0 <= k < |ConversionOps(h, plan)| ==> ConversionOps(h, plan)[k].loc <= NONE
    ensures AllFit(ConversionOps(h, plan), 512, size) <==> forall w :: w in plan.wipes ==> w.last <= h.lastBlock
  {
    ConversionPlaces(h, plan, size);
    if forall w :: w in plan.wipes ==> w.last <= h.lastBlock {
      WholeFits(h, plan, size);
    }
    if AllFit(ConversionOps(h, plan), 512, size) {
      FitMeansOnMedium(h, plan, 512, size);
      forall w | w in plan.wipes ensures w.last <= h.lastBlock {
        BlockOnMedium(h, w.last, size);
      }
    }
  }

  lemma BlockOnMedium(h: Header, n: nat, size: nat)
    requires KnownBlock(h) && Bytes(n + 1, h.block) <= size < Bytes(h.lastBlock + 2, h.block)
    ensures n <= h.lastBlock
  {
  }

  lemma WholeFits(h: Header, plan: Plan, size: nat)
    requires Sound(h, plan) && Bounded(h, plan.wipes) && 63 * 512 <= size
    requires Bytes(h.lastBlock + 1, h.block) <= size < Bytes(h.lastBlock + 2, h.block)
    requires forall w :: w in plan.wipes ==> w.last <= h.lastBlock
    ensures AllFit(ConversionOps(h, plan), 512, size)
  {
    ReserveSmall(h, size);
    ConversionBelow(h, plan);
    BytesWhole(h.lastBlock + 1, h.block);
    BelowFits(ConversionOps(h, plan), Bytes(h.lastBlock + 1, h.block), size);
  }

  lemma ReserveSmall(h: Header, size: nat)
    requires KnownBlock(h) && 63 * 512 <= size < Bytes(h.lastBlock + 2, h.block)
    ensures Reserve(h) <= h.lastBlock + 1
  {
  }

  lemma Faithful(view: seq<Byte>, v: seq<Byte>, entries: seq<GptEntry>, h: Header, plan: Plan, force: bool,
                 image: seq<Byte>, block: nat)
    requires Planned(entries, h, plan) && Bounded(h, plan.wipes) && |view| >= 63 * 512 && 512 <= |image| <= MAX_IMAGE
    requires AllFit(ConversionOps(h, plan), block, |view|)
    requires var converted := ConvertedView(view, h, plan, force); v == Effects(converted, BootOps(converted, image))
    ensures Keeps(v, view, entries, h) && Lists(v, UsedOf(entries), plan.parts, h, image)
    ensures Cleared(v, h, plan.wipes, image) && SectorIs(v, plan.id, UsedOf(entries), h, image)
  {
    FitMeansOnMedium(h, plan, block, |view|);
    ConversionSector(view, entries, h, plan, force, image);
    ConversionKeeps(view, entries, h, plan, force, image);
    ConversionLists(view, entries, h, plan, force, image);
    ConversionClears(view, h, plan, force, image);
  }

  /** Off the range of a write that was cut short everything is as it was. */
  ghost predicate RestoredBut(disk: seq<Byte>, original: seq<Byte>, broken: Op) {
    && |disk| == |original|
    && forall x :: 0 <= x < |disk| && !Inside(broken.loc, Extent(broken), x) ==> disk[x] == original[x]
  }

  /**
   * What a table, its medium and the boot code must be for the installer to go through with it. An ext magic number
   * in a block that is not erased is refused unless forced.
   */
  ghost predicate Acceptable(entries: seq<GptEntry>, h: Header, named: nat, probe: nat -> bool, view: seq<Byte>,
                             force: bool, image: seq<Byte>)
  {
    && KnownBlock(h) && ConvertibleTable(entries, h)
    && (forall e :: e in entries && e.used ==> Sectors(e.start, h.block) >= 63)
    && (forall c :: c in Candidates(h, named) && probe(c) ==> h.lastUsable < c <= h.lastBlock)
    && |image| <= MAX_IMAGE && (force || ErasedAt(h, Wipes(h, named, probe), 1080) || !Magic(view))
  }

  /** With the usable blocks starting at block 2 the magic number is not erased, and an image that has it is refused. */
  lemma MagicRefused(view: seq<Byte>, image: seq<Byte>)
    requires |view| == 80 * 512 && view[1080] == 0x53 && view[1081] == 0xef && |image| == 512
    ensures var h := Header(512, 2, 70, 79);
            && !Acceptable([], h, 0, c => false, view, false, image)
            && Acceptable([], h, 0, c => false, view, true, image)
            && Magic(Effects(view, ConversionOps(h, Plan([], [], [0, 0, 0, 0]))))
  {
    var h, plan := Header(512, 2, 70, 79), Plan([], [], [0, 0, 0, 0]);
    assert Reserve(h) == 2;
    assert Wipes(h, 0, c => false) == [];
    MagicSurvives(view, h, plan);
  }

  lemma GoesWhenAcceptable(entries: seq<GptEntry>, h: Header, named: nat, probe: nat -> bool, view: seq<Byte>,
                           force: bool, image: seq<Byte>)
    requires KnownBlock(h) && ConvertibleTable(entries, h)
    requires forall e :: e in entries && e.used ==> Sectors(e.start, h.block) >= 63
    requires forall c :: c in Candidates(h, named) && probe(c) ==> h.lastUsable < c
    ensures GoesThrough(h, Wipes(h, named, probe), view, force, image)
       <==> Acceptable(entries, h, named, probe, view, force, image)
  {
    forall c | c in Candidates(h, named) && probe(c)
      ensures WipeOf(h, c).last == c && WipeOf(h, c) in Wipes(h, named, probe)
    {
    }
  }

  /** No header is left where one was found, outside the first 63 sectors. */
  ghost predicate HeadersGone(v: seq<Byte>, h: Header, named: nat, probe: nat -> bool)
    requires KnownBlock(h)
  {
    forall c, x: nat :: c in Candidates(h, named) && probe(c) && 63 * 512 <= x < |v| && InRun(h, Wipe(c, c), x) ==>
                          v[x] == 0
  }

  lemma ClearedHeaders(v: seq<Byte>, h: Header, named: nat, probe: nat -> bool, image: seq<Byte>)
    requires KnownBlock(h) && 512 <= |image| <= MAX_IMAGE && Cleared(v, h, Wipes(h, named, probe), image)
    requires forall c :: c in Candidates(h, named) && probe(c) ==> h.lastUsable < c
    ensures HeadersGone(v, h, named, probe)
  {
    var wipes := Wipes(h, named, probe);
    forall c, x: nat | c in Candidates(h, named) && probe(c) && 63 * 512 <= x < |v| && InRun(h, Wipe(c, c), x)
      ensures v[x] == 0
    {
      assert WipeOf(h, c) in wipes;
      var k :| 0 <= k < |wipes| && wipes[k] == WipeOf(h, c);
      assert InRun(h, wipes[k], x);
      assert ErasedAt(h, wipes, x);
    }
  }

  /**
   * The run of the installer on a hybrid image. A table it converts keeps every byte of every partition and is listed
   * in the MBR as it was, and what was erased reads as zero but for stage 2; a run that fails on a healthy device
   * leaves the medium as it found it; and on a healthy device of 512-byte blocks an image is installed if and only if
   * it is acceptable.
   */
  method ConvertAndInstall(dev: Disk, entries: seq<GptEntry>, h0: Header, named: nat, probe: nat -> bool, id: seq<Byte>,
                           force: bool, image: seq<Byte>)
    returns (outcome: Outcome, restored: bool, h: Header, plan: Plan, ghost broken: Op)
    requires dev.Valid() && dev.View() == dev.disk == dev.original && dev.lost == {} && dev.journal == []
    requires |dev.original| >= 32774 && KnownBlock(h0) && |id| == 4 && |image| >= 512
    requires forall c: nat :: probe(c) ==> Bytes(c, h0.block) < |dev.original|
    modifies dev, dev.cache
    ensures h == h0.(lastBlock := h.lastBlock)
    ensures Bytes(h.lastBlock + 1, h.block) <= |dev.original| < Bytes(h.lastBlock + 2, h.block)
    ensures outcome.NotConverted? <==> !ConvertibleTable(entries, h)
    ensures outcome.NotConverted? ==> dev.disk == dev.original
    ensures outcome.Installed? ==> Keeps(dev.disk, dev.original, entries, h)
    ensures outcome.Installed? ==> Lists(dev.disk, UsedOf(entries), plan.parts, h, image)
    ensures outcome.Installed? ==> SectorIs(dev.disk, id, UsedOf(entries), h, image)
    ensures outcome.Installed? ==> Cleared(dev.disk, h, Wipes(h, named, probe), image)
    ensures outcome.Installed? ==> HeadersGone(dev.disk, h, named, probe)
    ensures outcome.Aborted? && restored ==> RestoredBut(dev.disk, dev.original, broken)
    ensures old(dev.Healthy()) && outcome.Aborted? ==> restored && dev.disk == dev.original
    ensures old(dev.Healthy()) && dev.block == 512 ==>
              (outcome.Installed? <==> Acceptable(entries, h, named, probe, dev.original, force, image))
  {
    restored, broken := true, Get(0, 0);
    outcome, h, plan := MakePlan(|dev.disk|, entries, h0, named, probe, id);
    if !outcome.Installed? {
      return;
    }
    GoesWhenAcceptable(entries, h, named, probe, dev.original, force, image);
    var ok;
    ok, broken := WritePlan(dev, entries, h, plan, force, image);
    if !ok {
      outcome := Aborted;
      restored := dev.Rollback();
    } else {
      ClearedHeaders(dev.disk, h, named, probe, image);
    }
  }
}
