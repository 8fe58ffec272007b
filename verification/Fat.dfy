/**
 * Files on a FAT volume: following a cluster chain through the allocation table, and reading a file through its chain.
 */
module Fat {
  import opened Numeral
  import opened Words
  import opened Blocks
  import opened Volume

  const CAP: nat := 0x100_0000

  datatype Kind = Fat12 | Fat16 | Fat32

  /** What the boot sector says, as far as following files needs it. */
  datatype Context = Context(kind: Kind, bytesPerSector: nat, sectorsPerCluster: nat, fatStart: nat,
                             sectorsPerFat: nat, dataStart: nat)

  /** The ranges the boot sector was checked for. */
  predicate Sane(f: Context) {
    && f.bytesPerSector in {512, 1024, 2048, 4096} && f.sectorsPerCluster in {1, 2, 4, 8, 16, 32, 64, 128}
    && f.fatStart < 0x1_0000 && f.sectorsPerFat < 0x1_0000_0000 && f.dataStart < 0x1_0000_0000
  }

  function ClusterSize(f: Context): nat { Start(f.sectorsPerCluster, f.bytesPerSector) }

  function FatBase(f: Context): nat { f.fatStart * f.bytesPerSector }

  function FatSize(f: Context): nat { f.sectorsPerFat * f.bytesPerSector }

  /** The highest number of a data cluster. */
  function Limit(kind: Kind): nat {
    match kind case Fat12 => 0xfef case Fat16 => 0xffef case Fat32 => 0xfff_ffef
  }

  predicate IsEnd(kind: Kind, c: nat) { c < 2 || c > Limit(kind) }

  // ---------------------------------------------------------------- table entries

  function EntryOffset(kind: Kind, c: nat): nat {
    match kind case Fat12 => c + c / 2 case Fat16 => 2 * c case Fat32 => 4 * c
  }

  function EntryWidth(kind: Kind): nat { if kind.Fat32? then 4 else 2 }

  /** Whether the table is long enough to have an entry for the cluster. */
  predicate HasEntry(f: Context, c: nat) {
    EntryOffset(f.kind, c) + EntryWidth(f.kind) <= FatSize(f)
  }

  function EntryCount(kind: Kind, size: nat): nat {
    match kind case Fat12 => 2 * size / 3 case Fat16 => size / 2 case Fat32 => size / 4
  }

  /** Only clusters below the number of entries have one. */
  lemma EntriesCounted(f: Context, c: nat)
    requires HasEntry(f, c)
    ensures c < EntryCount(f.kind, FatSize(f))
  {
  }

  /** What an entry's bytes say: twelve bits from either end, sixteen, or twenty-eight. */
  function EntryValue(kind: Kind, c: nat, raw: seq<Byte>): nat
    requires |raw| == EntryWidth(kind)
  {
    var low := raw[0] as nat + 256 * (raw[1] as nat);
    match kind
    case Fat12 => if c % 2 == 0 then low % 0x1000 else low / 0x10
    case Fat16 => low
    case Fat32 => low + 0x1_0000 * (raw[2] as nat) + 0x100_0000 * (raw[3] as nat % 0x10)
  }

  /** How many values an entry has: twelve, sixteen or twenty-eight bits. */
  function Values(kind: Kind): nat {
    match kind case Fat12 => 0x1000 case Fat16 => 0x1_0000 case Fat32 => 0x1000_0000
  }

  /** The last sixteen of them are no clusters. */
  lemma LimitIs(kind: Kind, c: nat)
    requires 2 <= c < Values(kind)
    ensures IsEnd(kind, c) <==> c >= Values(kind) - 16
  {
  }

  // How tables are written: two entries in three bytes, or one in two or four bytes, of which a nibble is spare.

  predicate Fitting(kind: Kind, entries: seq<nat>) {
    forall k :: 0 <= k < |entries| ==> entries[k] < Values(kind)
  }

  function Pair(a: nat, b: nat): (s: seq<Byte>)
    requires a < 0x1000 && b < 0x1000
    ensures |s| == 3
  {
    [a % 256, a / 256 + b % 16 * 16, b / 16]
  }

  function Packed12(entries: seq<nat>): seq<Byte>
    requires Fitting(Fat12, entries)
  {
    if |entries| < 2 then [] else Pair(entries[0], entries[1]) + Packed12(entries[2..])
  }

  function Packed16(entries: seq<nat>): seq<Byte>
    requires Fitting(Fat16, entries)
  {
    if entries == [] then [] else [entries[0] % 256, entries[0] / 256] + Packed16(entries[1..])
  }

  function Quad(a: nat, spare: nat): (s: seq<Byte>)
    requires a < 0x1000_0000 && spare < 16
    ensures |s| == 4
  {
    [a % 256, a / 256 % 256, a / 0x1_0000 % 256, a / 0x100_0000 + 16 * spare]
  }

  function Packed32(entries: seq<nat>, spare: nat): seq<Byte>
    requires Fitting(Fat32, entries) && spare < 16
  {
    if entries == [] then [] else Quad(entries[0], spare) + Packed32(entries[1..], spare)
  }

  /** The entry of the table for a cluster is the given one. */
  predicate HoldsEntry(kind: Kind, table: seq<Byte>, c: nat, entry: nat) {
    var at, width := EntryOffset(kind, c), EntryWidth(kind);
    at + width <= |table| && EntryValue(kind, c, table[at..at + width]) == entry
  }

  /** In all three widths every entry is read back from where it was written. */
  lemma {:induction false} Packed12Reads(entries: seq<nat>, c: nat)
    requires Fitting(Fat12, entries) && c < |entries| && |entries| % 2 == 0
    ensures HoldsEntry(Fat12, Packed12(entries), c, entries[c])
    decreases |entries|
  {
    var pair, rest := Pair(entries[0], entries[1]), Packed12(entries[2..]);
    if c < 2 {
      PairReads(entries[0], entries[1], rest, c);
    } else {
      Packed12Reads(entries[2..], c - 2);
      FurtherOn(Fat12, pair, rest, c - 2, 2, entries[c]);
    }
  }

  lemma PairReads(a: nat, b: nat, rest: seq<Byte>, c: nat)
    requires a < 0x1000 && b < 0x1000 && c < 2
    ensures HoldsEntry(Fat12, Pair(a, b) + rest, c, if c == 0 then a else b)
  {
    var raw := (Pair(a, b) + rest)[c..c + 2];
    assert raw[0] == Pair(a, b)[c] && raw[1] == Pair(a, b)[c + 1];
    TwelveBits(a, b);
  }

  lemma TwelveBits(a: nat, b: nat)
    requires a < 0x1000 && b < 0x1000
    ensures (a % 256 + 256 * (a / 256 + b % 16 * 16)) % 0x1000 == a
    ensures (a / 256 + b % 16 * 16 + 256 * (b / 16)) / 0x10 == b
  {
    assert a % 256 + 256 * (a / 256 + b % 16 * 16) == a + 0x1000 * (b % 16);
    assert a / 256 + b % 16 * 16 + 256 * (b / 16) == a / 256 + 16 * b;
  }

  lemma FurtherOn(kind: Kind, head: seq<Byte>, rest: seq<Byte>, c: nat, n: nat, entry: nat)
    requires HoldsEntry(kind, rest, c, entry) && n == (if kind.Fat12? then 2 else 1)
    requires |head| == EntryOffset(kind, n)
    ensures HoldsEntry(kind, head + rest, c + n, entry)
  {
    var at, width := EntryOffset(kind, c), EntryWidth(kind);
    assert EntryOffset(kind, c + n) == |head| + at;
    assert (head + rest)[|head| + at..|head| + at + width] == rest[at..at + width];
  }

  lemma {:induction false} Packed16Reads(entries: seq<nat>, c: nat)
    requires Fitting(Fat16, entries) && c < |entries|
    ensures HoldsEntry(Fat16, Packed16(entries), c, entries[c])
    decreases |entries|
  {
    var a, rest := entries[0], Packed16(entries[1..]);
    if c > 0 {
      Packed16Reads(entries[1..], c - 1);
      FurtherOn(Fat16, [a % 256, a / 256], rest, c - 1, 1, entries[c]);
    }
  }

  lemma {:induction false} Packed32Reads(entries: seq<nat>, spare: nat, c: nat)
    requires Fitting(Fat32, entries) && c < |entries| && spare < 16
    ensures HoldsEntry(Fat32, Packed32(entries, spare), c, entries[c])
    decreases |entries|
  {
    var quad, rest := Quad(entries[0], spare), Packed32(entries[1..], spare);
    if c > 0 {
      Packed32Reads(entries[1..], spare, c - 1);
      FurtherOn(Fat32, quad, rest, c - 1, 1, entries[c]);
    } else {
      QuadReads(entries[0], spare, rest);
    }
  }

  lemma QuadReads(a: nat, spare: nat, rest: seq<Byte>)
    requires a < 0x1000_0000 && spare < 16
    ensures HoldsEntry(Fat32, Quad(a, spare) + rest, 0, a)
  {
    var raw := (Quad(a, spare) + rest)[0..4];
    assert raw == Quad(a, spare);
    Digits(a);
    assert (a / 0x100_0000 + 16 * spare) % 0x10 == a / 0x100_0000;
  }

  /** The cluster's successor on the medium. */
  function Link(medium: seq<Byte>, origin: nat, f: Context, c: nat): nat {
    var at := origin + FatBase(f) + EntryOffset(f.kind, c);
    if at + EntryWidth(f.kind) <= |medium| then EntryValue(f.kind, c, medium[at..at + EntryWidth(f.kind)]) else 0
  }

  // ---------------------------------------------------------------- chains

  /** Clusters each linked to the next, all of them data clusters. */
  ghost predicate Trace(p: seq<nat>, start: nat, kind: Kind, link: nat -> nat) {
    && p != [] && p[0] == start && (forall k :: 0 <= k < |p| ==> !IsEnd(kind, p[k]))
    && (forall k :: 0 <= k < |p| - 1 ==> link(p[k]) == p[k + 1])
  }

  /** A trace whose last link leads out of the data clusters. */
  ghost predicate Chain(s: seq<nat>, start: nat, kind: Kind, link: nat -> nat) {
    Trace(s, start, kind, link) && IsEnd(kind, link(s[|s| - 1]))
  }

  predicate Distinct(s: seq<nat>) {
    forall i, j :: 0 <= i < j < |s| ==> s[i] != s[j]
  }

  /** Two occurrences of a cluster would be followed by the same clusters for ever. */
  lemma {:induction false} Repeats(s: seq<nat>, start: nat, kind: Kind, link: nat -> nat, i: nat, j: nat, k: nat)
    requires Trace(s, start, kind, link) && i < j && j + k < |s| && s[i] == s[j]
    ensures s[i + k] == s[j + k]
  {
    if k > 0 {
      Repeats(s, start, kind, link, i, j, k - 1);
      assert link(s[i + (k - 1)]) == s[i + (k - 1) + 1] && link(s[j + (k - 1)]) == s[j + (k - 1) + 1];
    }
  }

  lemma RepeatGoesOn(s: seq<nat>, start: nat, kind: Kind, link: nat -> nat, i: nat, j: nat)
    requires Trace(s, start, kind, link) && i < j < |s| && s[i] == s[j]
    ensures !IsEnd(kind, link(s[|s| - 1]))
  {
    var k := |s| - 1 - j;
    Repeats(s, start, kind, link, i, j, k);
    assert link(s[i + k]) == s[i + k + 1];
  }

  /** A chain that ends repeats no cluster. */
  lemma ChainDistinct(s: seq<nat>, start: nat, kind: Kind, link: nat -> nat)
    requires Chain(s, start, kind, link)
    ensures Distinct(s)
  {
    forall i, j | 0 <= i < j < |s| ensures s[i] != s[j] {
      if s[i] == s[j] {
        RepeatGoesOn(s, start, kind, link, i, j);
      }
    }
  }

  lemma {:induction false} Pigeonhole(s: seq<nat>, n: nat)
    requires Distinct(s) && forall k :: 0 <= k < |s| ==> s[k] < n
    ensures |s| <= n
  {
    if s != [] {
      assert s[0] < n;
      if i :| 0 <= i < |s| && s[i] == n - 1 {
        var rest := s[..i] + s[i + 1..];
        assert forall k :: 0 <= k < |rest| ==> rest[k] == s[if k < i then k else k + 1];
        Pigeonhole(rest, n - 1);
      } else {
        Pigeonhole(s, n - 1);
      }
    }
  }

  /** Any trace from the same start is part of the chain. */
  lemma {:induction false} TraceInChain(p: seq<nat>, s: seq<nat>, start: nat, kind: Kind, link: nat -> nat)
    requires Trace(p, start, kind, link) && Chain(s, start, kind, link)
    ensures p <= s
  {
    var n := |p|;
    if n > 1 {
      var q := p[..n - 1];
      TraceInChain(q, s, start, kind, link);
      assert q[n - 2] == s[n - 2] && link(p[n - 2]) == p[n - 1];
      assert n - 1 < |s|;
      assert link(s[n - 2]) == s[n - 1];
    }
  }

  // ---------------------------------------------------------------- clusters on the volume

  /** The highest cluster that lies wholly in a volume of the given size. */
  function ReadLimit(f: Context, sectCount: nat): nat
    requires Sane(f)
  {
    if sectCount == UNKNOWN then Limit(f.kind)
    else
      var sectors := BlockOf(sectCount * 512, f.bytesPerSector);
      var clusters := if sectors > f.dataStart then BlockOf(sectors - f.dataStart, f.sectorsPerCluster) else 0;
      if clusters + 1 < Limit(f.kind) then clusters + 1 else Limit(f.kind)
  }

  function ClusterBase(f: Context, c: nat): nat
    requires c >= 2
  {
    Start(f.dataStart + Start(c - 2, f.sectorsPerCluster), f.bytesPerSector)
  }

  /** The first cluster is where the data starts, and each of the others where the one before it ends. */
  lemma ClustersAbut(f: Context, c: nat)
    requires c >= 2
    ensures ClusterBase(f, 2) == Start(f.dataStart, f.bytesPerSector)
    ensures ClusterBase(f, c + 1) == ClusterBase(f, c) + ClusterSize(f)
  {
    var first := f.dataStart + Start(c - 2, f.sectorsPerCluster);
    assert Start(c - 1, f.sectorsPerCluster) == Start(c - 2, f.sectorsPerCluster) + f.sectorsPerCluster;
    StartAdds(first, f.sectorsPerCluster, f.bytesPerSector);
    assert Start(0, f.sectorsPerCluster) == 0;
  }

  /** So no two clusters have a byte in common. */
  lemma {:induction false} ClustersApart(f: Context, c: nat, d: nat)
    requires 2 <= c < d
    ensures ClusterBase(f, c) + ClusterSize(f) <= ClusterBase(f, d)
    decreases d
  {
    ClustersAbut(f, d - 1);
    if c < d - 1 {
      ClustersApart(f, c, d - 1);
    }
  }

  /** The entry for the cluster is in the table and the table's bytes are in the volume. */
  ghost predicate Reachable(v: Vol, f: Context, c: nat) {
    HasEntry(f, c) && v.Bounded(FatBase(f) + EntryOffset(f.kind, c), EntryWidth(f.kind))
  }

  ghost function Links(v: Vol, f: Context): nat -> nat {
    c => Link(v.medium, v.Origin(), f, c)
  }

  /** A chain that can be followed and whose clusters can all be read. */
  ghost predicate ReadableChain(v: Vol, f: Context, start: nat, s: seq<nat>)
    requires Sane(f)
  {
    && Chain(s, start, f.kind, Links(v, f))
    && forall k :: 0 <= k < |s| ==> s[k] <= ReadLimit(f, v.sectCount) && Reachable(v, f, s[k])
  }

  /** Such a chain is never longer than the bounds taken from the table. */
  lemma ChainFits(v: Vol, f: Context, start: nat, s: seq<nat>)
    requires Sane(f) && ReadableChain(v, f, start, s)
    ensures Distinct(s) && |s| <= Limit(f.kind) - 1 && |s| <= EntryCount(f.kind, FatSize(f))
  {
    ChainDistinct(s, start, f.kind, Links(v, f));
    forall k | 0 <= k < |s| ensures s[k] < EntryCount(f.kind, FatSize(f)) {
      EntriesCounted(f, s[k]);
    }
    Pigeonhole(s, EntryCount(f.kind, FatSize(f)));
    var low := seq(|s|, k requires 0 <= k < |s| => s[k] - 2);
    assert forall k :: 0 <= k < |low| ==> low[k] == s[k] - 2;
    Pigeonhole(low, Limit(f.kind) - 1);
  }

  method ReadEntry(v: Vol, f: Context, c: nat) returns (ok: bool, next: nat)
    requires v.Valid() && Sane(f) && !IsEnd(f.kind, c)
    modifies v`clock, v`ready, v`cached, v`loaded, v`reach, v.cache
    ensures v.Valid() && v.clock >= old(v.clock)
    ensures ok ==> Reachable(v, f, c) && next == Links(v, f)(c)
    ensures old(v.Healthy()) && v.Complete() ==> (ok <==> Reachable(v, f, c))
  {
    var offset := EntryOffset(f.kind, c);
    next := 0;
    if offset + EntryWidth(f.kind) > FatSize(f) {
      return false, 0;
    }
    var raw;
    ok, raw := v.Read(FatBase(f) + offset, EntryWidth(f.kind));
    if ok {
      next := EntryValue(f.kind, c, raw);
    }
  }

  /** The most clusters a chain may have. */
  function MaxChain(f: Context): nat
    requires Sane(f)
  {
    var most := if Limit(f.kind) - 1 > CAP then CAP else Limit(f.kind) - 1;
    if EntryCount(f.kind, FatSize(f)) < most then EntryCount(f.kind, FatSize(f)) else most
  }

  /** How far the counting pass has got: every cluster but the last is accepted. */
  ghost predicate Counting(v: Vol, f: Context, start: nat, p: seq<nat>)
    requires Sane(f)
  {
    && Trace(p, start, f.kind, Links(v, f))
    && forall k :: 0 <= k < |p| - 1 ==> p[k] <= ReadLimit(f, v.sectCount) && Reachable(v, f, p[k])
  }

  lemma CountsOn(v: Vol, f: Context, start: nat, p: seq<nat>, next: nat)
    requires Sane(f) && Counting(v, f, start, p) && next == Links(v, f)(p[|p| - 1])
    requires p[|p| - 1] <= ReadLimit(f, v.sectCount) && Reachable(v, f, p[|p| - 1])
    ensures if IsEnd(f.kind, next) then ReadableChain(v, f, start, p) else Counting(v, f, start, p + [next])
  {
  }

  /** Where the counting pass gives up there is no readable chain within the cap. */
  ghost predicate NoChain(v: Vol, f: Context, start: nat)
    requires Sane(f)
  {
    forall s :: ReadableChain(v, f, start, s) ==> |s| > CAP
  }

  lemma StuckMeansNone(v: Vol, f: Context, start: nat, p: seq<nat>)
    requires Sane(f) && Counting(v, f, start, p)
    requires |p| > MaxChain(f) || p[|p| - 1] > ReadLimit(f, v.sectCount) || !Reachable(v, f, p[|p| - 1])
    ensures NoChain(v, f, start)
  {
    forall s | ReadableChain(v, f, start, s) ensures |s| > CAP {
      TraceInChain(p, s, start, f.kind, Links(v, f));
      assert s[|p| - 1] == p[|p| - 1];
      ChainFits(v, f, start, s);
    }
  }

  /** The counting pass. */
  method CountChain(v: Vol, f: Context, start: nat) returns (ok: bool, length: nat, ghost p: seq<nat>)
    requires v.Valid() && Sane(f) && !IsEnd(f.kind, start)
    modifies v`clock, v`ready, v`cached, v`loaded, v`reach, v.cache
    ensures v.Valid() && v.clock >= old(v.clock)
    ensures ok ==> length == |p| <= MaxChain(f) && ReadableChain(v, f, start, p)
    ensures old(v.Healthy()) && v.Complete() && !ok ==> NoChain(v, f, start)
  {
    var cluster := start;
    length := 1;
    p := [start];
    while length <= MaxChain(f)
      invariant v.Valid() && v.clock >= old(v.clock) && length == |p| && Counting(v, f, start, p)
      invariant p[|p| - 1] == cluster
      decreases MaxChain(f) - length
    {
      if cluster > ReadLimit(f, v.sectCount) {
        StuckMeansNone(v, f, start, p);
        return false, 0, p;
      }
      var next;
      ok, next := ReadEntry(v, f, cluster);
      if !ok {
        if !Reachable(v, f, cluster) {
          StuckMeansNone(v, f, start, p);
        }
        return false, 0, p;
      }
      CountsOn(v, f, start, p, next);
      if IsEnd(f.kind, next) {
        return true, length, p;
      }
      p := p + [next];
      cluster := next;
      length := length + 1;
    }
    StuckMeansNone(v, f, start, p);
    return false, 0, p;
  }

  /** The filling pass. */
  method FillChain(v: Vol, f: Context, start: nat, length: nat, ghost p: seq<nat>) returns (ok: bool, chain: seq<nat>)
    requires v.Valid() && Sane(f) && ReadableChain(v, f, start, p) && length == |p|
    modifies v`clock, v`ready, v`cached, v`loaded, v`reach, v.cache
    ensures v.Valid() && v.clock >= old(v.clock)
    ensures ok ==> chain == p
    ensures old(v.Healthy()) && v.Complete() ==> ok
  {
    var cluster := start;
    chain := [];
    for i := 0 to length
      invariant v.Valid() && v.clock >= old(v.clock) && chain == p[..i] && (i < length ==> cluster == p[i])
    {
      chain := chain + [cluster];
      ok, cluster := ReadEntry(v, f, cluster);
      if !ok {
        return;
      }
    }
    ok := true;
  }

  /** A chain is returned exactly when the table holds a readable one of at most the cap. */
  method CacheChain(v: Vol, f: Context, start: nat) returns (ok: bool, chain: seq<nat>)
    requires v.Valid() && Sane(f) && start < 0x1_0000_0000
    modifies v`clock, v`ready, v`cached, v`loaded, v`reach, v.cache
    ensures v.Valid() && v.clock >= old(v.clock)
    ensures ok ==> ReadableChain(v, f, start, chain) && Distinct(chain) && |chain| <= CAP
    ensures old(v.Healthy()) && v.Complete() ==> (!ok <==> NoChain(v, f, start))
  {
    if start < 2 || start > Limit(f.kind) {
      return false, [];
    }
    if v.sectCount != UNKNOWN && v.sectCount * 512 > MAX64 {
      return false, [];
    }
    var length;
    ghost var p;
    ok, length, p := CountChain(v, f, start);
    chain := [];
    if ok {
      ok, chain := FillChain(v, f, start, length, p);
      ChainFits(v, f, start, p);
    }
  }

  // ---------------------------------------------------------------- files

  /** A cluster's bytes. */
  function ClusterBytes(medium: seq<Byte>, at: nat, size: nat): (r: seq<Byte>)
    ensures |r| == size
  {
    seq(size, i requires 0 <= i < size => if at + i < |medium| then medium[at + i] else 0)
  }

  /** The clusters of a chain one after the other. */
  function Contents(medium: seq<Byte>, origin: nat, f: Context, size: nat, chain: seq<nat>): (r: seq<Byte>)
    requires forall k :: 0 <= k < |chain| ==> chain[k] >= 2
    ensures |r| == Start(|chain|, size)
  {
    if chain == [] then []
    else
      var n := |chain| - 1;
      Contents(medium, origin, f, size, chain[..n]) + ClusterBytes(medium, origin + ClusterBase(f, chain[n]), size)
  }

  /** Bytes within one cluster of the file are bytes of that cluster. */
  lemma {:induction false} InCluster(medium: seq<Byte>, origin: nat, f: Context, size: nat, chain: seq<nat>, b: nat,
                                     offset: nat, part: seq<Byte>)
    requires (forall k :: 0 <= k < |chain| ==> chain[k] >= 2) && b < |chain| && offset + |part| <= size
    requires Sees(medium, origin + ClusterBase(f, chain[b]) + offset, |part|, part)
    ensures Sees(Contents(medium, origin, f, size, chain), Start(b, size) + offset, |part|, part)
    decreases |chain|
  {
    var n := |chain| - 1;
    var at := origin + ClusterBase(f, chain[n]);
    var whole := Contents(medium, origin, f, size, chain);
    var before, last := Contents(medium, origin, f, size, chain[..n]), ClusterBytes(medium, at, size);
    if b < n {
      InCluster(medium, origin, f, size, chain[..n], b, offset, part);
      SeesPrefix(whole, before, last, Start(b, size) + offset, part);
    } else {
      InLast(medium, at, size, offset, part);
      SeesSuffix(whole, before, last, offset, part, Start(b, size) + offset);
    }
  }

  lemma InLast(medium: seq<Byte>, at: nat, size: nat, offset: nat, part: seq<Byte>)
    requires offset + |part| <= size && Sees(medium, at + offset, |part|, part)
    ensures Sees(ClusterBytes(medium, at, size), offset, |part|, part)
  {
    var last := ClusterBytes(medium, at, size);
    forall k | 0 <= k < |part| ensures part[k] == last[offset + k] {
      assert part[k] == medium[at + offset + k];
    }
  }

  lemma SeesPrefix(whole: seq<Byte>, a: seq<Byte>, b: seq<Byte>, loc: nat, part: seq<Byte>)
    requires whole == a + b && Sees(a, loc, |part|, part)
    ensures Sees(whole, loc, |part|, part)
  {
  }

  lemma SeesSuffix(whole: seq<Byte>, a: seq<Byte>, b: seq<Byte>, loc: nat, part: seq<Byte>, at: nat)
    requires whole == a + b && Sees(b, loc, |part|, part) && at == |a| + loc
    ensures Sees(whole, at, |part|, part)
  {
  }

  /** A cluster up to the limit lies wholly in the volume. */
  lemma ClusterInside(f: Context, sectCount: nat, c: nat)
    requires Sane(f) && sectCount != UNKNOWN && 2 <= c <= ReadLimit(f, sectCount)
    ensures ClusterBase(f, c) + ClusterSize(f) <= 512 * sectCount
  {
    var bps, spc := f.bytesPerSector, f.sectorsPerCluster;
    var sectors := BlockOf(sectCount * 512, bps);
    BlockBegins(sectCount * 512, bps);
    ClusterEnds(c - 2, BlockOf(sectors - f.dataStart, spc), sectors - f.dataStart, spc);
    EndsInside(f.dataStart + Start(c - 2, spc), spc, sectors, bps);
  }

  /** And a cluster that lies wholly in the volume is up to the limit. */
  lemma InsideIsReadable(f: Context, sectCount: nat, c: nat)
    requires Sane(f) && sectCount != UNKNOWN && 2 <= c <= Limit(f.kind)
    requires ClusterBase(f, c) + ClusterSize(f) <= 512 * sectCount
    ensures c <= ReadLimit(f, sectCount)
  {
    var bps, spc := f.bytesPerSector, f.sectorsPerCluster;
    var first, sectors := f.dataStart + Start(c - 2, spc), BlockOf(sectCount * 512, bps);
    StartAdds(first, spc, bps);
    WholeBelow(first + spc, sectCount * 512, bps);
    assert Start(c - 1, spc) == Start(c - 2, spc) + spc;
    WholeBelow(c - 1, sectors - f.dataStart, spc);
  }

  lemma WholeBelow(m: nat, x: nat, block: nat)
    requires block > 0 && Start(m, block) <= x
    ensures m <= BlockOf(x, block)
  {
    var b := BlockOf(x, block);
    BlockEnds(x, block);
    if b < m {
      StartMonotone(b + 1, m, block);
    }
  }

  /** A cluster counted in whole ones ends within the sectors. */
  lemma ClusterEnds(k: nat, clusters: nat, sectors: nat, spc: nat)
    requires spc > 0 && clusters == BlockOf(sectors, spc) && k < clusters
    ensures Start(k, spc) + spc <= sectors
  {
    BlockBegins(sectors, spc);
    StartMonotone(k + 1, clusters, spc);
    assert Start(k + 1, spc) == Start(k, spc) + spc;
  }

  /** Sectors up to a bound end no later than the bound does. */
  lemma EndsInside(first: nat, count: nat, sectors: nat, bps: nat)
    requires first + count <= sectors
    ensures Start(first, bps) + Start(count, bps) <= Start(sectors, bps)
  {
    StartAdds(first, count, bps);
    StartMonotone(first + count, sectors, bps);
  }

  /** An open file: its chain and its size, which the chain's clusters can hold. */
  datatype Handle = Handle(chain: seq<nat>, size: nat)

  ghost predicate Opened(v: Vol, f: Context, h: Handle)
    requires Sane(f)
  {
    && h.size <= Start(|h.chain|, ClusterSize(f))
    && (forall k :: 0 <= k < |h.chain| ==> 2 <= h.chain[k] <= ReadLimit(f, v.sectCount))
    && (h.chain != [] ==> Distinct(h.chain) && exists start :: ReadableChain(v, f, start, h.chain))
  }

  /** Opening a file of the given first cluster and size; an empty one needs no chain. */
  method Open(v: Vol, f: Context, first: nat, size: nat) returns (ok: bool, h: Handle)
    requires v.Valid() && Sane(f) && first < 0x1_0000_0000
    modifies v`clock, v`ready, v`cached, v`loaded, v`reach, v.cache
    ensures v.Valid() && v.clock >= old(v.clock)
    ensures ok ==> Opened(v, f, h) && h.size == size
    ensures old(v.Healthy()) && v.Complete() && !ok ==>
              size > 0 && forall s :: ReadableChain(v, f, first, s) && |s| <= CAP ==> size > Start(|s|, ClusterSize(f))
  {
    var found, chain := CacheChain(v, f, first);
    if !found {
      chain := [];
    }
    StartIs(|chain|, ClusterSize(f));
    h := Handle(chain, size);
    ok := size <= |chain| * ClusterSize(f);
    forall s | !ok && found && ReadableChain(v, f, first, s) ensures s == chain {
      TraceInChain(s, chain, first, f.kind, Links(v, f));
      TraceInChain(chain, s, first, f.kind, Links(v, f));
    }
  }

  ghost function FileBytes(v: Vol, f: Context, h: Handle): seq<Byte>
    requires forall k :: 0 <= k < |h.chain| ==> h.chain[k] >= 2
  {
    Contents(v.medium, v.Origin(), f, ClusterSize(f), h.chain)
  }

  lemma SizesBound(f: Context)
    requires Sane(f)
    ensures 512 <= ClusterSize(f) <= 0x8_0000
  {
    StartIs(f.sectorsPerCluster, f.bytesPerSector);
  }

  lemma BaseBound(f: Context, c: nat)
    requires Sane(f) && 2 <= c <= Limit(f.kind)
    ensures ClusterBase(f, c) + ClusterSize(f) <= MAX64
  {
    SizesBound(f);
    var a := Start(c - 2, f.sectorsPerCluster);
    StartAtMost(c - 2, f.sectorsPerCluster, 0x1000_0000, 128);
    StartAtMost(f.dataStart + a, f.bytesPerSector, 0x1_0000_0000 + 0x1000_0000 * 128, 4096);
  }

  lemma StartAtMost(n: nat, size: nat, most: nat, widest: nat)
    requires n <= most && size <= widest
    ensures Start(n, size) <= most * widest
  {
    StartIs(n, size);
    MulOrder(n, most, size);
    MulOrder(size, widest, most);
  }

  /** A piece of one cluster. */
  method ReadCluster(v: Vol, f: Context, c: nat, offset: nat, count: nat) returns (ok: bool, part: seq<Byte>)
    requires v.Valid() && Sane(f) && 2 <= c <= ReadLimit(f, v.sectCount) && 0 < count
    requires offset + count <= ClusterSize(f)
    modifies v`clock, v`ready, v`cached, v`loaded, v`reach, v.cache
    ensures v.Valid() && v.clock >= old(v.clock)
    ensures ok ==> Sees(v.medium, v.Origin() + ClusterBase(f, c) + offset, count, part)
    ensures old(v.Healthy()) && v.Complete() ==> ok
  {
    BaseBound(f, c);
    if v.Complete() {
      ClusterInside(f, v.sectCount, c);
    }
    var base := Place(f, c);
    ok, part := v.Read(base + offset, count);
  }

  method Place(f: Context, c: nat) returns (base: nat)
    requires c >= 2
    ensures base == ClusterBase(f, c)
  {
    StartIs(c - 2, f.sectorsPerCluster);
    StartIs(f.dataStart + (c - 2) * f.sectorsPerCluster, f.bytesPerSector);
    base := (f.dataStart + (c - 2) * f.sectorsPerCluster) * f.bytesPerSector;
  }

  /** The cluster a byte of the file falls into, and where in it. */
  method FindCluster(f: Context, loc: nat) returns (b: nat, offset: nat, left: nat)
    requires Sane(f)
    ensures Start(b, ClusterSize(f)) + offset == loc && offset + left == ClusterSize(f) && left > 0
  {
    SizesBound(f);
    StartIs(f.sectorsPerCluster, f.bytesPerSector);
    var size := f.sectorsPerCluster * f.bytesPerSector;
    b, offset := Locate(loc, size);
    left := size - offset;
  }

  /** What of a read falls into the given cluster of the chain, which may be cut short by its end. */
  method ReadPiece(v: Vol, f: Context, chain: seq<nat>, b: nat, offset: nat, left: nat, count: nat)
    returns (ok: bool, part: seq<Byte>)
    requires v.Valid() && Sane(f) && b < |chain| && count > 0 && left > 0 && offset + left == ClusterSize(f)
    requires forall k :: 0 <= k < |chain| ==> 2 <= chain[k] <= ReadLimit(f, v.sectCount)
    modifies v`clock, v`ready, v`cached, v`loaded, v`reach, v.cache
    ensures v.Valid() && v.clock >= old(v.clock)
    ensures ok ==> 0 < |part| <= count && Sees(Contents(v.medium, v.Origin(), f, ClusterSize(f), chain),
                                               Start(b, ClusterSize(f)) + offset, |part|, part)
    ensures old(v.Healthy()) && v.Complete() ==> ok
  {
    var c := chain[b];
    part := [];
    if c < 2 {
      return false, [];
    }
    var chunk := count;
    if chunk > left {
      chunk := left;
    }
    ok, part := ReadCluster(v, f, c, offset, chunk);
    if ok {
      InCluster(v.medium, v.Origin(), f, ClusterSize(f), chain, b, offset, part);
    }
  }

  /** The part of a read that falls into one cluster. */
  method ReadPart(v: Vol, f: Context, h: Handle, loc: nat, count: nat) returns (ok: bool, part: seq<Byte>)
    requires v.Valid() && Sane(f) && Opened(v, f, h) && count > 0
    modifies v`clock, v`ready, v`cached, v`loaded, v`reach, v.cache
    ensures v.Valid() && v.clock >= old(v.clock)
    ensures ok ==> 0 < |part| <= count && Sees(FileBytes(v, f, h), loc, |part|, part)
    ensures old(v.Healthy()) && v.Complete() && loc < h.size ==> ok
  {
    var b, offset, left := FindCluster(f, loc);
    part := [];
    if b >= |h.chain| {
      StartMonotone(|h.chain|, b, ClusterSize(f));
      return false, [];
    }
    ok, part := ReadPiece(v, f, h.chain, b, offset, left, count);
  }

  /** Within the file's size a read gives its bytes, and fails only if the drive does. */
  method ReadFile(v: Vol, f: Context, h: Handle, loc: nat, count: nat) returns (ok: bool, buffer: seq<Byte>)
    requires v.Valid() && Sane(f) && Opened(v, f, h) && loc + count <= h.size
    modifies v`clock, v`ready, v`cached, v`loaded, v`reach, v.cache
    ensures v.Valid() && v.clock >= old(v.clock)
    ensures ok ==> Sees(FileBytes(v, f, h), loc, count, buffer)
    ensures old(v.Healthy()) && v.Complete() ==> ok
  {
    buffer := [];
    var progress := 0;
    while progress < count
      invariant progress <= count && v.Valid() && v.clock >= old(v.clock)
      invariant Sees(FileBytes(v, f, h), loc, progress, buffer)
    {
      var part;
      ok, part := ReadPart(v, f, h, loc + progress, count - progress);
      if !ok {
        return;
      }
      SeesMore(FileBytes(v, f, h), loc, progress, buffer, |part|, part);
      buffer := buffer + part;
      progress := progress + |part|;
    }
    ok := true;
  }
}
