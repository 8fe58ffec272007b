/**
 * Logical partitions: a chain of extended boot records inside the extended partition, walked anew for every partition
 * asked for, except that the walk goes on from where the last one stopped if that is not too far.
 */
module Ebr {
  import opened Words

  const MAX_LINKS: nat := 256

  /** A table slot as read from the medium, in sectors. */
  datatype Slot = Bad | Slot(kind: nat, first: nat, count: nat)

  /** What a sector of the extended partition holds: no record, or four slots. */
  datatype Record = NoRecord | Record(slots: seq<Slot>)

  datatype Option<T> = None | Some(value: T)

  /** The disk's and the extended partition's extent, and what each of its sectors holds. */
  datatype Extended = Extended(diskSize: nat, first: nat, size: nat, record: nat -> Record)

  datatype Result = EndOfTable | NoPartition | Partition(first: nat, count: nat)

  /** Where a walk stands: before a record, having counted so many partitions, under a link of the given size. */
  datatype Position = Position(accepted: int, sector: nat, size: nat)

  datatype Link = Link(first: nat, count: nat)

  /** How one record ends the search, or lets it pass with a count and perhaps a link. */
  datatype Outcome = Stop(result: Result) | Pass(accepted: int, link: Option<Link>)

  predicate IsExtended(kind: nat) { kind == 0x0f || kind == 0x05 || kind == 0x85 }

  function RecordAt(x: Extended, sector: nat): (r: Record)
    ensures r.Record? ==> |r.slots| == 4
  {
    var r := x.record(sector);
    if r.Record? && |r.slots| == 4 then r else NoRecord
  }

  /** A non-empty range within a size, or within 64 bits if the size is not known. */
  predicate RangeValid(size: nat, first: nat, count: nat) {
    count != 0 && first + count <= MAX64 && (size != MAX64 ==> first + count <= size)
  }

  /** Whether a data slot lies in the extended partition and on the disk, taken from its record's sector. */
  predicate Contained(x: Extended, sector: nat, s: Slot)
    requires s.Slot?
  {
    && sector + s.first <= MAX64 && RangeValid(x.size, sector + s.first, s.count)
    && x.first + sector + s.first <= MAX64 && RangeValid(x.diskSize, x.first + sector + s.first, s.count)
  }

  /** It ends no later than either, as far as their sizes are known. */
  lemma ContainedIs(x: Extended, sector: nat, s: Slot)
    requires s.Slot? && x.size <= MAX64 && x.diskSize <= MAX64
    ensures Contained(x, sector, s) <==>
            && s.count != 0 && x.first + sector + s.first + s.count <= MAX64
            && (x.size < MAX64 ==> sector + s.first + s.count <= x.size)
            && (x.diskSize < MAX64 ==> x.first + sector + s.first + s.count <= x.diskSize)
  {
  }

  // ---------------------------------------------------------------- one record

  /** The slots of a record from i on. */
  function Scan(x: Extended, slots: seq<Slot>, p: Position, want: int, i: nat, accepted: int,
                link: Option<Link>): Outcome
    requires i <= |slots|
    decreases |slots| - i
  {
    if i == |slots| then Pass(accepted, link)
    else
      match slots[i]
      case Bad => Stop(EndOfTable)
      case Slot(kind, first, count) =>
        if IsExtended(kind) then
          Scan(x, slots, p, want, i + 1, accepted, if link.None? && count != 0 then Some(Link(first, count)) else link)
        else if count == 0 then Scan(x, slots, p, want, i + 1, accepted, link)
        else
          var contained := Contained(x, p.sector, slots[i]);
          if i >= 2 && (!contained || first + count > p.size) then Scan(x, slots, p, want, i + 1, accepted, link)
          else if accepted == want then
            Stop(if contained then Partition(x.first + p.sector + first, count) else NoPartition)
          else Scan(x, slots, p, want, i + 1, accepted + 1, link)
  }

  /** Where a record's link leads, if it goes forward and stays inside. */
  function Follow(x: Extended, p: Position, accepted: int, link: Option<Link>): Option<Position> {
    match link
    case None => None
    case Some(l) =>
      if l.first == 0 || l.first <= p.sector || l.first >= x.size then None else Some(Position(accepted, l.first,
                                                                                               l.count))
  }

  function Visit(x: Extended, p: Position, want: int): Outcome {
    match RecordAt(x, p.sector)
    case NoRecord => Stop(EndOfTable)
    case Record(slots) => Scan(x, slots, p, want, 0, p.accepted, None)
  }

  // ---------------------------------------------------------------- the walk

  /** The walk for a partition over at most so many records. */
  function Walk(x: Extended, p: Position, want: int, links: nat): Result
    decreases links
  {
    if links == 0 then EndOfTable
    else
      match Visit(x, p, want)
      case Stop(r) => r
      case Pass(accepted, link) =>
        match Follow(x, p, accepted, link)
        case None => EndOfTable
        case Some(q) => Walk(x, q, want, links - 1)
  }

  function Head(x: Extended): Position { Position(0, 0, x.size) }

  /** The next record of the chain, whatever is asked for. */
  function Next(x: Extended, p: Position): Option<Position> {
    match Visit(x, p, -1)
    case Stop(_) => None
    case Pass(accepted, link) => Follow(x, p, accepted, link)
  }

  function After(x: Extended, p: Position, k: nat): Option<Position>
    decreases k
  {
    if k == 0 then Some(p)
    else match Next(x, p) case None => None case Some(q) => After(x, q, k - 1)
  }

  /** Looking for something further on passes a record just as looking for nothing does. */
  lemma {:induction false} ScanPasses(x: Extended, slots: seq<Slot>, p: Position, want: int, i: nat, accepted: int,
                                      link: Option<Link>)
    requires i <= |slots| && 0 <= accepted
    ensures var none := Scan(x, slots, p, -1, i, accepted, link);
            && (none.Pass? ==> accepted <= none.accepted)
            && (none.Pass? && none.accepted <= want ==> Scan(x, slots, p, want, i, accepted, link) == none)
            && (Scan(x, slots, p, want, i, accepted, link).Pass? ==> Scan(x, slots, p, want, i, accepted, link) == none)
    decreases |slots| - i
  {
    if i < |slots| && slots[i].Slot? {
      var s := slots[i];
      var link' := if link.None? && s.count != 0 then Some(Link(s.first, s.count)) else link;
      ScanPasses(x, slots, p, want, i + 1, accepted, link');
      ScanPasses(x, slots, p, want, i + 1, accepted, link);
      ScanPasses(x, slots, p, want, i + 1, accepted + 1, link);
    }
  }

  lemma VisitPasses(x: Extended, p: Position, want: int)
    requires 0 <= p.accepted
    ensures var none := Visit(x, p, -1);
            && (none.Pass? ==> p.accepted <= none.accepted)
            && (none.Pass? && none.accepted <= want ==> Visit(x, p, want) == none)
            && (Visit(x, p, want).Pass? ==> Visit(x, p, want) == none)
  {
    match RecordAt(x, p.sector)
    case NoRecord =>
    case Record(slots) => ScanPasses(x, slots, p, want, 0, p.accepted, None);
  }

  /** A walk may begin at any record whose count does not exceed what is wanted. */
  lemma {:induction false} WalkFrom(x: Extended, p: Position, want: int, k: nat, links: nat)
    requires 0 <= p.accepted && After(x, p, k).Some? && After(x, p, k).value.accepted <= want
    ensures p.accepted <= After(x, p, k).value.accepted
    ensures Walk(x, p, want, k + links) == Walk(x, After(x, p, k).value, want, links)
    decreases k
  {
    if k > 0 {
      var q := Next(x, p).value;
      VisitPasses(x, p, want);
      WalkFrom(x, q, want, k - 1, links);
    }
  }

  /** Once the chain has ended, a larger allowance changes nothing. */
  lemma {:induction false} WalkEnds(x: Extended, p: Position, want: int, n: nat, m: nat)
    requires 0 <= p.accepted && After(x, p, n).None? && n <= m
    ensures Walk(x, p, want, n) == Walk(x, p, want, m)
    decreases n
  {
    VisitPasses(x, p, want);
    if Next(x, p).Some? && Visit(x, p, want).Pass? {
      WalkEnds(x, Next(x, p).value, want, n - 1, m - 1);
    }
  }

  lemma {:induction false} AfterAdds(x: Extended, p: Position, j: nat, k: nat)
    requires After(x, p, j).Some?
    ensures After(x, p, j + k) == After(x, After(x, p, j).value, k)
    decreases j
  {
    if j > 0 {
      AfterAdds(x, Next(x, p).value, j - 1, k);
    }
  }

  // ---------------------------------------------------------------- what is returned

  /** A partition found lies in the extended partition and on the disk. */
  predicate Inside(x: Extended, r: Result) {
    r.Partition? ==>
      && r.count > 0 && x.first <= r.first
      && (x.size != MAX64 ==> r.first + r.count <= x.first + x.size)
      && (x.diskSize != MAX64 ==> r.first + r.count <= x.diskSize)
  }

  lemma {:induction false} ScanInside(x: Extended, slots: seq<Slot>, p: Position, want: int, i: nat, accepted: int,
                                      link: Option<Link>)
    requires i <= |slots|
    ensures Scan(x, slots, p, want, i, accepted, link).Stop? ==>
              Inside(x, Scan(x, slots, p, want, i, accepted, link).result)
    decreases |slots| - i
  {
    if i < |slots| && slots[i].Slot? {
      var s := slots[i];
      ScanInside(x, slots, p, want, i + 1, accepted,
                 if link.None? && s.count != 0 then Some(Link(s.first, s.count)) else link);
      ScanInside(x, slots, p, want, i + 1, accepted, link);
      ScanInside(x, slots, p, want, i + 1, accepted + 1, link);
    }
  }

  lemma {:induction false} WalkInside(x: Extended, p: Position, want: int, links: nat)
    ensures Inside(x, Walk(x, p, want, links))
    decreases links
  {
    if links > 0 && RecordAt(x, p.sector).Record? {
      ScanInside(x, RecordAt(x, p.sector).slots, p, want, 0, p.accepted, None);
      match Visit(x, p, want)
      case Stop(_) =>
      case Pass(accepted, link) =>
        if Follow(x, p, accepted, link).Some? {
          WalkInside(x, Follow(x, p, accepted, link).value, want, links - 1);
        }
    }
  }

  // ---------------------------------------------------------------- what a number stands for

  /** A record's sector, and the size the link to it declared. */
  datatype Place = Place(sector: nat, size: nat)

  /** The slot is a partition that counts: the first two wherever they lie, the others only if they fit. */
  predicate Counts(x: Extended, at: Place, slots: seq<Slot>, i: nat)
    requires i < |slots|
  {
    && slots[i].Slot? && !IsExtended(slots[i].kind) && slots[i].count != 0
    && (i < 2 || (Contained(x, at.sector, slots[i]) && slots[i].first + slots[i].count <= at.size))
  }

  /** How many of the slots from j up to i count. */
  function Counted(x: Extended, at: Place, slots: seq<Slot>, j: nat, i: nat): nat
    requires i <= |slots|
    decreases i - j
  {
    if i <= j then 0 else (if Counts(x, at, slots, j) then 1 else 0) + Counted(x, at, slots, j + 1, i)
  }

  predicate Linking(s: Slot) { s.Slot? && IsExtended(s.kind) && s.count != 0 }

  /** Slot i is the record's link: the first slot of an extended type that is not empty. */
  predicate IsLink(slots: seq<Slot>, i: nat) {
    i < |slots| && Linking(slots[i]) && forall j :: 0 <= j < i ==> !Linking(slots[j])
  }

  predicate Readable(slots: seq<Slot>, n: nat) {
    n <= |slots| && forall j :: 0 <= j < n ==> slots[j].Slot?
  }

  /** The record at one place leads to the next, which lies further on and inside. */
  ghost predicate Leads(x: Extended, at: Place, next: Place) {
    var r := RecordAt(x, at.sector);
    && r.Record? && Readable(r.slots, 4) && at.sector < next.sector < x.size
    && exists i: nat :: IsLink(r.slots, i) && next == Place(r.slots[i].first, r.slots[i].count)
  }

  ghost predicate Chain(x: Extended, places: seq<Place>) {
    && places != [] && (forall k :: 0 <= k < |places| ==> RecordAt(x, places[k].sector).Record?)
    && forall k :: 0 <= k < |places| - 1 ==> Leads(x, places[k], places[k + 1])
  }

  /** How many partitions the records up to the last one hold. */
  function Before(x: Extended, places: seq<Place>): nat
    requires forall k :: 0 <= k < |places| ==> RecordAt(x, places[k].sector).Record?
  {
    if |places| < 2 then 0
    else Counted(x, places[0], RecordAt(x, places[0].sector).slots, 0, 4) + Before(x, places[1..])
  }

  /** Slot i of the last record of a chain is the partition with exactly so many before it. */
  ghost predicate Finds(x: Extended, places: seq<Place>, i: nat, want: nat) {
    && Chain(x, places) && i < 4
    && var at := places[|places| - 1];
       var slots := RecordAt(x, at.sector).slots;
       Readable(slots, i) && Counts(x, at, slots, i) && Before(x, places) + Counted(x, at, slots, 0, i) == want
  }

  /** That partition, if it lies inside: its start is relative to its record's sector. */
  ghost function Answer(x: Extended, places: seq<Place>, i: nat): Result
    requires places != [] && RecordAt(x, places[|places| - 1].sector).Record? && i < 4
  {
    var s := places[|places| - 1].sector;
    var slot := RecordAt(x, s).slots[i];
    if slot.Slot? && Contained(x, s, slot) then Partition(x.first + s + slot.first, slot.count) else NoPartition
  }

  lemma {:induction false} ScanStops(x: Extended, slots: seq<Slot>, p: Position, want: nat, j: nat, accepted: nat,
                                     link: Option<Link>, i: nat)
    requires j <= i < |slots| && Readable(slots, i) && Counts(x, Place(p.sector, p.size), slots, i)
    requires accepted + Counted(x, Place(p.sector, p.size), slots, j, i) == want
    ensures Scan(x, slots, p, want, j, accepted, link)
         == Stop(if Contained(x, p.sector, slots[i]) then Partition(x.first + p.sector + slots[i].first, slots[i].count)
                 else NoPartition)
    decreases i - j
  {
    if j < i {
      var s, at := slots[j], Place(p.sector, p.size);
      var link' := if link.None? && s.count != 0 then Some(Link(s.first, s.count)) else link;
      if IsExtended(s.kind) {
        ScanStops(x, slots, p, want, j + 1, accepted, link', i);
      } else if Counts(x, at, slots, j) {
        ScanStops(x, slots, p, want, j + 1, accepted + 1, link, i);
      } else {
        ScanStops(x, slots, p, want, j + 1, accepted, link, i);
      }
    }
  }

  /** What the scan latches from slot j on, nothing having been latched before. */
  function FirstLink(slots: seq<Slot>, j: nat): Option<Link>
    requires j <= |slots|
    decreases |slots| - j
  {
    if j == |slots| then None
    else if Linking(slots[j]) then Some(Link(slots[j].first, slots[j].count)) else FirstLink(slots, j + 1)
  }

  lemma {:induction false} FirstLinkIs(slots: seq<Slot>, j: nat)
    requires j <= |slots| && forall k :: 0 <= k < j ==> !Linking(slots[k])
    ensures FirstLink(slots, j).None? ==> forall i: nat :: !IsLink(slots, i)
    ensures FirstLink(slots, j).Some? ==>
              exists i: nat :: IsLink(slots, i) && FirstLink(slots, j).value == Link(slots[i].first, slots[i].count)
    decreases |slots| - j
  {
    if j < |slots| {
      if Linking(slots[j]) {
        assert IsLink(slots, j);
      } else {
        FirstLinkIs(slots, j + 1);
      }
    }
  }

  lemma {:induction false} ScanGoesOn(x: Extended, slots: seq<Slot>, p: Position, want: nat, j: nat, accepted: nat,
                                      link: Option<Link>)
    requires j <= |slots| && Readable(slots, |slots|)
    requires accepted + Counted(x, Place(p.sector, p.size), slots, j, |slots|) <= want
    ensures Scan(x, slots, p, want, j, accepted, link)
         == Pass(accepted + Counted(x, Place(p.sector, p.size), slots, j, |slots|),
                 if link.Some? then link else FirstLink(slots, j))
    decreases |slots| - j
  {
    if j < |slots| {
      var s, at := slots[j], Place(p.sector, p.size);
      var link' := if link.None? && s.count != 0 then Some(Link(s.first, s.count)) else link;
      if IsExtended(s.kind) {
        ScanGoesOn(x, slots, p, want, j + 1, accepted, link');
      } else if Counts(x, at, slots, j) {
        ScanGoesOn(x, slots, p, want, j + 1, accepted + 1, link);
      } else {
        ScanGoesOn(x, slots, p, want, j + 1, accepted, link);
      }
    }
  }

  /** A walk long enough finds what the chain says is there. */
  lemma {:induction false} WalkFinds(x: Extended, places: seq<Place>, i: nat, accepted: nat, want: nat, links: nat)
    requires accepted <= want && Finds(x, places, i, want - accepted) && |places| <= links
    ensures Walk(x, Position(accepted, places[0].sector, places[0].size), want, links) == Answer(x, places, i)
    decreases |places|
  {
    var at := places[0];
    var p, slots := Position(accepted, at.sector, at.size), RecordAt(x, at.sector).slots;
    if |places| == 1 {
      ScanStops(x, slots, p, want, 0, accepted, None, i);
    } else {
      var rest, n := places[1..], Counted(x, at, slots, 0, 4);
      assert Leads(x, at, rest[0]);
      ScanGoesOn(x, slots, p, want, 0, accepted, None);
      FirstLinkIs(slots, 0);
      LinkUnique(slots);
      forall k | 0 <= k < |rest| - 1 ensures Leads(x, rest[k], rest[k + 1]) {
        assert Leads(x, places[k + 1], places[k + 2]);
      }
      WalkFinds(x, rest, i, accepted + n, want, links - 1);
      var q := Position(accepted + n, rest[0].sector, rest[0].size);
      assert Follow(x, p, accepted + n, FirstLink(slots, 0)) == Some(q);
      assert Answer(x, rest, i) == Answer(x, places, i);
    }
  }

  lemma LinkUnique(slots: seq<Slot>)
    ensures forall i: nat, j: nat :: IsLink(slots, i) && IsLink(slots, j) ==> i == j
  {
  }

  lemma {:induction false} ScanFound(x: Extended, slots: seq<Slot>, p: Position, want: nat, j: nat, accepted: nat,
                                     link: Option<Link>) returns (i: nat)
    requires j <= |slots| && Readable(slots, j) && accepted <= want
    requires var o := Scan(x, slots, p, want, j, accepted, link); o.Stop? && !o.result.EndOfTable?
    ensures j <= i < |slots| && Readable(slots, i) && Counts(x, Place(p.sector, p.size), slots, i)
    ensures accepted + Counted(x, Place(p.sector, p.size), slots, j, i) == want
    decreases |slots| - j
  {
    var s, at := slots[j], Place(p.sector, p.size);
    var link' := if link.None? && s.count != 0 then Some(Link(s.first, s.count)) else link;
    if IsExtended(s.kind) {
      i := ScanFound(x, slots, p, want, j + 1, accepted, link');
    } else if !Counts(x, at, slots, j) {
      i := ScanFound(x, slots, p, want, j + 1, accepted, link);
    } else if accepted == want {
      i := j;
    } else {
      i := ScanFound(x, slots, p, want, j + 1, accepted + 1, link);
    }
  }

  lemma {:induction false} ScanPassed(x: Extended, slots: seq<Slot>, p: Position, want: nat, j: nat, accepted: nat,
                                      link: Option<Link>)
    requires j <= |slots| && Readable(slots, j) && accepted <= want
    requires Scan(x, slots, p, want, j, accepted, link).Pass?
    ensures Readable(slots, |slots|) && accepted + Counted(x, Place(p.sector, p.size), slots, j, |slots|) <= want
    decreases |slots| - j
  {
    if j < |slots| {
      var s, at := slots[j], Place(p.sector, p.size);
      var link' := if link.None? && s.count != 0 then Some(Link(s.first, s.count)) else link;
      if IsExtended(s.kind) {
        ScanPassed(x, slots, p, want, j + 1, accepted, link');
      } else if !Counts(x, at, slots, j) {
        ScanPassed(x, slots, p, want, j + 1, accepted, link);
      } else {
        ScanPassed(x, slots, p, want, j + 1, accepted + 1, link);
      }
    }
  }

  /** And finds nothing else. */
  lemma {:induction false} WalkFound(x: Extended, at: Place, accepted: nat, want: nat, links: nat)
    returns (places: seq<Place>, i: nat)
    requires accepted <= want && !Walk(x, Position(accepted, at.sector, at.size), want, links).EndOfTable?
    ensures Finds(x, places, i, want - accepted) && |places| <= links && places[0] == at
    decreases links
  {
    var p := Position(accepted, at.sector, at.size);
    var slots := RecordAt(x, at.sector).slots;
    var o := Scan(x, slots, p, want, 0, accepted, None);
    places, i := [at], 0;
    if o.Stop? {
      i := ScanFound(x, slots, p, want, 0, accepted, None);
    } else {
      ScanPassed(x, slots, p, want, 0, accepted, None);
      ScanGoesOn(x, slots, p, want, 0, accepted, None);
      FirstLinkIs(slots, 0);
      var q := Follow(x, p, o.accepted, o.link).value;
      var rest;
      rest, i := WalkFound(x, Place(q.sector, q.size), q.accepted, want, links - 1);
      places := [at] + rest;
      assert Leads(x, at, rest[0]);
      ChainGrows(x, at, rest);
      assert places[1..] == rest;
    }
  }

  lemma ChainGrows(x: Extended, at: Place, rest: seq<Place>)
    requires Chain(x, rest) && RecordAt(x, at.sector).Record? && Leads(x, at, rest[0])
    ensures Chain(x, [at] + rest)
  {
    var places := [at] + rest;
    forall k | 0 <= k < |places| - 1 ensures Leads(x, places[k], places[k + 1]) {
      if k > 0 {
        assert Leads(x, rest[k - 1], rest[k]);
      }
    }
  }

  ghost predicate FoundWithin(x: Extended, places: seq<Place>, i: nat, want: nat, links: nat) {
    Finds(x, places, i, want) && places[0] == Place(0, x.size) && |places| <= links
  }

  /** The right answer to a number: the partition with so many before it along the chain, or that there is none. */
  ghost predicate Answers(x: Extended, want: nat, links: nat, r: Result) {
    && (forall places, i :: FoundWithin(x, places, i, want, links) ==> r == Answer(x, places, i))
    && (!r.EndOfTable? ==> exists places, i :: FoundWithin(x, places, i, want, links))
  }

  lemma WalkAnswers(x: Extended, want: nat, links: nat)
    ensures Answers(x, want, links, Walk(x, Head(x), want, links))
  {
    var r := Walk(x, Head(x), want, links);
    forall places, i | FoundWithin(x, places, i, want, links) ensures r == Answer(x, places, i) {
      WalkFinds(x, places, i, 0, want, links);
    }
    if !r.EndOfTable? {
      var places, i := WalkFound(x, Place(0, x.size), 0, want, links);
      assert FoundWithin(x, places, i, want, links);
    }
  }

  /** One partition a record, in its first slot: then number k is the one of the k-th record. */
  lemma {:induction false} OneEach(x: Extended, places: seq<Place>, k: nat)
    requires Chain(x, places) && places[0] == Place(0, x.size) && k < |places|
    requires forall j :: 0 <= j < |places| ==>
               var slots := RecordAt(x, places[j].sector).slots;
               Counts(x, places[j], slots, 0) && Counted(x, places[j], slots, 0, 4) == 1
    ensures Finds(x, places[..k + 1], 0, k)
    ensures Walk(x, Head(x), k, k + 1) == Answer(x, places[..k + 1], 0)
  {
    var first := places[..k + 1];
    forall j | 0 <= j < |first| - 1 ensures Leads(x, first[j], first[j + 1]) {
      assert Leads(x, places[j], places[j + 1]);
    }
    BeforeOneEach(x, first);
    WalkFinds(x, first, 0, 0, k, k + 1);
  }

  lemma {:induction false} BeforeOneEach(x: Extended, places: seq<Place>)
    requires places != []
    requires forall j :: 0 <= j < |places| ==>
               && RecordAt(x, places[j].sector).Record?
               && Counted(x, places[j], RecordAt(x, places[j].sector).slots, 0, 4) == 1
    ensures Before(x, places) == |places| - 1
  {
    if |places| > 1 {
      BeforeOneEach(x, places[1..]);
    }
  }

  // ---------------------------------------------------------------- the code

  class Prober {
    const x: Extended
    var memo: Position
    ghost var depth: nat

    /** The memo is a record of the chain with the count of the partitions before it. */
    ghost predicate Valid()
      reads this
    {
      memo.accepted >= 0 && After(x, Head(x), depth) == Some(memo)
    }

    constructor (extended: Extended)
      ensures Valid() && x == extended && depth == 0
    {
      x, memo, depth := extended, Head(extended), 0;
    }

    /** The slots of one record. */
    method ScanSlots(slots: seq<Slot>, p: Position, want: int) returns (o: Outcome)
      ensures o == Scan(x, slots, p, want, 0, p.accepted, None)
    {
      var accepted, link := p.accepted, None;
      for i := 0 to |slots|
        invariant Scan(x, slots, p, want, i, accepted, link) == Scan(x, slots, p, want, 0, p.accepted, None)
      {
        if slots[i].Bad? {
          return Stop(EndOfTable);
        }
        var s := slots[i];
        if IsExtended(s.kind) {
          if link.None? && s.count != 0 {
            link := Some(Link(s.first, s.count));
          }
          continue;
        }
        if s.count == 0 {
          continue;
        }
        var contained := Contained(x, p.sector, s);
        var withinLink := s.first + s.count <= p.size;
        if i >= 2 && (!contained || !withinLink) {
          continue;
        }
        if accepted == want {
          if !contained {
            return Stop(NoPartition);
          }
          return Stop(Partition(x.first + p.sector + s.first, s.count));
        }
        accepted := accepted + 1;
      }
      o := Pass(accepted, link);
    }

    /** One record of the walk: the result, or the next position. */
    method Step(p: Position, want: int, ghost d: nat, ghost links: nat) returns (r: Option<Result>, q: Position)
      requires p.accepted >= 0 && After(x, Head(x), d) == Some(p) && links > 0
      ensures r.Some? ==> r.value == Walk(x, p, want, links)
      ensures r.None? ==> q.accepted >= 0 && After(x, Head(x), d + 1) == Some(q)
      ensures r.None? ==> Walk(x, p, want, links) == Walk(x, q, want, links - 1)
    {
      q := p;
      var rec := RecordAt(x, p.sector);
      if rec.NoRecord? {
        return Some(EndOfTable), p;
      }
      var o := ScanSlots(rec.slots, p, want);
      VisitPasses(x, p, want);
      if o.Stop? {
        return Some(o.result), p;
      }
      if o.link.None? {
        return Some(EndOfTable), p;
      }
      var l := o.link.value;
      if l.first == 0 || l.first <= p.sector || l.first >= x.size {
        return Some(EndOfTable), p;
      }
      q := Position(o.accepted, l.first, l.count);
      AfterAdds(x, Head(x), d, 1);
      assert After(x, p, 1) == After(x, q, 0);
      r := None;
    }

    /**
     * The probe. It finds what a walk from the head finds, given as many records more as the memo is down the chain;
     * a chain of no more records than the allowance gives the same in whatever order partitions are asked for.
     */
    method Probe(want: nat) returns (r: Result)
      requires Valid()
      modifies this
      ensures Valid() && Inside(x, r)
      ensures want < MAX_LINKS ==>
                r == Walk(x, Head(x), want, MAX_LINKS + if old(memo).accepted <= want then old(depth) else 0)
      ensures want < MAX_LINKS && After(x, Head(x), MAX_LINKS).None? ==> r == Walk(x, Head(x), want, MAX_LINKS)
      ensures want < MAX_LINKS ==>
                Answers(x, want, MAX_LINKS + if old(memo).accepted <= want then old(depth) else 0, r)
      ensures want >= MAX_LINKS ==> r == EndOfTable
    {
      if want >= MAX_LINKS {
        return EndOfTable;
      }
      var p := Head(x);
      ghost var d: nat := 0;
      if memo.accepted <= want {
        p := memo;
        d := depth;
        WalkFrom(x, Head(x), want, d, MAX_LINKS);
      }
      WalkInside(x, p, want, MAX_LINKS);
      WalkAnswers(x, want, MAX_LINKS + d);
      if After(x, Head(x), MAX_LINKS).None? {
        WalkEnds(x, Head(x), want, MAX_LINKS, MAX_LINKS + d);
      }
      r := WalkOn(p, want, d);
    }

    /** The loop over the records, leaving the memo at the last one looked at. */
    method WalkOn(p0: Position, want: int, ghost d0: nat) returns (r: Result)
      requires Valid() && p0.accepted >= 0 && After(x, Head(x), d0) == Some(p0)
      modifies this
      ensures Valid() && r == Walk(x, p0, want, MAX_LINKS)
    {
      var p := p0;
      ghost var d := d0;
      for link := 0 to MAX_LINKS
        invariant Valid() && p.accepted >= 0 && After(x, Head(x), d) == Some(p)
        invariant Walk(x, p, want, MAX_LINKS - link) == Walk(x, p0, want, MAX_LINKS)
      {
        memo, depth := p, d;
        var o;
        o, p := Step(p, want, d, MAX_LINKS - link);
        if o.Some? {
          return o.value;
        }
        d := d + 1;
      }
      return EndOfTable;
    }
  }
}
