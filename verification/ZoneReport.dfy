/** Zone reporting of the library: the device hands out zone descriptors in chunks of any size, and
    the loop filters them into the caller's array. */
module ZoneReport {
  import opened Layout

  const SECTOR_SIZE: nat := 512
  const REPORT_MAX_NR_ZONE: nat := 8192

  datatype ZoneType = Cnv | Swr | Swp

  datatype ZoneCond = NotWp | Empty | ImpOpen | ExpOpen | Closed | Full | ReadOnly | Offline

  /** A descriptor of the kernel, in sectors. */
  datatype BlkZone = BlkZone(start: nat, len: nat, capacity: nat, wp: nat, kind: ZoneType, cond: ZoneCond,
                             reset: bool, nonSeq: bool)

  /** A descriptor of the library, in bytes. */
  datatype Zone = Zone(start: nat, len: nat, capacity: nat, wp: nat, kind: ZoneType, cond: ZoneCond,
                       rwpRecommended: bool, nonSeqResources: bool)

  datatype ReportOption = RoAll | RoEmpty | RoImpOpen | RoExpOpen | RoClosed | RoFull | RoRdonly | RoOffline
    | RoRwpRecommended | RoNonSeq | RoNotWp | RoUnknown

  /** `zbd_should_report_zone`. */
  predicate ShouldReport(z: Zone, ro: ReportOption) {
    match ro
    case RoAll => true
    case RoNotWp => z.cond == NotWp
    case RoEmpty => z.cond == Empty
    case RoImpOpen => z.cond == ImpOpen
    case RoExpOpen => z.cond == ExpOpen
    case RoClosed => z.cond == Closed
    case RoFull => z.cond == Full
    case RoRdonly => z.cond == ReadOnly
    case RoOffline => z.cond == Offline
    case RoRwpRecommended => z.rwpRecommended
    case RoNonSeq => z.nonSeqResources
    case RoUnknown => false
  }

  // ---------- bit masks ----------

  function Pow2(k: nat): nat {
    if k == 0 then 1 else 2 * Pow2(k - 1)
  }

  /** `x & ~m`, bit by bit. */
  function AndNot(x: nat, m: nat): nat {
    if x == 0 then 0 else 2 * AndNot(x / 2, m / 2) + if x % 2 == 1 && m % 2 == 0 then 1 else 0
  }

  lemma {:induction false} AndNotZero(x: nat)
    ensures AndNot(x, 0) == x
  {
    if x > 0 {
      AndNotZero(x / 2);
    }
  }

  lemma {:induction false} Pow2Positive(k: nat)
    ensures Pow2(k) > 0
  {
    if k > 0 {
      Pow2Positive(k - 1);
    }
  }

  lemma {:induction false} OffsetDouble(p: nat, x: nat)
    requires p > 0
    ensures OffsetOf(2 * p, x) == 2 * OffsetOf(p, x / 2) + x % 2
  {
    if x >= 2 * p {
      OffsetDouble(p, x - 2 * p);
      assert (x - 2 * p) / 2 == x / 2 - p;
    }
  }

  /** Clearing the low bits of an address gives the start of its zone, for a zone size that is a
      power of two. */
  lemma {:induction false} MaskAligns(x: nat, k: nat)
    ensures Pow2(k) > 0 && AndNot(x, Pow2(k) - 1) == x - OffsetOf(Pow2(k), x)
    ensures AndNot(x, Pow2(k) - 1) == First(Pow2(k), ZoneOf(Pow2(k), x))
    decreases k
  {
    Pow2Positive(k);
    PartsOfBlock(Pow2(k), x);
    if k == 0 {
      AndNotZero(x);
    } else {
      var p := Pow2(k - 1);
      Pow2Positive(k - 1);
      MaskAligns(x / 2, k - 1);
      OffsetDouble(p, x);
      assert (2 * p - 1) / 2 == p - 1;
    }
  }

  // ---------- the device ----------

  /** A zoned device: zones of `Pow2(shift)` sectors each, the last one possibly shorter. */
  datatype ZonedInfo = ZonedInfo(shift: nat, zones: seq<BlkZone>, nrSectors: nat, hasCapacity: bool)
  {
    function ZoneSectors(): nat {
      Pow2(shift)
    }

    function ZoneSize(): nat {
      Pow2(shift + 9)
    }

    /** First sector of zone `i`; the end of the device for the index past the last zone. */
    function StartSector(i: nat): nat {
      if i < |zones| then First(ZoneSectors(), i) else nrSectors
    }

    ghost predicate Valid() {
      && |zones| > 0 && First(ZoneSectors(), |zones| - 1) < nrSectors <= First(ZoneSectors(), |zones|)
      && forall i :: 0 <= i < |zones| ==>
           zones[i].start == StartSector(i) && zones[i].start + zones[i].len == StartSector(i + 1)
    }
  }

  function ParseZone(d: ZonedInfo, b: BlkZone): Zone {
    Zone(b.start * SECTOR_SIZE, b.len * SECTOR_SIZE,
         if d.hasCapacity then b.capacity * SECTOR_SIZE else b.len * SECTOR_SIZE,
         b.wp * SECTOR_SIZE, b.kind, b.cond, b.reset, b.nonSeq)
  }

  // ---------- the specification ----------

  /** First zone of a byte range, and the zone past its last one. */
  function FirstZone(d: ZonedInfo, ofst: nat): nat {
    Pow2Positive(d.shift + 9);
    ZoneOf(d.ZoneSize(), ofst)
  }

  function EndZone(d: ZonedInfo, ofst: nat, len: nat): nat {
    Pow2Positive(d.shift + 9);
    var n := if len == 0 then d.nrSectors * SECTOR_SIZE else len;
    var e := ZoneOf(d.ZoneSize(), ofst + n + d.ZoneSize() - 1);
    if e <= |d.zones| then e else |d.zones|
  }

  /** The zones that pass the filter, in order. */
  function Filter(d: ZonedInfo, zs: seq<BlkZone>, ro: ReportOption): seq<Zone> {
    if zs == [] then []
    else
      var z := ParseZone(d, zs[|zs| - 1]);
      Filter(d, zs[..|zs| - 1], ro) + if ShouldReport(z, ro) then [z] else []
  }

  /** What a report of the range is meant to be: the zones of its smallest zone-aligned cover on the
      device that pass the filter. */
  function Reported(d: ZonedInfo, ofst: nat, len: nat, ro: ReportOption): seq<Zone> {
    var first, end := FirstZone(d, ofst), EndZone(d, ofst, len);
    if first >= end then [] else Filter(d, d.zones[first..end], ro)
  }

  /** The cover is the smallest one: it has exactly the zones that share a byte with the range. */
  lemma CoverIsSmallest(d: ZonedInfo, ofst: nat, len: nat, i: nat)
    requires d.Valid() && len > 0 && i < |d.zones|
    ensures FirstZone(d, ofst) <= i < EndZone(d, ofst, len) <==>
              First(d.ZoneSize(), i) < ofst + len && ofst < First(d.ZoneSize(), i) + d.ZoneSize()
  {
    Pow2Positive(d.shift + 9);
    var s := d.ZoneSize();
    var e := ZoneOf(s, ofst + len + s - 1);
    PartsOfBlock(s, ofst);
    PartsOfBlock(s, ofst + len + s - 1);
    if i < ZoneOf(s, ofst) { FirstMonotone(s, i, ZoneOf(s, ofst)); } else { FirstMonotone(s, ZoneOf(s, ofst), i); }
    if i < e { FirstMonotone(s, i, e); } else { FirstMonotone(s, e, i); }
  }

  /** Length 0 stands for the whole device. */
  lemma WholeDevice(d: ZonedInfo, ofst: nat)
    requires d.Valid()
    ensures EndZone(d, ofst, 0) == |d.zones|
  {
    SizeInSectors(d);
    var s, n, last := d.ZoneSize(), d.nrSectors * SECTOR_SIZE, |d.zones| - 1;
    FirstScales(d.ZoneSectors(), SECTOR_SIZE, last);
    PartsOfBlock(s, ofst + n + s - 1);
    if ZoneOf(s, ofst + n + s - 1) < |d.zones| {
      FirstMonotone(s, ZoneOf(s, ofst + n + s - 1), last);
    }
  }

  /** The zones each option reports, in terms of what the device says of them; an unknown option
      reports none. */
  ghost predicate Passes(b: BlkZone, ro: ReportOption) {
    || ro == RoAll
    || (ro == RoNotWp && b.cond == NotWp) || (ro == RoEmpty && b.cond == Empty)
    || (ro == RoImpOpen && b.cond == ImpOpen) || (ro == RoExpOpen && b.cond == ExpOpen)
    || (ro == RoClosed && b.cond == Closed) || (ro == RoFull && b.cond == Full)
    || (ro == RoRdonly && b.cond == ReadOnly) || (ro == RoOffline && b.cond == Offline)
    || (ro == RoRwpRecommended && b.reset) || (ro == RoNonSeq && b.nonSeq)
  }

  /** The descriptor `z` says in bytes what the device says of zone `b` in sectors; without a reported
      capacity it is the length. */
  ghost predicate Describes(d: ZonedInfo, z: Zone, b: BlkZone) {
    && z.start == 512 * b.start && z.len == 512 * b.len && z.wp == 512 * b.wp
    && (d.hasCapacity ==> z.capacity == 512 * b.capacity) && (!d.hasCapacity ==> z.capacity == z.len)
    && z.kind == b.kind && z.cond == b.cond && z.rwpRecommended == b.reset && z.nonSeqResources == b.nonSeq
  }

  /** The indices of the zones that pass, in ascending order. */
  ghost predicate Picks(zs: seq<BlkZone>, ro: ReportOption, picks: seq<nat>) {
    && (forall m :: 0 <= m < |picks| ==> picks[m] < |zs| && Passes(zs[picks[m]], ro))
    && (forall m, n :: 0 <= m < n < |picks| ==> picks[m] < picks[n])
    && (forall j :: 0 <= j < |zs| && Passes(zs[j], ro) ==> j in picks)
  }

  lemma ReportsZone(d: ZonedInfo, b: BlkZone, ro: ReportOption)
    ensures ShouldReport(ParseZone(d, b), ro) <==> Passes(b, ro)
    ensures Describes(d, ParseZone(d, b), b)
  {
  }

  lemma PicksExtend(zs: seq<BlkZone>, b: BlkZone, ro: ReportOption, picks: seq<nat>)
    requires Picks(zs, ro, picks)
    ensures Picks(zs + [b], ro, if Passes(b, ro) then picks + [|zs|] else picks)
  {
    hide Passes;
    var all, n := zs + [b], |zs|;
    var more := if Passes(b, ro) then picks + [n] else picks;
    forall m | 0 <= m < |more| ensures more[m] < |all| && Passes(all[more[m]], ro) {
      if m < |picks| {
        assert more[m] == picks[m] && all[picks[m]] == zs[picks[m]];
      }
    }
    forall j | 0 <= j < |all| && Passes(all[j], ro) ensures j in more {
      if j < n {
        assert all[j] == zs[j] && j in picks;
        var m :| 0 <= m < |picks| && picks[m] == j;
        assert more[m] == j;
      } else {
        assert more[|picks|] == j;
      }
    }
  }

  /** The reported descriptors describe the picked zones. */
  ghost predicate Lists(d: ZonedInfo, found: seq<Zone>, zs: seq<BlkZone>, picks: seq<nat>) {
    |found| == |picks| && forall m :: 0 <= m < |picks| ==> picks[m] < |zs| && Describes(d, found[m], zs[picks[m]])
  }

  lemma ListsExtend(d: ZonedInfo, found: seq<Zone>, zs: seq<BlkZone>, picks: seq<nat>, z: Zone, b: BlkZone)
    requires Lists(d, found, zs, picks)
    ensures Lists(d, found, zs + [b], picks)
    ensures Describes(d, z, b) ==> Lists(d, found + [z], zs + [b], picks + [|zs|])
  {
    hide Describes;
    forall m | 0 <= m < |picks| ensures picks[m] < |zs + [b]| && Describes(d, found[m], (zs + [b])[picks[m]]) {
      assert (zs + [b])[picks[m]] == zs[picks[m]];
    }
  }

  lemma FilterLast(d: ZonedInfo, zs: seq<BlkZone>, b: BlkZone, ro: ReportOption)
    ensures var z := ParseZone(d, b);
      Filter(d, zs + [b], ro) == if ShouldReport(z, ro) then Filter(d, zs, ro) + [z] else Filter(d, zs, ro)
  {
    hide ShouldReport, ParseZone;
    assert (zs + [b])[..|zs|] == zs;
    assert Filter(d, zs, ro) + [] == Filter(d, zs, ro);
  }

  lemma {:induction false} FilterPicks(d: ZonedInfo, zs: seq<BlkZone>, ro: ReportOption) returns (picks: seq<nat>)
    ensures Picks(zs, ro, picks) && Lists(d, Filter(d, zs, ro), zs, picks)
  {
    picks := [];
    if zs != [] {
      hide Passes, Describes, ShouldReport, ParseZone, Picks, Lists, Filter;
      var n := |zs| - 1;
      var before := FilterPicks(d, zs[..n], ro);
      var z := ParseZone(d, zs[n]);
      assert zs[..n] + [zs[n]] == zs;
      ReportsZone(d, zs[n], ro);
      PicksExtend(zs[..n], zs[n], ro, before);
      FilterLast(d, zs[..n], zs[n], ro);
      ListsExtend(d, Filter(d, zs[..n], ro), zs[..n], before, z, zs[n]);
      picks := if Passes(zs[n], ro) then before + [n] else before;
    }
  }

  lemma Shifted(zones: seq<BlkZone>, first: nat, end: nat, ro: ReportOption, local: seq<nat>) returns (picks: seq<nat>)
    requires first <= end <= |zones| && Picks(zones[first..end], ro, local)
    ensures |picks| == |local| && forall m :: 0 <= m < |picks| ==> picks[m] == first + local[m] < end
    ensures forall m :: 0 <= m < |picks| ==> Passes(zones[picks[m]], ro)
    ensures forall m, n :: 0 <= m < n < |picks| ==> picks[m] < picks[n]
    ensures forall j :: first <= j < end && Passes(zones[j], ro) ==> j in picks
  {
    hide Passes;
    var zs := zones[first..end];
    picks := seq(|local|, m requires 0 <= m < |local| => first + local[m]);
    forall j | first <= j < end && Passes(zones[j], ro) ensures j in picks {
      assert zs[j - first] == zones[j];
      var m :| 0 <= m < |local| && local[m] == j - first;
      assert picks[m] == j;
    }
    forall m | 0 <= m < |picks| ensures picks[m] < end && Passes(zones[picks[m]], ro) {
      assert zs[local[m]] == zones[picks[m]];
    }
  }

  /** A report lists exactly the zones of the cover that pass, each once, in order, and describes them
      faithfully. */
  lemma ReportedExactly(d: ZonedInfo, ofst: nat, len: nat, ro: ReportOption) returns (picks: seq<nat>)
    ensures var found, first, end := Reported(d, ofst, len, ro), FirstZone(d, ofst), EndZone(d, ofst, len);
      && |found| == |picks| && end <= |d.zones|
      && (forall m :: 0 <= m < |picks| ==>
            first <= picks[m] < end && Passes(d.zones[picks[m]], ro) && Describes(d, found[m], d.zones[picks[m]]))
      && (forall m, n :: 0 <= m < n < |picks| ==> picks[m] < picks[n])
      && (forall j :: first <= j < end && Passes(d.zones[j], ro) ==> j in picks)
  {
    hide Passes, Describes, Filter, FirstZone, EndZone, Picks;
    var first, end := FirstZone(d, ofst), EndZone(d, ofst, len);
    EndOnDevice(d, ofst, len);
    picks := [];
    if first < end {
      var local := FilterPicks(d, d.zones[first..end], ro);
      picks := Shifted(d.zones, first, end, ro, local);
    }
  }

  lemma EndOnDevice(d: ZonedInfo, ofst: nat, len: nat)
    ensures EndZone(d, ofst, len) <= |d.zones|
  {
  }

  lemma {:induction false} FilterPrefix(d: ZonedInfo, zs: seq<BlkZone>, n: nat, ro: ReportOption)
    requires n <= |zs|
    ensures Filter(d, zs[..n], ro) <= Filter(d, zs, ro)
  {
    if n < |zs| {
      var m := |zs| - 1;
      FilterPrefix(d, zs[..m], n, ro);
      assert zs[..m][..n] == zs[..n];
    } else {
      assert zs[..n] == zs;
    }
  }

  lemma FilterStep(d: ZonedInfo, first: nat, j: nat, ro: ReportOption)
    requires first <= j < |d.zones|
    ensures var z := ParseZone(d, d.zones[j]);
      Filter(d, d.zones[first..j + 1], ro)
      == Filter(d, d.zones[first..j], ro) + (if ShouldReport(z, ro) then [z] else [])
  {
    var zs := d.zones[first..j + 1];
    assert zs[..|zs| - 1] == d.zones[first..j] && zs[|zs| - 1] == d.zones[j];
  }

  // ---------- addresses ----------

  lemma {:induction false} FirstScales(p: nat, m: nat, i: nat)
    ensures First(m * p, i) == m * First(p, i)
  {
    if i > 0 {
      FirstScales(p, m, i - 1);
      assert m * First(p, i) == m * First(p, i - 1) + m * p;
    }
  }

  lemma SizeInSectors(d: ZonedInfo)
    ensures d.ZoneSize() == SECTOR_SIZE * d.ZoneSectors() && d.ZoneSectors() > 0
  {
    Pow2Positive(d.shift);
    var k := d.shift;
    assert Pow2(k + 9) == 2 * Pow2(k + 8) == 4 * Pow2(k + 7) == 8 * Pow2(k + 6) == 16 * Pow2(k + 5);
    assert Pow2(k + 5) == 2 * Pow2(k + 4) == 4 * Pow2(k + 3) == 8 * Pow2(k + 2) == 16 * Pow2(k + 1);
  }

  /** Masking a byte address and shifting it down gives the first sector of its zone. */
  lemma AlignedSector(d: ZonedInfo, x: nat)
    ensures d.ZoneSize() > 0
    ensures AndNot(x, d.ZoneSize() - 1) / SECTOR_SIZE == First(d.ZoneSectors(), ZoneOf(d.ZoneSize(), x))
  {
    SizeInSectors(d);
    MaskAligns(x, d.shift + 9);
    FirstScales(d.ZoneSectors(), SECTOR_SIZE, ZoneOf(d.ZoneSize(), x));
  }

  lemma StartOrder(d: ZonedInfo, i: nat, j: nat)
    requires d.Valid() && i < j <= |d.zones|
    ensures d.StartSector(i) < d.StartSector(j)
  {
    SizeInSectors(d);
    FirstMonotone(d.ZoneSectors(), i, j);
    FirstMonotone(d.ZoneSectors(), i, |d.zones| - 1);
  }

  /** The sector past the range, clipped to the device, is the start of the zone past the cover. */
  lemma ClippedEnd(d: ZonedInfo, e: nat)
    requires d.Valid()
    ensures var end := First(d.ZoneSectors(), e);
      (if end > d.nrSectors then d.nrSectors else end)
      == d.StartSector(if e <= |d.zones| then e else |d.zones|)
  {
    SizeInSectors(d);
    if e < |d.zones| { StartOrder(d, e, |d.zones|); } else { FirstMonotone(d.ZoneSectors(), |d.zones|, e); }
  }

  lemma CoverNotEmpty(d: ZonedInfo, ofst: nat, len: nat)
    requires d.Valid()
    ensures FirstZone(d, ofst) < |d.zones| <==> FirstZone(d, ofst) < EndZone(d, ofst, len)
    ensures FirstZone(d, ofst) < |d.zones| <==> First(d.ZoneSectors(), FirstZone(d, ofst)) < d.nrSectors
  {
    SizeInSectors(d);
    var n := if len == 0 then d.nrSectors * SECTOR_SIZE else len;
    var s, f := d.ZoneSize(), FirstZone(d, ofst);
    var e := ZoneOf(s, ofst + n + s - 1);
    PartsOfBlock(s, ofst);
    PartsOfBlock(s, ofst + n + s - 1);
    if e <= f { FirstMonotone(s, e, f); }
    if f < |d.zones| { StartOrder(d, f, |d.zones|); } else { FirstMonotone(d.ZoneSectors(), |d.zones|, f); }
  }

  /** The sector range that the library computes for a byte range. */
  method SectorRange(d: ZonedInfo, ofst: nat, len: nat) returns (sector: nat, end: nat)
    requires d.Valid()
    ensures end == d.StartSector(EndZone(d, ofst, len))
    ensures if FirstZone(d, ofst) < |d.zones| then sector == d.StartSector(FirstZone(d, ofst)) < d.nrSectors
            else sector >= d.nrSectors
  {
    AlignedSector(d, ofst);
    var mask := d.ZoneSize() - 1;
    var n := if len == 0 then d.nrSectors * SECTOR_SIZE else len;
    AlignedSector(d, ofst + n + mask);
    end := AndNot(ofst + n + mask, mask) / SECTOR_SIZE;
    if end > d.nrSectors {
      end := d.nrSectors;
    }
    ClippedEnd(d, ZoneOf(d.ZoneSize(), ofst + n + mask));
    sector := AndNot(ofst, mask) / SECTOR_SIZE;
    CoverNotEmpty(d, ofst, len);
  }

  // ---------- the report loop ----------

  /** BLKREPORTZONE: from the zone at `sector` on, any positive number of zones that the buffer and
      the device allow; or an error. */
  method BlkReportZone(d: ZonedInfo, sector: nat, max: nat, ghost j: nat) returns (ret: int, zones: seq<BlkZone>)
    requires d.Valid() && max > 0 && j < |d.zones| && sector == d.StartSector(j)
    ensures ret == 0 ==> 1 <= |zones| <= max && j + |zones| <= |d.zones| && zones == d.zones[j..j + |zones|]
  {
    SizeInSectors(d);
    BlockParts(d.ZoneSectors(), j, 0);
    var i := ZoneOf(d.ZoneSectors(), sector);
    var n: nat :| 1 <= n <= max && i + n <= |d.zones|;
    ret := *;
    zones := d.zones[i..i + n];
  }

  /** What the report loop has done when it has looked at the zones from `first` up to `j`. */
  ghost predicate Collected(d: ZonedInfo, ro: ReportOption, first: nat, j: nat, zones: array?<Zone>, n: nat)
    requires first <= j <= |d.zones|
    reads zones
  {
    var found := Filter(d, d.zones[first..j], ro);
    n == |found| && (zones != null ==> n <= zones.Length && zones[..n] == found)
  }

  /** One chunk: stops at the limit (0: none) and at the end of the range. */
  method ScanChunk(d: ZonedInfo, chunk: seq<BlkZone>, ro: ReportOption, zones: array?<Zone>, nrz: nat,
                   n0: nat, sector0: nat, end: nat, ghost first: nat, ghost j0: nat, ghost last: nat)
    returns (n: nat, sector: nat, ghost j: nat)
    requires d.Valid() && first <= j0 < last <= |d.zones| && end == d.StartSector(last)
    requires 1 <= |chunk| && j0 + |chunk| <= |d.zones| && chunk == d.zones[j0..j0 + |chunk|]
    requires sector0 == d.StartSector(j0) && Collected(d, ro, first, j0, zones, n0)
    requires if zones == null then nrz == 0 else n0 < nrz <= zones.Length
    modifies zones
    ensures j0 < j <= last && sector == d.StartSector(j) && Collected(d, ro, first, j, zones, n)
    ensures zones != null ==> n <= nrz && zones[nrz..] == old(zones[nrz..])
  {
    hide Filter, ShouldReport, ParseZone;
    n, sector, j := n0, sector0, j0;
    var i := 0;
    while i < |chunk|
      invariant 0 <= i <= |chunk| && j == j0 + i && j <= last && sector == d.StartSector(j)
      invariant Collected(d, ro, first, j, zones, n)
      invariant zones != null ==> n <= nrz && zones[nrz..] == old(zones[nrz..])
      invariant i == 0 ==> n == n0
      decreases |chunk| - i
    {
      if j < last {
        StartOrder(d, j, last);
      }
      if (nrz != 0 && n >= nrz) || sector >= end {
        break;
      }
      var z := ParseZone(d, chunk[i]);
      FilterStep(d, first, j, ro);
      if ShouldReport(z, ro) {
        if zones != null {
          zones[n] := z;
        }
        n := n + 1;
      }
      sector := chunk[i].start + chunk[i].len;
      i, j := i + 1, j + 1;
    }
  }

  /** `zbd_report_zones`; without an array it only counts. The result does not depend on how the
      device cuts its answer into chunks. */
  method ZbdReportZones(d: ZonedInfo, ofst: nat, len: nat, ro: ReportOption, zones: array?<Zone>, nr: nat)
    returns (ret: int, n: nat)
    requires d.Valid() && (zones != null ==> nr <= zones.Length)
    modifies zones
    ensures ret != 0 ==> n == nr
    ensures ret == 0 && zones == null ==> n == |Reported(d, ofst, len, ro)|
    ensures ret == 0 && zones != null ==>
              var found := Reported(d, ofst, len, ro);
              n == (if |found| <= nr then |found| else nr) && zones[..n] == found[..n]
    ensures zones != null ==> zones[nr..] == old(zones[nr..])
  {
    hide Filter;
    var nrz := 0;
    if zones != null {
      nrz := nr;
      if nrz == 0 {
        return 0, nr;
      }
    }
    var sector, end := SectorRange(d, ofst, len);
    CoverNotEmpty(d, ofst, len);
    if sector >= d.nrSectors {
      return 0, 0;
    }
    var rep := if nrz != 0 && nrz < REPORT_MAX_NR_ZONE then nrz else REPORT_MAX_NR_ZONE;
    ghost var first, last := FirstZone(d, ofst), EndZone(d, ofst, len);
    ghost var j := first;
    NothingFound(d, first, ro);
    n := 0;
    while (nrz == 0 || n < nrz) && sector < end
      invariant first <= j <= last && sector == d.StartSector(j) && Collected(d, ro, first, j, zones, n)
      invariant zones != null ==> n <= nrz && zones[nrz..] == old(zones[nrz..])
      decreases last - j
    {
      var err, chunk := BlkReportZone(d, sector, rep, j);
      if err != 0 {
        return err, nr;
      }
      n, sector, j := ScanChunk(d, chunk, ro, zones, nrz, n, sector, end, first, j, last);
    }
    if j < last {
      StartOrder(d, j, last);
    }
    ReportedFrom(d, ofst, len, ro, j);
    ret := 0;
  }

  lemma NothingFound(d: ZonedInfo, first: nat, ro: ReportOption)
    requires first <= |d.zones|
    ensures Filter(d, d.zones[first..first], ro) == []
  {
  }

  /** The zones found so far are a prefix of the whole report. */
  lemma ReportedFrom(d: ZonedInfo, ofst: nat, len: nat, ro: ReportOption, j: nat)
    requires FirstZone(d, ofst) <= j <= EndZone(d, ofst, len) && FirstZone(d, ofst) < EndZone(d, ofst, len)
    ensures Filter(d, d.zones[FirstZone(d, ofst)..j], ro) <= Reported(d, ofst, len, ro)
    ensures j == EndZone(d, ofst, len) ==>
              Filter(d, d.zones[FirstZone(d, ofst)..j], ro) == Reported(d, ofst, len, ro)
  {
    var first, end := FirstZone(d, ofst), EndZone(d, ofst, len);
    FilterPrefix(d, d.zones[first..end], j - first, ro);
    SliceOfSlice(d.zones, first, end, j);
  }

  lemma SliceOfSlice<T>(s: seq<T>, a: nat, b: nat, j: nat)
    requires a <= j <= b <= |s|
    ensures s[a..b][..j - a] == s[a..j]
  {
  }

  /** `zbd_list_zones`: counts, allocates exactly that many entries, and fills them. */
  method ZbdListZones(d: ZonedInfo, ofst: nat, len: nat, ro: ReportOption)
    returns (ret: int, zones: array?<Zone>, n: nat)
    requires d.Valid()
    ensures ret == 0 ==> n == |Reported(d, ofst, len, ro)|
    ensures ret == 0 && zones == null ==> n == 0
    ensures ret == 0 && zones != null ==> fresh(zones) && zones[..] == Reported(d, ofst, len, ro)
  {
    hide Reported;
    zones := null;
    ret, n := ZbdReportZones(d, ofst, len, ro, null, 0);
    if ret < 0 || n == 0 {
      return;
    }
    var filled := new Zone[n](i => Zone(0, 0, 0, 0, Cnv, NotWp, false, false));
    var count;
    ret, count := ZbdReportZones(d, ofst, len, ro, filled, n);
    if ret != 0 {
      return;
    }
    zones, n := filled, count;
  }

  /** `zbd_zones_operation`: the sectors it passes to the device are exactly those of the cover. */
  method OperationRange(d: ZonedInfo, ofst: nat, len: nat) returns (sector: nat, count: nat)
    requires d.Valid()
    ensures if FirstZone(d, ofst) < |d.zones|
            then count > 0 && sector == d.StartSector(FirstZone(d, ofst))
                 && sector + count == d.StartSector(EndZone(d, ofst, len))
            else count == 0
  {
    var end;
    sector, end := SectorRange(d, ofst, len);
    CoverNotEmpty(d, ofst, len);
    if sector >= d.nrSectors || end == sector {
      count := 0;
      if FirstZone(d, ofst) < |d.zones| { StartOrder(d, FirstZone(d, ofst), EndZone(d, ofst, len)); }
    } else {
      StartOrder(d, FirstZone(d, ofst), EndZone(d, ofst, len));
      count := end - sector;
    }
  }

  /** An operation on the start and length of one zone reaches that zone and no other. */
  lemma OperationOnOneZone(d: ZonedInfo, i: nat)
    requires d.Valid() && i < |d.zones|
    ensures FirstZone(d, d.zones[i].start * SECTOR_SIZE) == i
    ensures EndZone(d, d.zones[i].start * SECTOR_SIZE, d.zones[i].len * SECTOR_SIZE) == i + 1
  {
    SizeInSectors(d);
    var s, p := d.ZoneSize(), d.ZoneSectors();
    FirstScales(p, SECTOR_SIZE, i);
    FirstScales(p, SECTOR_SIZE, i + 1);
    BlockParts(s, i, 0);
    StartOrder(d, i, i + 1);
    var n := d.zones[i].len * SECTOR_SIZE;
    if i + 1 < |d.zones| { assert n == s; } else { assert 0 < n <= s; }
    BlockParts(s, i + 1, n - 1);
  }
}
