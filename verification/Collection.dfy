/** Placing pages and collecting zones keep the invariant and the abstract map, whatever keys are in
    flight at that moment. */
module Collection {
  import opened Codec
  import opened Packing
  import opened Layout
  import opened StoreModel
  import opened StoreInvariant

  /** No zone is being collected, or it is in the queue. */
  ghost predicate Draining(c: Config, st: Store, drain: int)
    requires Shape(c, st)
  {
    drain == -1 || (0 <= drain < c.zones && st.queued[drain])
  }

  /** Zone `z` has the same blocks, pages and queue entry in both states. */
  ghost predicate SameZone(c: Config, st: Store, r: Store, z: nat)
    requires Shape(c, st) && Shape(c, r) && z < c.zones
  {
    && r.fill[z] == st.fill[z] && r.queued[z] == st.queued[z]
    && forall b :: First(c.bpz, z) <= b < First(c.bpz, z) + c.bpz && b < c.Blocks() ==>
         r.status[b] == st.status[b] && r.pages[b] == st.pages[b]
  }

  /** Nothing is written to a queued zone, and the queue stays as it is. */
  ghost predicate QueuedUntouched(c: Config, st: Store, r: Store)
    requires Shape(c, st) && Shape(c, r)
  {
    && r.queued == st.queued
    && forall z :: 0 <= z < c.zones && st.queued[z] ==> SameZone(c, st, r, z)
  }

  lemma RatesInv(c: Config, st: Store, drain: int, flight: set<int>)
    requires Inv(c, st, drain, flight)
    ensures Inv(c, RefreshRates(c, st), drain, flight)
    ensures Contents(c, RefreshRates(c, st), flight) == Contents(c, st, flight)
  {
    var r := RefreshRates(c, st);
    forall b | 0 <= b < c.Blocks() ensures BlockOk(c, r, b) {
      assert BlockOk(c, st, b);
    }
    forall b, k | Live(c, r, drain, b) && Holds(r, b, k)
      ensures 0 <= k < c.maxKey && r.keyIndex[k] == b && k !in flight
    {
      assert Live(c, st, drain, b) && Holds(st, b, k);
    }
    forall k | 0 <= k < c.maxKey && k !in flight && r.keyIndex[k] != NO_BLOCK
      ensures Live(c, r, drain, r.keyIndex[k]) && Holds(r, r.keyIndex[k], k)
    {
      assert Live(c, st, drain, st.keyIndex[k]) && Holds(st, st.keyIndex[k], k);
    }
    assert forall k :: Lookup(c, r, flight, k) == Lookup(c, st, flight, k);
  }

  lemma WriteUntouched(c: Config, st: Store, z: nat, rs: seq<Record>, life: int, add: bool)
    requires Shape(c, st) && z < c.zones && st.fill[z] < c.cap[z] && !st.queued[z]
    ensures QueuedUntouched(c, st, Write(c, st, z, rs, life, add))
  {
    var r := Write(c, st, z, rs, life, add);
    forall y | 0 <= y < c.zones && st.queued[y] ensures SameZone(c, st, r, y) {
      if y < z { FirstMonotone(c.bpz, y, z); } else { FirstMonotone(c.bpz, z, y); }
    }
  }

  /** `r` holds the pairs `m` besides those of `st`; their keys are no longer in flight. */
  ghost predicate Moved(c: Config, st: Store, r: Store, drain: int, flight: set<int>, m: map<int, int>)
    requires Shape(c, st)
  {
    && Inv(c, r, drain, flight - m.Keys)
    && Contents(c, r, flight - m.Keys) == Contents(c, st, flight) + m
    && QueuedUntouched(c, st, r)
  }

  lemma PlaceInv(c: Config, st: Store, rs: seq<Record>, add: bool, drain: int, flight: set<int>)
    requires Inv(c, st, drain, flight) && Draining(c, st, drain)
    requires PageOk(c, rs) && RecordMap(rs).Keys <= flight
    requires Place(c, st, rs, add).Some?
    ensures Moved(c, st, Place(c, st, rs, add).value, drain, flight, RecordMap(rs))
  {
    var life := PageLifetime(st.keyLife, rs);
    PageLifetimeBound(c, st, rs);
    var z := ChooseZone(c, st, life).value;
    RatesInv(c, st, drain, flight);
    var base := if Sparse(c, st) then RefreshRates(c, st) else st;
    WriteBlocks(c, base, z, rs, life, add);
    WriteMeans(c, base, z, rs, life, add);
    WriteAges(c, base, z, rs, life, add);
    WritePagesIndexed(c, base, z, rs, life, add, drain, flight);
    WriteIndexLive(c, base, z, rs, life, add, drain, flight);
    WriteContents(c, base, z, rs, life, add, drain, flight);
    WriteUntouched(c, base, z, rs, life, add);
    assert forall y :: 0 <= y < c.zones && st.queued[y] ==> SameZone(c, base, Write(c, base, z, rs, life, add), y);
  }

  /** Pages that may be placed one after the other. */
  ghost predicate PagesOk(c: Config, pages: seq<seq<Record>>) {
    && (forall i :: 0 <= i < |pages| ==> pages[i] != [] && FitsPage(pages[i]))
    && DistinctKeys(Flatten(pages)) && KeysBelow(Flatten(pages), c.maxKey)
  }

  lemma DistinctMaps(xs: seq<Record>, ys: seq<Record>)
    requires DistinctKeys(xs + ys)
    ensures DistinctKeys(xs) && DistinctKeys(ys) && RecordMap(xs).Keys !! RecordMap(ys).Keys
  {
    DistinctParts(xs, ys, 0);
    forall k: int {
      DistinctParts(xs, ys, k);
    }
  }

  lemma KeysBelowParts(xs: seq<Record>, ys: seq<Record>, n: nat)
    ensures KeysBelow(xs + ys, n) <==> KeysBelow(xs, n) && KeysBelow(ys, n)
  {
    if KeysBelow(xs + ys, n) {
      assert forall i :: 0 <= i < |xs| ==> xs[i] == (xs + ys)[i];
      assert forall i :: 0 <= i < |ys| ==> ys[i] == (xs + ys)[|xs| + i];
    }
  }

  lemma PagesOkStep(c: Config, pages: seq<seq<Record>>)
    requires PagesOk(c, pages) && pages != []
    ensures PageOk(c, pages[0]) && PagesOk(c, pages[1..])
    ensures RecordMap(Flatten(pages)) == RecordMap(pages[0]) + RecordMap(Flatten(pages[1..]))
    ensures RecordMap(pages[0]).Keys !! RecordMap(Flatten(pages[1..])).Keys
  {
    hide RecordMap, DistinctKeys, KeysBelow, FitsPage;
    RecordMapConcat(pages[0], Flatten(pages[1..]));
    DistinctMaps(pages[0], Flatten(pages[1..]));
    KeysBelowParts(pages[0], Flatten(pages[1..]), c.maxKey);
  }

  lemma MovedTrans(c: Config, s: Store, t: Store, u: Store, drain: int, flight: set<int>,
                   m: map<int, int>, n: map<int, int>)
    requires Shape(c, s) && Shape(c, t)
    requires Moved(c, s, t, drain, flight, m) && Moved(c, t, u, drain, flight - m.Keys, n)
    ensures Moved(c, s, u, drain, flight, m + n)
  {
    hide BlocksOk, PointersOk, AgesOk, MeansOk, Contents, Shape, QueuedUntouched;
    UntouchedTrans(c, s, t, u);
    assert flight - m.Keys - n.Keys == flight - (m + n).Keys;
    assert Contents(c, s, flight) + m + n == Contents(c, s, flight) + (m + n);
  }

  lemma UntouchedTrans(c: Config, s: Store, t: Store, u: Store)
    requires Shape(c, s) && Shape(c, t) && Shape(c, u)
    requires QueuedUntouched(c, s, t) && QueuedUntouched(c, t, u)
    ensures QueuedUntouched(c, s, u)
  {
    forall z | 0 <= z < c.zones && s.queued[z] ensures SameZone(c, s, u, z) {
      assert SameZone(c, s, t, z) && SameZone(c, t, u, z);
    }
  }

  lemma {:induction false} PlaceAllInv(c: Config, st: Store, pages: seq<seq<Record>>, drain: int,
                                       flight: set<int>)
    requires Inv(c, st, drain, flight) && Draining(c, st, drain)
    requires PagesOk(c, pages) && RecordMap(Flatten(pages)).Keys <= flight
    requires PlaceAll(c, st, pages).Some?
    ensures Moved(c, st, PlaceAll(c, st, pages).value, drain, flight, RecordMap(Flatten(pages)))
    decreases |pages|
  {
    if pages == [] {
      assert flight - RecordMap([]).Keys == flight;
    } else {
      hide BlocksOk, PointersOk, AgesOk, MeansOk, Contents, PagesOk, Place, RecordMap;
      PagesOkStep(c, pages);
      PlaceInv(c, st, pages[0], false, drain, flight);
      var s := Place(c, st, pages[0], false).value;
      var first, rest := RecordMap(pages[0]), RecordMap(Flatten(pages[1..]));
      assert rest.Keys <= flight - first.Keys;
      PlaceAllInv(c, s, pages[1..], drain, flight - first.Keys);
      MovedTrans(c, st, s, PlaceAll(c, st, pages).value, drain, flight, first, rest);
    }
  }

  // ---------- collecting one zone ----------

  lemma ZoneBlock(c: Config, z: nat, j: nat)
    requires c.Valid() && z < c.zones && j < c.bpz
    ensures First(c.bpz, z) + j < c.Blocks() && ZoneOf(c.bpz, First(c.bpz, z) + j) == z
  {
    BlockParts(c.bpz, z, j);
    BlockInRange(c.bpz, c.zones, z, j);
  }

  lemma SkipBlock(c: Config, st: Store, z: nat, j: nat)
    requires Shape(c, st) && z < c.zones && j < c.bpz
    requires !Live(c, st, -1, First(c.bpz, z) + j)
    ensures ValidPages(c, st, z, j) == ValidPages(c, st, z, j + 1)
  {
    ZoneBlock(c, z, j);
    assert ValidPages(c, st, z, j) == [] + ValidPages(c, st, z, j + 1);
  }

  lemma TakeBlock(c: Config, st: Store, z: nat, j: nat)
    requires Shape(c, st) && z < c.zones && j < c.bpz
    requires Live(c, st, -1, First(c.bpz, z) + j)
    ensures ValidPages(c, st, z, j) == [st.pages[First(c.bpz, z) + j]] + ValidPages(c, st, z, j + 1)
  {
  }

  lemma FlattenFirst(page: seq<Record>, rest: seq<seq<Record>>)
    ensures Flatten([page] + rest) == page + Flatten(rest)
  {
    assert ([page] + rest)[1..] == rest;
  }

  /** The pairs of the zone's records from offset `j` on. */
  ghost function ZonePairs(c: Config, st: Store, z: nat, j: nat): map<int, int>
    requires Shape(c, st) && z < c.zones && j <= c.bpz
  {
    RecordMap(Flatten(ValidPages(c, st, z, j)))
  }

  ghost function ZonePairAt(c: Config, st: Store, z: nat, j: nat, k: int): Option<int>
    requires Shape(c, st) && z < c.zones && j <= c.bpz
  {
    var m := ZonePairs(c, st, z, j);
    if k in m then Some(m[k]) else None
  }

  ghost function PairHere(c: Config, st: Store, b: nat, k: int): Option<int>
    requires Shape(c, st)
  {
    if Live(c, st, -1, b) && Holds(st, b, k) then Some(RecordMap(st.pages[b])[k]) else None
  }

  lemma ZonePairsStep(c: Config, st: Store, z: nat, j: nat, k: int)
    requires Shape(c, st) && z < c.zones && j < c.bpz
    ensures ZonePairAt(c, st, z, j, k)
         == (var rest := ZonePairAt(c, st, z, j + 1, k);
             if rest.Some? then rest else PairHere(c, st, First(c.bpz, z) + j, k))
  {
    hide RecordMap, Flatten, ValidPages;
    var w := First(c.bpz, z) + j;
    if Live(c, st, -1, w) {
      var rest := ValidPages(c, st, z, j + 1);
      TakeBlock(c, st, z, j);
      FlattenFirst(st.pages[w], rest);
      RecordMapEither(st.pages[w], Flatten(rest), k);
    } else {
      SkipBlock(c, st, z, j);
    }
  }

  lemma NoPairsLeft(c: Config, st: Store, z: nat, k: int)
    requires Shape(c, st) && z < c.zones
    ensures ZonePairAt(c, st, z, c.bpz, k) == None
  {
  }

  /** The block from which the zone's records take key `k`. */
  lemma {:induction false} RecordOrigin(c: Config, st: Store, z: nat, j: nat, k: int) returns (b: nat)
    requires Shape(c, st) && z < c.zones && j <= c.bpz && ZonePairAt(c, st, z, j, k).Some?
    ensures First(c.bpz, z) + j <= b < First(c.bpz, z) + c.bpz && Live(c, st, -1, b) && Holds(st, b, k)
    ensures ZonePairAt(c, st, z, j, k) == PairHere(c, st, b, k)
    decreases c.bpz - j
  {
    hide ZonePairAt;
    NoPairsLeft(c, st, z, k);
    ZonePairsStep(c, st, z, j, k);
    if ZonePairAt(c, st, z, j + 1, k).Some? {
      b := RecordOrigin(c, st, z, j + 1, k);
    } else {
      b := First(c.bpz, z) + j;
    }
  }

  /** No record of a VALID page of the zone is missed. */
  lemma {:induction false} RecordFound(c: Config, st: Store, z: nat, j: nat, b: nat, k: int)
    requires Shape(c, st) && z < c.zones && j <= c.bpz
    requires First(c.bpz, z) + j <= b < First(c.bpz, z) + c.bpz
    requires Live(c, st, -1, b) && Holds(st, b, k)
    ensures ZonePairAt(c, st, z, j, k).Some?
    decreases c.bpz - j
  {
    hide ZonePairAt;
    ZonePairsStep(c, st, z, j, k);
    if b != First(c.bpz, z) + j {
      RecordFound(c, st, z, j + 1, b, k);
    }
  }

  lemma AllValidConcat(xs: seq<Record>, ys: seq<Record>)
    requires AllValid(xs) && AllValid(ys)
    ensures AllValid(xs + ys)
  {
  }

  lemma ZoneRecordsExtend(c: Config, page: seq<Record>, rest: seq<seq<Record>>)
    requires PageOk(c, page) && AllFit(rest) && AllValid(Flatten(rest))
    requires KeysBelow(Flatten(rest), c.maxKey) && DistinctKeys(Flatten(rest))
    requires forall k :: k in RecordMap(page) ==> k !in RecordMap(Flatten(rest))
    ensures var pages := [page] + rest;
      && AllFit(pages) && AllValid(Flatten(pages))
      && KeysBelow(Flatten(pages), c.maxKey) && DistinctKeys(Flatten(pages))
  {
    FlattenFirst(page, rest);
    DistinctConcat(page, Flatten(rest));
    KeysBelowParts(page, Flatten(rest), c.maxKey);
    AllValidConcat(page, Flatten(rest));
  }

  /** A key of one page of the zone is in no later page of it: both would have to be the page the
      key points to. */
  lemma PageKeysFresh(c: Config, st: Store, z: nat, j: nat, w: nat, flight: set<int>)
    requires Shape(c, st) && PagesIndexed(c, st, -1, flight)
    requires z < c.zones && j < c.bpz && w == First(c.bpz, z) + j && Live(c, st, -1, w)
    ensures forall k :: k in RecordMap(st.pages[w]) ==> k !in RecordMap(Flatten(ValidPages(c, st, z, j + 1)))
  {
    hide RecordMap, Flatten, ValidPages;
    forall k | k in RecordMap(st.pages[w]) ensures k !in ZonePairs(c, st, z, j + 1) {
      assert Holds(st, w, k);
      if k in ZonePairs(c, st, z, j + 1) {
        var b := RecordOrigin(c, st, z, j + 1, k);
      }
    }
  }

  lemma NoRecordsOk(c: Config, st: Store, z: nat)
    requires Shape(c, st) && z < c.zones
    ensures var pages := ValidPages(c, st, z, c.bpz);
      && AllFit(pages) && AllValid(Flatten(pages))
      && KeysBelow(Flatten(pages), c.maxKey) && DistinctKeys(Flatten(pages))
  {
  }

  /** The records of a zone are valid and, since every live page is the one its keys point to,
      distinct. */
  lemma {:induction false} ZoneRecordsOk(c: Config, st: Store, z: nat, j: nat, flight: set<int>)
    requires Shape(c, st) && BlocksOk(c, st) && PagesIndexed(c, st, -1, flight)
    requires z < c.zones && j <= c.bpz
    ensures var pages := ValidPages(c, st, z, j);
      && AllFit(pages) && AllValid(Flatten(pages))
      && KeysBelow(Flatten(pages), c.maxKey) && DistinctKeys(Flatten(pages))
    decreases c.bpz - j
  {
    hide AllFit, AllValid, KeysBelow, DistinctKeys, Flatten, RecordMap, First, FitsPage, ValidPages;
    if j == c.bpz {
      NoRecordsOk(c, st, z);
    } else {
      ZoneRecordsOk(c, st, z, j + 1, flight);
      var w := First(c.bpz, z) + j;
      if !Live(c, st, -1, w) {
        SkipBlock(c, st, z, j);
      } else {
        TakeBlock(c, st, z, j);
        assert BlockOk(c, st, w);
        PageKeysFresh(c, st, z, j, w, flight);
        ZoneRecordsExtend(c, st.pages[w], ValidPages(c, st, z, j + 1));
      }
    }
  }

  ghost predicate PointsInto(c: Config, st: Store, z: nat, k: int)
    requires Shape(c, st)
  {
    0 <= k < c.maxKey && st.keyIndex[k] != NO_BLOCK && ZoneOf(c.bpz, st.keyIndex[k]) == z
  }

  /** The zone's records are exactly those that its keys, if not in flight, point to. */
  lemma ZonePairsAreIndexed(c: Config, st: Store, z: nat, flight: set<int>, k: int)
    requires Shape(c, st) && PointersOk(c, st, -1, flight) && z < c.zones
    ensures k in ZonePairs(c, st, z, 0) <==> k !in flight && PointsInto(c, st, z, k)
    ensures k in ZonePairs(c, st, z, 0) ==> Lookup(c, st, flight, k) == Some(ZonePairs(c, st, z, 0)[k])
  {
    hide ZonePairs, RecordMap;
    if k in ZonePairs(c, st, z, 0) {
      var b := RecordOrigin(c, st, z, 0, k);
      InZone(c.bpz, b, z);
    } else if k !in flight && PointsInto(c, st, z, k) {
      InZone(c.bpz, st.keyIndex[k], z);
      RecordFound(c, st, z, 0, st.keyIndex[k], k);
    }
  }

  lemma DrainPointers(c: Config, st: Store, z: nat, flight: set<int>, m: map<int, int>)
    requires Shape(c, st) && z < c.zones && PointersOk(c, st, -1, flight)
    requires forall k :: k in m <==> k !in flight && PointsInto(c, st, z, k)
    ensures PointersOk(c, st, z, flight + m.Keys)
  {
    forall b, k | Live(c, st, z, b) && Holds(st, b, k)
      ensures 0 <= k < c.maxKey && st.keyIndex[k] == b && k !in flight + m.Keys
    {
      assert Live(c, st, -1, b);
    }
  }

  /** Collecting starts: the zone's pages no longer count and their keys are in flight. */
  lemma BeginDrain(c: Config, st: Store, z: nat, flight: set<int>)
    requires Inv(c, st, -1, flight) && z < c.zones
    ensures var m := ZonePairs(c, st, z, 0);
      && m.Keys !! flight && Inv(c, st, z, flight + m.Keys)
      && Contents(c, st, flight) == Contents(c, st, flight + m.Keys) + m
  {
    hide ZonePairs, RecordMap;
    var m := ZonePairs(c, st, z, 0);
    forall k: int {
      ZonePairsAreIndexed(c, st, z, flight, k);
    }
    assert forall k :: k in m.Keys ==> k !in flight;
    DrainPointers(c, st, z, flight, m);
    assert forall k :: Lookup(c, st, flight, k)
                    == if k in m then Some(m[k]) else Lookup(c, st, flight + m.Keys, k);
  }

  lemma ResetBlocks(c: Config, st: Store, z: nat)
    requires Shape(c, st) && BlocksOk(c, st) && z < c.zones
    ensures BlocksOk(c, Reset(c, st, z))
  {
    var r := Reset(c, st, z);
    forall b | 0 <= b < c.Blocks() ensures BlockOk(c, r, b) {
      InZone(c.bpz, b, z);
      ZoneInRange(c.bpz, c.zones, b);
      assert BlockOk(c, st, b);
    }
  }

  lemma ResetPointers(c: Config, st: Store, z: nat, flight: set<int>)
    requires Shape(c, st) && PointersOk(c, st, z, flight) && z < c.zones
    ensures PointersOk(c, Reset(c, st, z), -1, flight)
    ensures Contents(c, Reset(c, st, z), flight) == Contents(c, st, flight)
  {
    var r := Reset(c, st, z);
    forall b: nat {
      InZone(c.bpz, b, z);
    }
    forall b, k | Live(c, r, -1, b) && Holds(r, b, k)
      ensures 0 <= k < c.maxKey && r.keyIndex[k] == b && k !in flight
    {
      assert Live(c, st, z, b) && Holds(st, b, k);
    }
    forall k | 0 <= k < c.maxKey && k !in flight && r.keyIndex[k] != NO_BLOCK
      ensures Live(c, r, -1, r.keyIndex[k]) && Holds(r, r.keyIndex[k], k)
    {
      assert Live(c, st, z, st.keyIndex[k]) && Holds(st, st.keyIndex[k], k);
    }
    assert forall k :: Lookup(c, r, flight, k) == Lookup(c, st, flight, k);
  }

  /** Collecting ends: the emptied zone counts again. */
  lemma EndDrain(c: Config, st: Store, z: nat, flight: set<int>)
    requires Inv(c, st, z, flight) && z < c.zones
    ensures Inv(c, Reset(c, st, z), -1, flight)
    ensures Contents(c, Reset(c, st, z), flight) == Contents(c, st, flight)
  {
    ResetBlocks(c, st, z);
    ResetPointers(c, st, z, flight);
  }

  // ---------- a whole run of the collector ----------

  lemma SameZonePages(c: Config, st: Store, r: Store, z: nat, j: nat)
    requires Shape(c, st) && Shape(c, r) && z < c.zones && j <= c.bpz && SameZone(c, st, r, z)
    ensures ValidPages(c, st, z, j) == ValidPages(c, r, z, j)
    decreases c.bpz - j
  {
    if j < c.bpz {
      ZoneBlock(c, z, j);
      SameZonePages(c, st, r, z, j + 1);
    }
  }

  lemma RecordsToPages(c: Config, rs: seq<Record>)
    requires AllValid(rs) && KeysBelow(rs, c.maxKey) && DistinctKeys(rs)
    ensures PagesOk(c, Pack([], rs)) && Flatten(Pack([], rs)) == rs
  {
    PackSound([], rs);
    assert [] + rs == rs;
  }

  lemma RepointedAway(c: Config, st: Store, z: nat, flight: set<int>)
    requires Shape(c, st) && IndexLive(c, st, z, flight) && z < c.zones
    ensures forall k :: k !in flight ==> !PointsInto(c, Reset(c, st, z), z, k)
  {
  }

  /** The pages of the zone move elsewhere, its keys are repointed there and the zone is emptied: nothing
      else changes. */
  lemma CollectZoneInv(c: Config, st: Store, z: nat, flight: set<int>)
    requires Inv(c, st, -1, flight) && z < c.zones && st.queued[z] && CollectZone(c, st, z).Some?
    ensures var r := CollectZone(c, st, z).value;
      && Inv(c, r, -1, flight) && Contents(c, r, flight) == Contents(c, st, flight)
      && r.queued == st.queued[z := false]
      && (forall k :: k !in flight ==> !PointsInto(c, r, z, k))
      && forall y :: 0 <= y < c.zones && y != z && st.queued[y] ==> SameZone(c, st, r, y)
  {
    hide BlocksOk, PagesIndexed, IndexLive, AgesOk, MeansOk, Contents, RecordMap, PagesOk, Flatten, PlaceAll;
    hide PointsInto;
    var m := ZonePairs(c, st, z, 0);
    var rs := ZoneRecords(c, st, z);
    BeginDrain(c, st, z, flight);
    ZoneRecordsOk(c, st, z, 0, flight);
    RecordsToPages(c, rs);
    PlaceAllInv(c, st, Pack([], rs), z, flight + m.Keys);
    var s := PlaceAll(c, st, Pack([], rs)).value;
    assert flight + m.Keys - m.Keys == flight;
    EndDrain(c, s, z, flight);
    RepointedAway(c, s, z, flight);
    ResetOthers(c, st, s, z);
  }

  lemma ResetOthers(c: Config, st: Store, s: Store, z: nat)
    requires Shape(c, st) && Shape(c, s) && z < c.zones && QueuedUntouched(c, st, s)
    ensures forall y :: 0 <= y < c.zones && y != z && st.queued[y] ==> SameZone(c, st, Reset(c, s, z), y)
  {
    forall y | 0 <= y < c.zones && y != z && st.queued[y] ensures SameZone(c, st, Reset(c, s, z), y) {
      assert SameZone(c, st, s, y);
      if y < z { FirstMonotone(c.bpz, y, z); } else { FirstMonotone(c.bpz, z, y); }
    }
  }

  /** Garbage collection, from any zone on, leaves the map unchanged and the queue empty. */
  lemma {:induction false} CollectFromInv(c: Config, st: Store, i: nat, flight: set<int>)
    requires Inv(c, st, -1, flight) && i <= c.zones && CollectFrom(c, st, i).Some?
    ensures var r := CollectFrom(c, st, i).value;
      && Inv(c, r, -1, flight) && Contents(c, r, flight) == Contents(c, st, flight)
      && forall y :: 0 <= y < c.zones ==> r.queued[y] == (y < i && st.queued[y])
    decreases c.zones - i
  {
    if i < c.zones {
      hide BlocksOk, PointersOk, AgesOk, MeansOk, Contents, CollectZone;
      if st.queued[i] {
        CollectZoneInv(c, st, i, flight);
        CollectFromInv(c, CollectZone(c, st, i).value, i + 1, flight);
      } else {
        CollectFromInv(c, st, i + 1, flight);
      }
    }
  }

  lemma CollectInv(c: Config, st: Store, flight: set<int>)
    requires Inv(c, st, -1, flight) && Collect(c, st).Some?
    ensures var r := Collect(c, st).value;
      && Inv(c, r, -1, flight) && Contents(c, r, flight) == Contents(c, st, flight)
      && forall y :: 0 <= y < c.zones ==> !r.queued[y]
  {
    RatesInv(c, st, -1, flight);
    CollectFromInv(c, RefreshRates(c, st), 0, flight);
  }
}
