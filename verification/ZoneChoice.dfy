/** The zone chosen for a page and what the page leaves there, in terms of the arrays alone. */
module ZoneChoice {
  import opened Codec
  import opened Layout
  import opened Placement
  import opened Probing
  import opened StoreModel
  import opened StoreInvariant
  import opened StoreRun
  import opened Space

  /** Zones that may take a page: not queued for collection and not written to capacity. */
  ghost function Takers(c: Config, st: Store): set<nat>
    requires Shape(c, st)
  {
    set z: nat | z < c.zones && !st.queued[z] && st.fill[z] < c.cap[z]
  }

  /** Zones whose mean lifetime is more than 1 off the initial one. */
  ghost function Recorded(c: Config, st: Store): set<nat>
    requires Shape(c, st)
  {
    set z: nat | z < c.zones && (st.zoneLife[z] < 999.0 || st.zoneLife[z] > 1001.0)
  }

  /** Zone `a` has the greater free share of its capacity, or the same and a lower index. */
  ghost predicate Emptier(c: Config, st: Store, a: nat, b: nat)
    requires Shape(c, st) && a < c.zones && b < c.zones
  {
    st.fill[a] * c.cap[b] < st.fill[b] * c.cap[a] || (st.fill[a] * c.cap[b] == st.fill[b] * c.cap[a] && a <= b)
  }

  /** The mean lifetime of zone `a` is nearer to `life`, or as near and `a` has a lower index. */
  ghost predicate Closer(st: Store, life: int, a: nat, b: nat)
    requires a < |st.zoneLife| && b < |st.zoneLife|
  {
    var x, y := st.zoneLife[a] - life as real, st.zoneLife[b] - life as real;
    var dx, dy := if x < 0.0 then -x else x, if y < 0.0 then -y else y;
    dx < dy || (dx == dy && a <= b)
  }

  /** `near` are the min(gl, takers) takers nearest in lifetime. */
  ghost predicate NearestTakers(c: Config, st: Store, life: int, near: set<nat>)
    requires Shape(c, st)
  {
    var takers := Takers(c, st);
    && near <= takers && |near| == (if c.gl <= |takers| then c.gl else |takers|)
    && forall a, b :: a in near && b in takers && b !in near ==> Closer(st, life, a, b)
  }

  /** Among the nearest takers the lowest one of the greatest positive empty rate last computed; the
      farthest of them if no rate is positive. */
  ghost predicate PickedNearest(c: Config, st: Store, life: int, near: set<nat>, z: nat)
    requires Shape(c, st)
  {
    && NearestTakers(c, st, life, near) && z in near
    && (forall a :: a in near && st.emptyRate[a] > 0.0 ==>
          st.emptyRate[a] < st.emptyRate[z] || (st.emptyRate[a] == st.emptyRate[z] && z <= a))
    && ((forall a :: a in near ==> st.emptyRate[a] <= 0.0) ==> forall a :: a in near ==> Closer(st, life, a, z))
  }

  // ---------- the test ----------

  lemma {:induction false} SettledIsSize(c: Config, st: Store, n: nat)
    requires Shape(c, st) && n <= c.zones
    ensures Settled(st.zoneLife, n) == |set z: nat | z in Recorded(c, st) && z < n|
  {
    var now := set z: nat | z in Recorded(c, st) && z < n;
    if n > 0 {
      SettledIsSize(c, st, n - 1);
      var before := set z: nat | z in Recorded(c, st) && z < n - 1;
      assert now == before + if n - 1 in Recorded(c, st) then {n - 1} else {};
    } else {
      assert now == {};
    }
  }

  lemma SparseIs(c: Config, st: Store)
    requires Shape(c, st)
    ensures Sparse(c, st) <==> |Recorded(c, st)| as real < c.sz * c.zones as real
  {
    SettledIsSize(c, st, c.zones);
    assert (set z: nat | z in Recorded(c, st) && z < c.zones) == Recorded(c, st);
  }

  lemma TakersAre(c: Config, st: Store)
    requires Shape(c, st)
    ensures Marked(EligibleZones(c, st)) == Takers(c, st)
  {
  }

  // ---------- the emptiest zone ----------

  lemma RateOrder(f: nat, p: nat, g: nat, q: nat)
    requires p > 0 && q > 0
    ensures EmptyRate(p, f) < EmptyRate(q, g) <==> g * p < f * q
    ensures EmptyRate(p, f) == EmptyRate(q, g) <==> g * p == f * q
  {
    var x, y := f as real / p as real, g as real / q as real;
    var pq := p as real * q as real;
    assert x * p as real == f as real && y * q as real == g as real;
    assert x * pq == f as real * q as real == (f * q) as real;
    assert y * pq == g as real * p as real == (g * p) as real;
    assert pq > 0.0;
    assert (x - y) * pq == (f * q) as real - (g * p) as real;
  }

  lemma EmptiestTaker(c: Config, st: Store, life: int, i: nat)
    requires Shape(c, st) && Sparse(c, st) && ChooseZone(c, st, life).Some? && i in Takers(c, st)
    ensures Emptier(c, st, ChooseZone(c, st, life).value, i)
  {
    hide EmptyRate, ChooseZone, Sparse;
    EmptiestChosen(c, st, life);
    var z := ChooseZone(c, st, life).value;
    assert EligibleZones(c, st)[i];
    RateOrder(st.fill[i], c.cap[i], st.fill[z], c.cap[z]);
  }

  // ---------- the nearest zones ----------

  lemma DistanceOrder(st: Store, life: int, a: nat, b: nat)
    requires a < |st.zoneLife| && b < |st.zoneLife|
    ensures Nearer(Distances(st, life), a, b) <==> Closer(st, life, a, b)
  {
  }

  lemma NearestAre(c: Config, st: Store, life: int, can: seq<bool>)
    requires Shape(c, st) && |can| == c.zones && NearestSet(Distances(st, life), EligibleZones(c, st), can, c.gl)
    ensures NearestTakers(c, st, life, Marked(can))
  {
    hide Nearer, Closer, Distances;
    TakersAre(c, st);
    forall a, b | a in Marked(can) && b in Takers(c, st) && b !in Marked(can) ensures Closer(st, life, a, b) {
      DistanceOrder(st, life, a, b);
    }
  }

  lemma NearestChosen(c: Config, st: Store, life: int) returns (near: set<nat>)
    requires Shape(c, st) && MeansOk(c, st) && !Sparse(c, st) && ChooseZone(c, st, life).Some?
    requires 0 <= life <= RECENT_MODIFY
    ensures PickedNearest(c, st, life, near, ChooseZone(c, st, life).value)
  {
    var ok := EligibleZones(c, st);
    var dist := Distances(st, life);
    FirstOkFinds(ok, c.zones);
    var first := FirstOk(ok, c.zones).value;
    forall i | 0 <= i < |dist| ensures dist[i] < MAX_DELTA {
      assert 0.0 <= st.zoneLife[i] <= RECENT_MODIFY as real;
    }
    CandidatesAreNearest(dist, ok, c.gl, first);
    var s := Candidates(dist, ok, c.gl, first);
    ArgMaxFinds(st.emptyRate, s.can, c.zones);
    near := Marked(s.can);
    NearestAre(c, st, life, s.can);
    forall a | a in near ensures Closer(st, life, a, s.zone) {
      DistanceOrder(st, life, a, s.zone);
    }
  }

  /** The zone chosen for a page. While fewer than `sz` of the zones have a recorded mean lifetime it is
      the emptiest taker; afterwards it is picked from the `gl` takers nearest in lifetime. */
  lemma PlacementIsAsDesigned(c: Config, st: Store, rs: seq<Record>, drain: int, flight: set<int>)
    returns (z: nat, near: set<nat>)
    requires Inv(c, st, drain, flight) && Takers(c, st) != {}
    ensures var life := PageLifetime(st.keyLife, rs);
      && z in Takers(c, st) && ChooseZone(c, st, life) == Some(z)
      && (|Recorded(c, st)| as real < c.sz * c.zones as real ==>
            forall i :: i in Takers(c, st) ==> Emptier(c, st, z, i))
      && (|Recorded(c, st)| as real >= c.sz * c.zones as real ==> PickedNearest(c, st, life, near, z))
  {
    hide Sparse, ChooseZone, PickedNearest, Emptier, Recorded;
    var life := PageLifetime(st.keyLife, rs);
    var some :| some in Takers(c, st);
    assert Eligible(c, st, some);
    ChoosesSome(c, st, life);
    PageLifetimeBound(c, st, rs);
    SparseIs(c, st);
    z := ChooseZone(c, st, life).value;
    near := {};
    if Sparse(c, st) {
      forall i | i in Takers(c, st) ensures Emptier(c, st, z, i) {
        EmptiestTaker(c, st, life, i);
      }
    } else {
      near := NearestChosen(c, st, life);
    }
  }

  lemma ChoosesSome(c: Config, st: Store, life: int)
    requires Shape(c, st) && exists z :: 0 <= z < c.zones && Eligible(c, st, z)
    ensures ChooseZone(c, st, life).Some?
  {
    FirstOkFinds(EligibleZones(c, st), c.zones);
    var z :| 0 <= z < c.zones && Eligible(c, st, z);
    assert EligibleZones(c, st)[z];
  }

  /** As long as no zone has a mean other than the initial one, and `sz` is positive, pages go to the
      emptiest zone; so the very first page goes to zone 0. */
  lemma FirstPlacement(c: Config, rs: seq<Record>)
    requires c.Valid() && c.sz > 0.0
    ensures ChooseZone(c, Initial(c), PageLifetime(Initial(c).keyLife, rs)) == Some(0)
  {
    hide ChooseZone, PickedNearest;
    var st := Initial(c);
    InitialInv(c);
    assert 0 in Takers(c, st);
    assert Recorded(c, st) == {};
    Positive(c.sz, c.zones as real);
    var z, near := PlacementIsAsDesigned(c, st, rs, -1, {});
    assert Emptier(c, st, z, 0);
  }

  lemma Positive(x: real, y: real)
    requires x > 0.0 && y > 0.0
    ensures x * y > 0.0
  {
  }

  // ---------- what the page leaves ----------

  lemma WriteFields(c: Config, st: Store, z: nat, rs: seq<Record>, life: int, add: bool)
    requires Shape(c, st) && z < c.zones && st.fill[z] < c.cap[z]
    ensures var r, b := Write(c, st, z, rs, life, add), First(c.bpz, z) + st.fill[z];
      && b < c.Blocks() && r.fill == st.fill[z := st.fill[z] + 1] && r.queued == st.queued
      && r.pages == st.pages[b := rs] && r.status == st.status[b := BlockValid]
      && r.blockLife == st.blockLife[b := life] && r.emptyRate == st.emptyRate
      && (forall k :: 0 <= k < c.maxKey ==> r.keyIndex[k] == if k in RecordMap(rs) then b else st.keyIndex[k])
      && (forall k :: 0 <= k < c.maxKey ==>
            r.keyLife[k] == if add || st.keyLife[k] == 1000 then st.keyLife[k] else st.keyLife[k] + 1)
      && (forall y :: 0 <= y < c.zones && y != z ==> r.zoneLife[y] == st.zoneLife[y])
  {
    hide RecordMap, ZoneMean;
    BlockInRange(c.bpz, c.zones, z, st.fill[z]);
  }

  /** A page written to zone `z`: it is at the zone's old write pointer, VALID, with the page lifetime of
      before the aging; its keys point to it; nothing is written elsewhere. */
  lemma PageWritten(c: Config, st: Store, rs: seq<Record>, add: bool) returns (z: nat, b: nat)
    requires Shape(c, st) && Place(c, st, rs, add).Some?
    ensures z in Takers(c, st) && b == First(c.bpz, z) + st.fill[z] < c.Blocks()
    ensures ChooseZone(c, st, PageLifetime(st.keyLife, rs)) == Some(z)
    ensures var r := Place(c, st, rs, add).value;
      && r.fill == st.fill[z := st.fill[z] + 1] && r.queued == st.queued
      && r.pages == st.pages[b := rs] && r.status == st.status[b := BlockValid]
      && r.blockLife == st.blockLife[b := PageLifetime(st.keyLife, rs)]
      && (forall k :: 0 <= k < c.maxKey ==> r.keyIndex[k] == if k in RecordMap(rs) then b else st.keyIndex[k])
      && (forall k :: 0 <= k < c.maxKey ==>
            r.keyLife[k] == if add || st.keyLife[k] == 1000 then st.keyLife[k] else st.keyLife[k] + 1)
      && (forall y :: 0 <= y < c.zones && y != z ==> r.zoneLife[y] == st.zoneLife[y])
  {
    hide ChooseZone, PageLifetime, RecordMap, Write, Sparse;
    var life := PageLifetime(st.keyLife, rs);
    z := ChooseZone(c, st, life).value;
    b := First(c.bpz, z) + st.fill[z];
    WriteFields(c, if Sparse(c, st) then RefreshRates(c, st) else st, z, rs, life, add);
  }

  /** Outside the lifetime branch the empty rates are then those of before the write; inside it they are
      not renewed. */
  lemma RatesAfterPage(c: Config, st: Store, rs: seq<Record>, add: bool, y: nat)
    requires Shape(c, st) && Place(c, st, rs, add).Some? && y < c.zones
    ensures var rate := Place(c, st, rs, add).value.emptyRate[y];
      if |Recorded(c, st)| as real < c.sz * c.zones as real
      then rate * c.cap[y] as real == (c.cap[y] - st.fill[y]) as real
      else rate == st.emptyRate[y]
  {
    hide Place, Sparse, Recorded, EmptyRate, EmptyRates, RefreshRates, Shape;
    SparseIs(c, st);
    RatesKept(c, st, rs, add);
    RatesRenewed(c, st, y);
  }

  lemma RatesKept(c: Config, st: Store, rs: seq<Record>, add: bool)
    requires Shape(c, st) && Place(c, st, rs, add).Some?
    ensures Place(c, st, rs, add).value.emptyRate == (if Sparse(c, st) then RefreshRates(c, st) else st).emptyRate
  {
    hide ChooseZone, PageLifetime, RecordMap, Write, Sparse, EmptyRate;
    var life := PageLifetime(st.keyLife, rs);
    WriteFields(c, if Sparse(c, st) then RefreshRates(c, st) else st, ChooseZone(c, st, life).value, rs, life, add);
  }

  lemma RateIsShare(cap: nat, fill: nat)
    requires cap > 0
    ensures EmptyRate(cap, fill) * cap as real == (cap - fill) as real
  {
    var q := fill as real / cap as real;
    assert q * cap as real == fill as real;
    assert (1.0 - q) * cap as real == cap as real - q * cap as real;
  }

  /** The empty rates with which detection works and ends, or starts a collection: those of the write
      pointers at that moment; initially every zone is empty. */
  lemma RatesRenewed(c: Config, st: Store, z: nat)
    requires Shape(c, st) && z < c.zones
    ensures RefreshRates(c, st).emptyRate[z] * c.cap[z] as real == (c.cap[z] - st.fill[z]) as real
    ensures Detected(c, st).emptyRate[z] * c.cap[z] as real == (c.cap[z] - st.fill[z]) as real
    ensures Initial(c).emptyRate[z] == 1.0
  {
    hide QueueAfter, EmptyRate;
    RateIsShare(c.cap[z], st.fill[z]);
  }

  lemma Every40000(load: nat)
    ensures load * 1000 % 400000 == 0 && load * 10 % 400000 == 0 <==> load % 40000 == 0
  {
    var q, r := load / 40000, load % 40000;
    ModUnique(load * 10, 400000, q, 10 * r);
    if r == 0 {
      ModUnique(load * 1000, 400000, 100 * q, 0);
    }
  }

  /** At every 40000th operation the progress report renews them, too. */
  lemma ReportRenews(c: Config, st: Store, load: nat, z: nat)
    requires Shape(c, st) && z < c.zones
    ensures load % 40000 == 0 ==>
              Report(c, st, load).emptyRate[z] * c.cap[z] as real == (c.cap[z] - st.fill[z]) as real
    ensures load % 40000 != 0 ==> Report(c, st, load) == st
  {
    hide EmptyRate, EmptyRates, RefreshRates, QueueAfter, Shape;
    RatesRenewed(c, st, z);
    Every40000(load);
  }
}
