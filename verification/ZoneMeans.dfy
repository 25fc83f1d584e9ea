/** What the mean lifetime of a zone means in every state that a trace can reach: the mean of the lifetimes of
    the blocks that were VALID when the last page was written to the zone. */
module ZoneMeans {
  import opened Codec
  import opened Packing
  import opened Layout
  import opened StoreModel
  import opened StoreRun

  // ---------- sums over sets of blocks ----------

  ghost function SumOver(blocks: set<nat>, life: seq<int>): int
    requires forall b :: b in blocks ==> b < |life|
  {
    if blocks == {} then 0
    else
      var b :| b in blocks;
      life[b] + SumOver(blocks - {b}, life)
  }

  /** Any block can be taken out first. */
  lemma {:induction false} SumRemove(blocks: set<nat>, life: seq<int>, x: nat)
    requires x in blocks && forall b :: b in blocks ==> b < |life|
    ensures SumOver(blocks, life) == life[x] + SumOver(blocks - {x}, life)
    decreases |blocks|
  {
    var b :| b in blocks && SumOver(blocks, life) == life[b] + SumOver(blocks - {b}, life);
    if b != x {
      SumRemove(blocks - {b}, life, x);
      SumRemove(blocks - {x}, life, b);
      assert blocks - {b} - {x} == blocks - {x} - {b};
    }
  }

  lemma OneMore(x: int, n: int)
    ensures x * (n + 1) == x * n + x
  {
  }

  lemma {:induction false} SumBounds(blocks: set<nat>, life: seq<int>, low: int, high: int)
    requires forall b :: b in blocks ==> b < |life| && low <= life[b] <= high
    ensures low * |blocks| <= SumOver(blocks, life) <= high * |blocks|
    decreases |blocks|
  {
    if blocks != {} {
      var x :| x in blocks;
      SumRemove(blocks, life, x);
      hide SumOver;
      SumBounds(blocks - {x}, life, low, high);
      OneMore(low, |blocks - {x}|);
      OneMore(high, |blocks - {x}|);
    } else {
      assert low * 0 == high * 0 == 0;
    }
  }

  /** The VALID blocks from `lo` up to `hi`. */
  ghost function ValidIn(status: seq<BlockStatus>, lo: nat, hi: nat): set<nat>
    requires lo <= hi <= |status|
  {
    set b: nat | lo <= b < hi && status[b] == BlockValid
  }

  lemma {:induction false} ValidSums(status: seq<BlockStatus>, life: seq<int>, lo: nat, hi: nat)
    requires lo <= hi <= |status| == |life|
    requires forall b :: lo <= b < hi && status[b] == BlockValid ==> life[b] >= 0
    ensures ValidLifeSum(status, life, lo, hi) == SumOver(ValidIn(status, lo, hi), life)
    ensures ValidLifeCount(status, life, lo, hi) == |ValidIn(status, lo, hi)|
  {
    if lo < hi {
      ValidSums(status, life, lo, hi - 1);
      var now, before := ValidIn(status, lo, hi), ValidIn(status, lo, hi - 1);
      if status[hi - 1] == BlockValid {
        assert now == before + {hi - 1};
        SumRemove(now, life, hi - 1);
        assert now - {hi - 1} == before;
      } else {
        assert now == before;
      }
    } else {
      assert ValidIn(status, lo, hi) == {};
    }
  }

  lemma Quotient(s: int, n: nat)
    requires n > 0
    ensures (s as real / n as real) * n as real == s as real
  {
  }

  // ---------- one page write ----------

  /** Lifetimes of keys and of VALID blocks lie in 0..1000, and VALID blocks below the write pointers. */
  ghost predicate LivesOk(c: Config, st: Store) {
    && Shape(c, st)
    && (forall k :: 0 <= k < c.maxKey ==> 0 <= st.keyLife[k] <= 1000)
    && (forall z, b :: 0 <= z < c.zones && InZoneOf(c, z, b) && b < c.Blocks() && st.status[b] == BlockValid ==>
          b < First(c.bpz, z) + st.fill[z] && 0 <= st.blockLife[b] <= 1000)
  }

  ghost predicate InZoneOf(c: Config, z: nat, b: int) {
    First(c.bpz, z) <= b < First(c.bpz, z) + c.bpz
  }

  /** The VALID blocks of zone `z`. */
  ghost function ValidOf(c: Config, st: Store, z: nat): (r: set<nat>)
    requires Shape(c, st) && z < c.zones
    ensures forall b :: b in r <==> 0 <= b < c.Blocks() && InZoneOf(c, z, b) && st.status[b] == BlockValid
  {
    FirstMonotone(c.bpz, z, c.zones);
    ValidIn(st.status, First(c.bpz, z), First(c.bpz, z) + c.bpz)
  }

  /** What a page write changes. */
  lemma WriteParts(c: Config, st: Store, z: nat, rs: seq<Record>, life: int, add: bool)
    requires Shape(c, st) && z < c.zones && st.fill[z] < c.cap[z]
    ensures var r, lo, b := Write(c, st, z, rs, life, add), First(c.bpz, z), First(c.bpz, z) + st.fill[z];
      && b < c.Blocks() && lo + c.bpz <= c.Blocks() && InZoneOf(c, z, b)
      && r.fill == st.fill[z := st.fill[z] + 1] && r.pages == st.pages[b := rs]
      && r.status == st.status[b := BlockValid] && r.blockLife == st.blockLife[b := life]
      && r.zoneLife == st.zoneLife[z := ZoneMean(r.status, r.blockLife, lo, lo + c.bpz)]
      && r.keyLife == if add then st.keyLife else Aged(st.keyLife)
  {
    hide RecordMap, ZoneMean, Aged, Indexed;
    BlockInRange(c.bpz, c.zones, z, st.fill[z]);
    FirstMonotone(c.bpz, z, c.zones);
  }

  lemma MeanIs(status: seq<BlockStatus>, life: seq<int>, lo: nat, hi: nat)
    requires lo <= hi <= |status| == |life|
    requires forall b :: lo <= b < hi && status[b] == BlockValid ==> life[b] >= 0
    ensures var valid := ValidIn(status, lo, hi);
      valid != {} ==> ZoneMean(status, life, lo, hi) * |valid| as real == SumOver(valid, life) as real
  {
    hide ValidLifeSum, ValidLifeCount, SumOver, ValidIn;
    ValidSums(status, life, lo, hi);
    var n := ValidLifeCount(status, life, lo, hi);
    if n > 0 {
      Quotient(ValidLifeSum(status, life, lo, hi), n);
    }
  }

  /** After a page write to zone `z`, its mean times the number of its VALID blocks is the sum of their
      lifetimes; the page is one of them. */
  lemma WriteMean(c: Config, st: Store, z: nat, rs: seq<Record>, life: int, add: bool)
    requires LivesOk(c, st) && z < c.zones && st.fill[z] < c.cap[z] && 0 <= life <= 1000
    ensures var r := Write(c, st, z, rs, life, add);
      var valid := ValidOf(c, r, z);
      && First(c.bpz, z) + st.fill[z] in valid
      && r.zoneLife[z] * |valid| as real == SumOver(valid, r.blockLife) as real
  {
    hide Write, ZoneMean, SumOver, First;
    var r, lo := Write(c, st, z, rs, life, add), First(c.bpz, z);
    WriteParts(c, st, z, rs, life, add);
    forall b | lo <= b < lo + c.bpz && r.status[b] == BlockValid ensures r.blockLife[b] >= 0 {
      assert InZoneOf(c, z, b);
    }
    MeanIs(r.status, r.blockLife, lo, lo + c.bpz);
    assert lo + st.fill[z] in ValidOf(c, r, z);
  }

  lemma Between(mean: real, n: nat, sum: int, low: int, high: int)
    requires n > 0 && mean * n as real == sum as real && low * n <= sum <= high * n
    ensures low as real <= mean <= high as real
  {
    var m := n as real;
    assert (low * n) as real == low as real * m && (high * n) as real == high as real * m;
    assert (mean - low as real) * m >= 0.0 && (high as real - mean) * m >= 0.0;
  }

  /** So the mean lies between the least and the greatest of these lifetimes, and it is the page's own
      lifetime if no other block of the zone is VALID. */
  lemma WriteMeanBetween(c: Config, st: Store, z: nat, rs: seq<Record>, life: int, add: bool, low: int, high: int)
    requires LivesOk(c, st) && z < c.zones && st.fill[z] < c.cap[z] && 0 <= life <= 1000
    requires low <= life <= high
    requires forall b :: b in ValidOf(c, st, z) ==> low <= st.blockLife[b] <= high
    ensures low as real <= Write(c, st, z, rs, life, add).zoneLife[z] <= high as real
    ensures ValidOf(c, st, z) == {} ==> Write(c, st, z, rs, life, add).zoneLife[z] == life as real
  {
    hide Write, SumOver, First, ValidOf;
    var r, w := Write(c, st, z, rs, life, add), First(c.bpz, z) + st.fill[z];
    var valid := ValidOf(c, r, z);
    WriteMean(c, st, z, rs, life, add);
    WriteParts(c, st, z, rs, life, add);
    assert valid != {};
    SumBounds(valid, r.blockLife, low, high);
    Between(r.zoneLife[z], |valid|, SumOver(valid, r.blockLife), low, high);
    if ValidOf(c, st, z) == {} {
      OnlyPage(c, st, z, rs, life, add);
    }
  }

  lemma OnlyPage(c: Config, st: Store, z: nat, rs: seq<Record>, life: int, add: bool)
    requires LivesOk(c, st) && z < c.zones && st.fill[z] < c.cap[z] && 0 <= life <= 1000
    requires ValidOf(c, st, z) == {}
    ensures Write(c, st, z, rs, life, add).zoneLife[z] == life as real
  {
    hide Write, First, ValidOf;
    var r, w := Write(c, st, z, rs, life, add), First(c.bpz, z) + st.fill[z];
    WriteMean(c, st, z, rs, life, add);
    WriteParts(c, st, z, rs, life, add);
    assert ValidOf(c, r, z) == {w};
    SumRemove({w}, r.blockLife, w);
    assert {w} - {w} == {};
  }

  // ---------- what the last page write left ----------

  /** `blocks` and `life` may be what the last page write left in zone `z`: the blocks VALID then, and their
      lifetimes. That page is one of them, and all blocks VALID now were, with the same lifetimes. */
  ghost predicate LeftBy(c: Config, st: Store, z: nat, blocks: set<nat>, life: seq<int>)
    requires Shape(c, st) && z < c.zones
  {
    && (forall b :: b in blocks ==>
          b < |life| && InZoneOf(c, z, b) && b < First(c.bpz, z) + st.fill[z] && 0 <= life[b] <= 1000)
    && st.fill[z] > 0 && First(c.bpz, z) + st.fill[z] - 1 in blocks
    && (forall b :: b in ValidOf(c, st, z) ==> b in blocks && life[b] == st.blockLife[b])
    && st.zoneLife[z] * |blocks| as real == SumOver(blocks, life) as real
  }

  /** A zone with pages has the mean that its last page write left; an empty one 0 after a reset, and 1000
      if nothing was ever written to it. */
  ghost predicate MeanLeft(c: Config, st: Store, z: nat)
    requires Shape(c, st) && z < c.zones
  {
    FirstMonotone(c.bpz, z, c.zones);
    if st.fill[z] == 0 then st.zoneLife[z] == 0.0 || (st.zoneLife[z] == 1000.0 && st.pages[First(c.bpz, z)] == [])
    else exists blocks, life :: LeftBy(c, st, z, blocks, life)
  }

  ghost predicate MeansLeft(c: Config, st: Store) {
    LivesOk(c, st) && forall z :: 0 <= z < c.zones ==> MeanLeft(c, st, z)
  }

  /** Zone `z` keeps its mean as long as no page is written to it and it is not reset, although its VALID
      blocks may become INVALID. */
  lemma MeanKept(c: Config, st: Store, r: Store, z: nat)
    requires Shape(c, st) && Shape(c, r) && z < c.zones && MeanLeft(c, st, z)
    requires r.fill[z] == st.fill[z] && r.zoneLife[z] == st.zoneLife[z]
    requires First(c.bpz, z) < c.Blocks() ==> r.pages[First(c.bpz, z)] == st.pages[First(c.bpz, z)]
    requires forall b :: b in ValidOf(c, r, z) ==> b in ValidOf(c, st, z) && r.blockLife[b] == st.blockLife[b]
    ensures MeanLeft(c, r, z)
  {
    hide SumOver, ValidIn;
    FirstMonotone(c.bpz, z, c.zones);
    if st.fill[z] > 0 {
      var blocks, life :| LeftBy(c, st, z, blocks, life);
      assert LeftBy(c, r, z, blocks, life);
    }
  }

  lemma InitialLeft(c: Config)
    requires c.Valid()
    ensures MeansLeft(c, Initial(c))
  {
    forall z | 0 <= z < c.zones ensures MeanLeft(c, Initial(c), z) {
      FirstMonotone(c.bpz, z, c.zones);
    }
  }

  lemma OtherZone(c: Config, z: nat, y: nat, b: int)
    requires y != z && InZoneOf(c, z, b)
    ensures !InZoneOf(c, y, b)
  {
    if y < z { FirstMonotone(c.bpz, y, z); } else { FirstMonotone(c.bpz, z, y); }
  }

  lemma WriteLives(c: Config, st: Store, z: nat, rs: seq<Record>, life: int, add: bool)
    requires LivesOk(c, st) && z < c.zones && st.fill[z] < c.cap[z] && 0 <= life <= 1000
    ensures LivesOk(c, Write(c, st, z, rs, life, add))
  {
    hide Write;
    var r, w := Write(c, st, z, rs, life, add), First(c.bpz, z) + st.fill[z];
    WriteParts(c, st, z, rs, life, add);
    forall y, b | 0 <= y < c.zones && InZoneOf(c, y, b) && b < c.Blocks() && r.status[b] == BlockValid
      ensures b < First(c.bpz, y) + r.fill[y] && 0 <= r.blockLife[b] <= 1000
    {
      if y != z {
        OtherZone(c, z, y, w);
      }
    }
  }

  lemma WriteLeft(c: Config, st: Store, z: nat, rs: seq<Record>, life: int, add: bool)
    requires MeansLeft(c, st) && z < c.zones && st.fill[z] < c.cap[z] && 0 <= life <= 1000
    ensures MeansLeft(c, Write(c, st, z, rs, life, add))
  {
    hide Write, MeanLeft;
    var r, w := Write(c, st, z, rs, life, add), First(c.bpz, z) + st.fill[z];
    WriteParts(c, st, z, rs, life, add);
    WriteLives(c, st, z, rs, life, add);
    forall y | 0 <= y < c.zones ensures MeanLeft(c, r, y) {
      if y == z {
        WrittenLeft(c, st, z, rs, life, add);
      } else {
        OtherZone(c, z, y, w);
        OtherZone(c, y, z, First(c.bpz, y));
        MeanKept(c, st, r, y);
      }
    }
  }

  lemma WrittenLeft(c: Config, st: Store, z: nat, rs: seq<Record>, life: int, add: bool)
    requires MeansLeft(c, st) && z < c.zones && st.fill[z] < c.cap[z] && 0 <= life <= 1000
    ensures MeanLeft(c, Write(c, st, z, rs, life, add), z)
  {
    hide Write, SumOver;
    var r := Write(c, st, z, rs, life, add);
    WriteParts(c, st, z, rs, life, add);
    FirstMonotone(c.bpz, z, c.zones);
    assert MeanLeft(c, st, z);
    WriteMean(c, st, z, rs, life, add);
    WriteLives(c, st, z, rs, life, add);
    assert LeftBy(c, r, z, ValidOf(c, r, z), r.blockLife);
  }

  // ---------- the operations ----------

  lemma {:induction false} PageLifeBound(c: Config, st: Store, rs: seq<Record>)
    requires LivesOk(c, st)
    ensures 0 <= PageLifetime(st.keyLife, rs) <= 1000
  {
    if rs != [] {
      PageLifeBound(c, st, rs[..|rs| - 1]);
    }
  }

  /** Same blocks, pages, write pointers, means and lifetimes. */
  ghost predicate SameMeans(st: Store, r: Store) {
    && r.fill == st.fill && r.pages == st.pages && r.status == st.status && r.blockLife == st.blockLife
    && r.zoneLife == st.zoneLife && r.keyLife == st.keyLife
  }

  lemma SameLeft(c: Config, st: Store, r: Store)
    requires MeansLeft(c, st) && Shape(c, r) && SameMeans(st, r)
    ensures MeansLeft(c, r)
  {
    hide MeanLeft;
    forall z | 0 <= z < c.zones ensures MeanLeft(c, r, z) {
      MeanKept(c, st, r, z);
    }
  }

  lemma PlaceLeft(c: Config, st: Store, rs: seq<Record>, add: bool)
    requires MeansLeft(c, st) && Place(c, st, rs, add).Some?
    ensures MeansLeft(c, Place(c, st, rs, add).value)
  {
    hide MeansLeft, ChooseZone, Sparse, Write, PageLifetime, EmptyRates;
    var life := PageLifetime(st.keyLife, rs);
    LivesAre(c, st);
    var base := if Sparse(c, st) then RefreshRates(c, st) else st;
    PageLifeBound(c, st, rs);
    SameLeft(c, st, base);
    WriteLeft(c, base, ChooseZone(c, st, life).value, rs, life, add);
  }

  lemma LivesAre(c: Config, st: Store)
    requires MeansLeft(c, st)
    ensures LivesOk(c, st) && Shape(c, st)
  {
  }

  lemma {:induction false} PlaceAllLeft(c: Config, st: Store, pages: seq<seq<Record>>)
    requires MeansLeft(c, st) && PlaceAll(c, st, pages).Some?
    ensures MeansLeft(c, PlaceAll(c, st, pages).value)
    decreases |pages|
  {
    if pages != [] {
      hide Place, MeansLeft;
      PlaceLeft(c, st, pages[0], false);
      PlaceAllLeft(c, Place(c, st, pages[0], false).value, pages[1..]);
    }
  }

  lemma ResetLeft(c: Config, st: Store, z: nat)
    requires MeansLeft(c, st) && z < c.zones
    ensures MeansLeft(c, Reset(c, st, z))
  {
    hide MeanLeft;
    var r := Reset(c, st, z);
    forall y, b | 0 <= y < c.zones && InZoneOf(c, y, b) && b < c.Blocks() && r.status[b] == BlockValid
      ensures b < First(c.bpz, y) + r.fill[y] && 0 <= r.blockLife[b] <= 1000
    {
      assert y != z;
    }
    forall y | 0 <= y < c.zones ensures MeanLeft(c, r, y) {
      if y == z {
        EmptyLeft(c, st, z);
      } else {
        MeanKept(c, st, r, y);
      }
    }
  }

  lemma EmptyLeft(c: Config, st: Store, z: nat)
    requires Shape(c, st) && z < c.zones
    ensures MeanLeft(c, Reset(c, st, z), z)
  {
    FirstMonotone(c.bpz, z, c.zones);
  }

  lemma CollectZoneLeft(c: Config, st: Store, z: nat)
    requires MeansLeft(c, st) && z < c.zones && CollectZone(c, st, z).Some?
    ensures MeansLeft(c, CollectZone(c, st, z).value)
  {
    hide MeansLeft, PlaceAll, Pack, ZoneRecords, Reset;
    LivesAre(c, st);
    var pages := Pack([], ZoneRecords(c, st, z));
    PlaceAllLeft(c, st, pages);
    ResetLeft(c, PlaceAll(c, st, pages).value, z);
  }

  lemma {:induction false} CollectFromLeft(c: Config, st: Store, i: nat)
    requires MeansLeft(c, st) && i <= c.zones && CollectFrom(c, st, i).Some?
    ensures MeansLeft(c, CollectFrom(c, st, i).value)
    decreases c.zones - i
  {
    hide MeansLeft, CollectZone;
    LivesAre(c, st);
    if i < c.zones {
      if st.queued[i] {
        CollectZoneLeft(c, st, i);
        CollectFromLeft(c, CollectZone(c, st, i).value, i + 1);
      } else {
        CollectFromLeft(c, st, i + 1);
      }
    }
  }

  lemma RatesLeft(c: Config, st: Store)
    requires MeansLeft(c, st)
    ensures Shape(c, st) && MeansLeft(c, RefreshRates(c, st))
  {
    hide MeansLeft, EmptyRates;
    LivesAre(c, st);
    SameLeft(c, st, RefreshRates(c, st));
  }

  lemma {:induction false} DetectFromLeft(c: Config, st: Store, i: nat)
    requires MeansLeft(c, st) && i <= c.zones && DetectFrom(c, st, i).Some?
    ensures MeansLeft(c, DetectFrom(c, st, i).value)
    decreases c.zones - i
  {
    hide MeansLeft, CollectFrom, Wasteful, QueueLength, RefreshRates;
    LivesAre(c, st);
    if i < c.zones {
      if !Wasteful(c, st, i) {
        DetectFromLeft(c, st, i + 1);
      } else {
        var s := st.(queued := st.queued[i := true]);
        SameLeft(c, st, s);
        if QueueLength(s.queued, c.zones) >= c.gl {
          RatesLeft(c, s);
          CollectFromLeft(c, RefreshRates(c, s), 0);
        } else {
          DetectFromLeft(c, s, i + 1);
        }
      }
    }
  }

  lemma InsertLeft(c: Config, st: Store, rs: seq<Record>, add: bool)
    requires MeansLeft(c, st) && Insert(c, st, rs, add).Some?
    ensures MeansLeft(c, Insert(c, st, rs, add).value)
  {
    hide MeansLeft, Place, DetectFrom, RefreshRates;
    LivesAre(c, st);
    PlaceLeft(c, st, rs, add);
    RatesLeft(c, Place(c, st, rs, add).value);
    DetectFromLeft(c, RefreshRates(c, Place(c, st, rs, add).value), 0);
  }

  lemma {:induction false} InsertAllLeft(c: Config, st: Store, pages: seq<seq<Record>>)
    requires MeansLeft(c, st) && InsertAll(c, st, pages).Some?
    ensures MeansLeft(c, InsertAll(c, st, pages).value)
    decreases |pages|
  {
    if pages != [] {
      hide Insert, MeansLeft;
      LivesAre(c, st);
      InsertLeft(c, st, pages[0], false);
      InsertAllLeft(c, Insert(c, st, pages[0], false).value, pages[1..]);
    }
  }

  lemma InvalidateLeft(c: Config, st: Store, k: nat, v: int)
    requires MeansLeft(c, st) && k < c.maxKey && st.keyIndex[k] != NO_BLOCK
    ensures MeansLeft(c, Invalidate(c, st, k, v))
  {
    hide MeanLeft;
    var r := Invalidate(c, st, k, v);
    forall z | 0 <= z < c.zones ensures MeanLeft(c, r, z) {
      MeanKept(c, st, r, z);
    }
  }

  lemma StepLeft(c: Config, s: System, op: Op)
    requires MeansLeft(c, s.store) && Step(c, s, op).Some?
    ensures MeansLeft(c, Step(c, s, op).value.store)
  {
    hide MeansLeft, Insert, InsertAll, Invalidate, Pack, Changed, Bytes, RefreshRates;
    LivesAre(c, s.store);
    var st := Report(c, s.store, s.load + 1);
    RatesLeft(c, s.store);
    if Flushes(s.buffer, op) && s.buffer != [] {
      InsertLeft(c, st, s.buffer, true);
    }
    var t := Prepare(c, s, op).value.store;
    if !op.Add? {
      var v := if op.Modify? then op.size else 0;
      LivesAre(c, t);
      InvalidateLeft(c, t, op.key, v);
      InsertAllLeft(c, Invalidate(c, t, op.key, v), Pack([], Changed(t.pages[t.keyIndex[op.key]], op.key, v)));
    }
  }

  /** In every state that a trace reaches, each zone's mean is the one its last page write left. */
  lemma {:induction false} ReachableMeans(c: Config, trace: seq<Op>)
    requires c.Valid() && Run(c, trace).Some?
    ensures MeansLeft(c, Run(c, trace).value.store)
  {
    hide MeansLeft, Step;
    if trace == [] {
      InitialLeft(c);
    } else {
      var n := |trace| - 1;
      ReachableMeans(c, trace[..n]);
      StepLeft(c, Run(c, trace[..n]).value, trace[n]);
    }
  }
}
