/** The invariant of the store and the key-value map it stands for. Two parameters describe what is
    under way: `drain` is the zone being collected (-1: none), whose pages no longer count, and
    `flight` is the set of keys whose records are only in memory. */
module StoreInvariant {
  import opened Codec
  import opened Packing
  import opened Layout
  import opened StoreModel

  ghost predicate KeysBelow(rs: seq<Record>, n: nat) {
    forall i :: 0 <= i < |rs| ==> rs[i].key < n
  }

  ghost predicate PageOk(c: Config, rs: seq<Record>) {
    rs != [] && FitsPage(rs) && DistinctKeys(rs) && KeysBelow(rs, c.maxKey)
  }

  /** A block is EMPTY exactly at or past its zone's write pointer, and has a lifetime exactly when
      VALID. */
  ghost predicate BlockOk(c: Config, st: Store, b: nat)
    requires Shape(c, st) && b < c.Blocks()
  {
    ZoneInRange(c.bpz, c.zones, b);
    && (st.status[b] == BlockEmpty <==> OffsetOf(c.bpz, b) >= st.fill[ZoneOf(c.bpz, b)])
    && (st.status[b] == BlockValid <==> st.blockLife[b] >= 0)
    && st.blockLife[b] <= RECENT_MODIFY
    && (st.status[b] == BlockValid ==> PageOk(c, st.pages[b]))
  }

  ghost predicate BlocksOk(c: Config, st: Store)
    requires Shape(c, st)
  {
    forall b :: 0 <= b < c.Blocks() ==> BlockOk(c, st, b)
  }

  /** The block carries current records. */
  ghost predicate Live(c: Config, st: Store, drain: int, b: int)
    requires Shape(c, st)
  {
    0 <= b < c.Blocks() && st.status[b] == BlockValid && ZoneOf(c.bpz, b) != drain
  }

  ghost predicate Holds(st: Store, b: int, k: int) {
    0 <= b < |st.pages| && k in RecordMap(st.pages[b])
  }

  ghost predicate PagesIndexed(c: Config, st: Store, drain: int, flight: set<int>)
    requires Shape(c, st)
  {
    forall b, k :: Live(c, st, drain, b) && Holds(st, b, k) ==>
      0 <= k < c.maxKey && st.keyIndex[k] == b && k !in flight
  }

  ghost predicate IndexLive(c: Config, st: Store, drain: int, flight: set<int>)
    requires Shape(c, st)
  {
    forall k :: 0 <= k < c.maxKey && k !in flight && st.keyIndex[k] != NO_BLOCK ==>
      Live(c, st, drain, st.keyIndex[k]) && Holds(st, st.keyIndex[k], k)
  }

  /** Outside `flight`, `keyIndex` points exactly at the live pages that hold the keys. */
  ghost predicate PointersOk(c: Config, st: Store, drain: int, flight: set<int>)
    requires Shape(c, st)
  {
    PagesIndexed(c, st, drain, flight) && IndexLive(c, st, drain, flight)
  }

  /** What a key's lifetime means: pages written by non-ADD operations since its last update or
      delete, at most 1000; 1000 if it was never modified. */
  function Age(clock: nat, stamp: int): int {
    if stamp < 0 || clock - stamp > RECENT_MODIFY then RECENT_MODIFY else clock - stamp
  }

  ghost predicate AgesOk(c: Config, st: Store)
    requires Shape(c, st)
  {
    forall k :: 0 <= k < c.maxKey ==> st.stamp[k] <= st.clock && st.keyLife[k] == Age(st.clock, st.stamp[k])
  }

  ghost predicate MeansOk(c: Config, st: Store)
    requires Shape(c, st)
  {
    forall z :: 0 <= z < c.zones ==> 0.0 <= st.zoneLife[z] <= RECENT_MODIFY as real
  }

  ghost predicate Inv(c: Config, st: Store, drain: int, flight: set<int>) {
    Shape(c, st) && BlocksOk(c, st) && PointersOk(c, st, drain, flight) && AgesOk(c, st) && MeansOk(c, st)
  }

  /** The value size of a key, reached through `keyIndex`. */
  ghost function Lookup(c: Config, st: Store, flight: set<int>, k: int): Option<int>
    requires Shape(c, st)
  {
    if 0 <= k < c.maxKey && k !in flight && Holds(st, st.keyIndex[k], k)
    then Some(RecordMap(st.pages[st.keyIndex[k]])[k])
    else None
  }

  /** The abstract map. */
  ghost function Contents(c: Config, st: Store, flight: set<int>): map<int, int>
    requires Shape(c, st)
  {
    map k | 0 <= k < c.maxKey && Lookup(c, st, flight, k).Some? :: Lookup(c, st, flight, k).value
  }

  lemma InitialInv(c: Config)
    requires c.Valid()
    ensures Inv(c, Initial(c), -1, {}) && Contents(c, Initial(c), {}) == map[]
  {
    var st := Initial(c);
    forall b | 0 <= b < c.Blocks() ensures BlockOk(c, st, b) {
      ZoneInRange(c.bpz, c.zones, b);
    }
  }

  // ---------- record maps ----------

  lemma {:induction false} RecordMapHas(rs: seq<Record>, k: int)
    ensures k in RecordMap(rs) <==> exists i :: 0 <= i < |rs| && rs[i].key == k
  {
    if rs != [] {
      RecordMapHas(rs[..|rs| - 1], k);
      assert rs[|rs| - 1].key == k || forall i :: 0 <= i < |rs| && rs[i].key == k ==> rs[..|rs| - 1][i].key == k;
    }
  }

  lemma RecordMapBelow(c: Config, rs: seq<Record>, k: int)
    requires AllValid(rs) && KeysBelow(rs, c.maxKey) && k in RecordMap(rs)
    ensures 0 <= k < c.maxKey
  {
    RecordMapHas(rs, k);
    var i :| 0 <= i < |rs| && rs[i].key == k;
    assert ValidRecord(rs[i]);
  }

  lemma {:induction false} RecordMapConcat(xs: seq<Record>, ys: seq<Record>)
    ensures RecordMap(xs + ys) == RecordMap(xs) + RecordMap(ys)
  {
    if ys == [] {
      assert xs + ys == xs;
    } else {
      var n := |ys| - 1;
      assert (xs + ys)[..|xs + ys| - 1] == xs + ys[..n];
      RecordMapConcat(xs, ys[..n]);
    }
  }

  lemma RecordMapEither(xs: seq<Record>, ys: seq<Record>, k: int)
    ensures k in RecordMap(xs + ys) <==> k in RecordMap(xs) || k in RecordMap(ys)
    ensures k in RecordMap(ys) ==> RecordMap(xs + ys)[k] == RecordMap(ys)[k]
    ensures k in RecordMap(xs) && k !in RecordMap(ys) ==> RecordMap(xs + ys)[k] == RecordMap(xs)[k]
  {
    RecordMapConcat(xs, ys);
  }

  lemma DistinctParts(xs: seq<Record>, ys: seq<Record>, k: int)
    requires DistinctKeys(xs + ys)
    ensures DistinctKeys(xs) && DistinctKeys(ys)
    ensures !(k in RecordMap(xs) && k in RecordMap(ys))
  {
    var zs := xs + ys;
    assert forall i :: 0 <= i < |xs| ==> xs[i] == zs[i];
    assert forall i :: 0 <= i < |ys| ==> ys[i] == zs[|xs| + i];
    RecordMapHas(xs, k);
    RecordMapHas(ys, k);
  }

  lemma DistinctConcat(xs: seq<Record>, ys: seq<Record>)
    requires DistinctKeys(xs) && DistinctKeys(ys)
    requires forall k :: k in RecordMap(xs) ==> k !in RecordMap(ys)
    ensures DistinctKeys(xs + ys)
  {
    forall i, j | 0 <= i < j < |xs + ys| ensures (xs + ys)[i].key != (xs + ys)[j].key {
      if i < |xs| <= j {
        RecordMapHas(xs, xs[i].key);
        RecordMapHas(ys, ys[j - |xs|].key);
      }
    }
  }

  // ---------- one page write ----------

  lemma {:induction false} PageLifetimeBound(c: Config, st: Store, rs: seq<Record>)
    requires Shape(c, st) && AgesOk(c, st)
    ensures 0 <= PageLifetime(st.keyLife, rs) <= RECENT_MODIFY
  {
    if rs != [] {
      PageLifetimeBound(c, st, rs[..|rs| - 1]);
    }
  }

  lemma {:induction false} LifeSumBound(s: seq<BlockStatus>, life: seq<int>, lo: nat, hi: nat)
    requires lo <= hi <= |s| == |life|
    requires forall b :: lo <= b < hi ==> life[b] <= RECENT_MODIFY
    ensures 0 <= ValidLifeSum(s, life, lo, hi) <= RECENT_MODIFY * ValidLifeCount(s, life, lo, hi)
  {
    if lo < hi {
      LifeSumBound(s, life, lo, hi - 1);
    }
  }

  lemma QuotientBound(x: real, n: real, m: real)
    requires n > 0.0 && 0.0 <= x <= m * n
    ensures 0.0 <= x / n <= m
  {
    var q := x / n;
    assert q * n == x;
    assert (m - q) * n >= 0.0;
  }

  lemma ZoneMeanBound(s: seq<BlockStatus>, life: seq<int>, lo: nat, hi: nat)
    requires lo <= hi <= |s| == |life|
    requires forall b :: lo <= b < hi ==> life[b] <= RECENT_MODIFY
    ensures 0.0 <= ZoneMean(s, life, lo, hi) <= RECENT_MODIFY as real
  {
    LifeSumBound(s, life, lo, hi);
    var n := ValidLifeCount(s, life, lo, hi);
    if n > 0 {
      QuotientBound(ValidLifeSum(s, life, lo, hi) as real, n as real, RECENT_MODIFY as real);
    }
  }

  lemma WriteBlocks(c: Config, st: Store, z: nat, rs: seq<Record>, life: int, add: bool)
    requires Shape(c, st) && z < c.zones && st.fill[z] < c.cap[z]
    requires BlocksOk(c, st) && PageOk(c, rs) && 0 <= life <= RECENT_MODIFY
    ensures BlocksOk(c, Write(c, st, z, rs, life, add))
  {
    var r := Write(c, st, z, rs, life, add);
    var w := First(c.bpz, z) + st.fill[z];
    forall b | 0 <= b < c.Blocks() ensures BlockOk(c, r, b) {
      ZoneInRange(c.bpz, c.zones, b);
      PartsOfBlock(c.bpz, b);
      BlockParts(c.bpz, z, st.fill[z]);
      assert BlockOk(c, st, b);
    }
  }

  lemma WriteMeans(c: Config, st: Store, z: nat, rs: seq<Record>, life: int, add: bool)
    requires Shape(c, st) && z < c.zones && st.fill[z] < c.cap[z]
    requires BlocksOk(c, st) && MeansOk(c, st) && life <= RECENT_MODIFY
    ensures MeansOk(c, Write(c, st, z, rs, life, add))
  {
    var r := Write(c, st, z, rs, life, add);
    var lo := First(c.bpz, z);
    FirstMonotone(c.bpz, z, c.zones);
    forall b | lo <= b < lo + c.bpz ensures r.blockLife[b] <= RECENT_MODIFY {
      assert BlockOk(c, st, b);
    }
    ZoneMeanBound(r.status, r.blockLife, lo, lo + c.bpz);
  }

  lemma WriteAges(c: Config, st: Store, z: nat, rs: seq<Record>, life: int, add: bool)
    requires Shape(c, st) && z < c.zones && st.fill[z] < c.cap[z] && AgesOk(c, st)
    ensures AgesOk(c, Write(c, st, z, rs, life, add))
  {
  }

  lemma FreshBlock(c: Config, st: Store, z: nat)
    requires Shape(c, st) && z < c.zones && st.fill[z] < c.cap[z] && BlocksOk(c, st)
    ensures var w := First(c.bpz, z) + st.fill[z];
      w < c.Blocks() && ZoneOf(c.bpz, w) == z && st.status[w] == BlockEmpty
  {
    BlockParts(c.bpz, z, st.fill[z]);
    BlockInRange(c.bpz, c.zones, z, st.fill[z]);
    assert BlockOk(c, st, First(c.bpz, z) + st.fill[z]);
  }

  /** The page lands in a fresh block, so pages that are pointed at stay as they are. */
  lemma WritePagesIndexed(c: Config, st: Store, z: nat, rs: seq<Record>, life: int, add: bool,
                          drain: int, flight: set<int>)
    requires Shape(c, st) && z < c.zones && st.fill[z] < c.cap[z] && z != drain
    requires PageOk(c, rs) && PagesIndexed(c, st, drain, flight)
    requires RecordMap(rs).Keys <= flight
    ensures PagesIndexed(c, Write(c, st, z, rs, life, add), drain, flight - RecordMap(rs).Keys)
  {
    var r := Write(c, st, z, rs, life, add);
    var w := First(c.bpz, z) + st.fill[z];
    forall b, k | Live(c, r, drain, b) && Holds(r, b, k)
      ensures 0 <= k < c.maxKey && r.keyIndex[k] == b && k !in flight - RecordMap(rs).Keys
    {
      if b == w {
        RecordMapBelow(c, rs, k);
      } else {
        assert Live(c, st, drain, b) && Holds(st, b, k);
      }
    }
  }

  lemma WriteIndexLive(c: Config, st: Store, z: nat, rs: seq<Record>, life: int, add: bool,
                       drain: int, flight: set<int>)
    requires Shape(c, st) && z < c.zones && st.fill[z] < c.cap[z] && z != drain
    requires BlocksOk(c, st) && IndexLive(c, st, drain, flight)
    ensures IndexLive(c, Write(c, st, z, rs, life, add), drain, flight - RecordMap(rs).Keys)
  {
    var r := Write(c, st, z, rs, life, add);
    FreshBlock(c, st, z);
    forall k | 0 <= k < c.maxKey && k !in flight - RecordMap(rs).Keys && r.keyIndex[k] != NO_BLOCK
      ensures Live(c, r, drain, r.keyIndex[k]) && Holds(r, r.keyIndex[k], k)
    {
      if k !in RecordMap(rs) {
        assert Live(c, st, drain, st.keyIndex[k]) && Holds(st, st.keyIndex[k], k);
      }
    }
  }

  lemma WriteLookup(c: Config, st: Store, z: nat, rs: seq<Record>, life: int, add: bool,
                    drain: int, flight: set<int>, k: int)
    requires Shape(c, st) && z < c.zones && st.fill[z] < c.cap[z]
    requires BlocksOk(c, st) && PageOk(c, rs) && IndexLive(c, st, drain, flight)
    requires RecordMap(rs).Keys <= flight
    ensures Lookup(c, Write(c, st, z, rs, life, add), flight - RecordMap(rs).Keys, k)
         == if k in RecordMap(rs) then Some(RecordMap(rs)[k]) else Lookup(c, st, flight, k)
  {
    FreshBlock(c, st, z);
    if k in RecordMap(rs) {
      RecordMapBelow(c, rs, k);
    } else if 0 <= k < c.maxKey && k !in flight && st.keyIndex[k] != NO_BLOCK {
      assert Live(c, st, drain, st.keyIndex[k]);
    }
  }

  lemma WriteContents(c: Config, st: Store, z: nat, rs: seq<Record>, life: int, add: bool,
                      drain: int, flight: set<int>)
    requires Shape(c, st) && z < c.zones && st.fill[z] < c.cap[z]
    requires BlocksOk(c, st) && PageOk(c, rs) && IndexLive(c, st, drain, flight)
    requires RecordMap(rs).Keys <= flight
    ensures Contents(c, Write(c, st, z, rs, life, add), flight - RecordMap(rs).Keys)
         == Contents(c, st, flight) + RecordMap(rs)
  {
    forall k: int {
      WriteLookup(c, st, z, rs, life, add, drain, flight, k);
    }
    forall k | k in RecordMap(rs) ensures 0 <= k < c.maxKey {
      RecordMapBelow(c, rs, k);
    }
  }
}
