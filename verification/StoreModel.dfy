/** The log-structured store as a state machine on values. A state holds the arrays of the
    simulation, the fill of every device zone and, for every block, the records of its page. Each
    function below is one operation; None means that the operation aborts because no zone is left
    to write to. */
module StoreModel {
  import opened Codec
  import opened Packing
  import opened Layout
  import opened Placement

  const RECENT_MODIFY: int := 1000
  const NO_BLOCK: int := -1

  datatype BlockStatus = BlockEmpty | BlockValid | BlockInvalid

  /** Device geometry (`cap` is the capacity of each zone in blocks) and the thresholds. */
  datatype Config = Config(zones: nat, bpz: nat, cap: seq<nat>, maxKey: nat,
                           gl: nat, sg: real, se: real, sz: real, sl: real)
  {
    function Blocks(): nat {
      First(bpz, zones)
    }

    ghost predicate Valid() {
      && zones > 0 && bpz > 0 && gl > 0 && maxKey <= 0x8000_0000
      && |cap| == zones && forall z :: 0 <= z < zones ==> 1 <= cap[z] <= bpz
    }
  }

  /** `clock` counts the pages written by updates, deletes and garbage collection, and `stamp` is
      the clock at the last update or delete of each key (-1: never); they only serve to say what
      `keyLife` means. */
  datatype Store = Store(fill: seq<nat>, pages: seq<seq<Record>>, status: seq<BlockStatus>,
                         blockLife: seq<int>, keyIndex: seq<int>, keyLife: seq<int>,
                         zoneLife: seq<real>, emptyRate: seq<real>, queued: seq<bool>,
                         clock: nat, stamp: seq<int>)

  ghost predicate Shape(c: Config, st: Store) {
    && c.Valid()
    && |st.fill| == |st.zoneLife| == |st.emptyRate| == |st.queued| == c.zones
    && |st.pages| == |st.status| == |st.blockLife| == c.Blocks()
    && |st.keyIndex| == |st.keyLife| == |st.stamp| == c.maxKey
    && (forall z :: 0 <= z < c.zones ==> st.fill[z] <= c.cap[z])
    && (forall k :: 0 <= k < c.maxKey ==> NO_BLOCK <= st.keyIndex[k] < c.Blocks())
  }

  ghost function Initial(c: Config): (st: Store)
    requires c.Valid()
    ensures Shape(c, st)
  {
    Store(seq(c.zones, z => 0), seq(c.Blocks(), b => []), seq(c.Blocks(), b => BlockEmpty),
          seq(c.Blocks(), b => -1), seq(c.maxKey, k => NO_BLOCK), seq(c.maxKey, k => RECENT_MODIFY),
          seq(c.zones, z => RECENT_MODIFY as real), seq(c.zones, z => 1.0), seq(c.zones, z => false),
          0, seq(c.maxKey, k => -1))
  }

  /** The key-value pairs of a list of records. */
  function RecordMap(rs: seq<Record>): map<int, int> {
    if rs == [] then map[]
    else RecordMap(rs[..|rs| - 1])[rs[|rs| - 1].key := rs[|rs| - 1].size]
  }

  // ---------- rates and lifetimes ----------

  function EmptyRate(cap: nat, fill: nat): real
    requires cap > 0
  {
    1.0 - fill as real / cap as real
  }

  ghost function EmptyRates(c: Config, fill: seq<nat>): (r: seq<real>)
    requires c.Valid() && |fill| == c.zones
    ensures |r| == c.zones
  {
    seq(c.zones, z requires 0 <= z < c.zones && c.Valid() && |fill| == c.zones => EmptyRate(c.cap[z], fill[z]))
  }

  function Count(s: seq<BlockStatus>, lo: nat, hi: nat, x: BlockStatus): nat
    requires lo <= hi <= |s|
  {
    if lo == hi then 0 else Count(s, lo, hi - 1, x) + if s[hi - 1] == x then 1 else 0
  }

  function GarbageRate(s: seq<BlockStatus>, lo: nat, bpz: nat): real
    requires lo + bpz <= |s| && bpz > 0
  {
    Count(s, lo, lo + bpz, BlockInvalid) as real / bpz as real
  }

  /** Sum, number and squared deviation of the positive block lifetimes. */
  function LifeSum(life: seq<int>, lo: nat, hi: nat): int
    requires lo <= hi <= |life|
  {
    if lo == hi then 0 else LifeSum(life, lo, hi - 1) + if life[hi - 1] > 0 then life[hi - 1] else 0
  }

  function LifeCount(life: seq<int>, lo: nat, hi: nat): nat
    requires lo <= hi <= |life|
  {
    if lo == hi then 0 else LifeCount(life, lo, hi - 1) + if life[hi - 1] > 0 then 1 else 0
  }

  function Deviation(life: seq<int>, lo: nat, hi: nat, avg: real): real
    requires lo <= hi <= |life|
  {
    if lo == hi then 0.0
    else Deviation(life, lo, hi - 1, avg)
         + if life[hi - 1] > 0 then (life[hi - 1] as real - avg) * (life[hi - 1] as real - avg) else 0.0
  }

  /** `lifetimeVarience`; a zone without positive lifetimes has none, and then does not count as
      scattered. */
  function Variance(life: seq<int>, lo: nat, hi: nat): Option<real>
    requires lo <= hi <= |life|
  {
    var n := LifeCount(life, lo, hi);
    if n == 0 then None
    else Some(Deviation(life, lo, hi, LifeSum(life, lo, hi) as real / n as real) / n as real)
  }

  predicate Counted(status: BlockStatus, life: int) {
    life >= 0 && status == BlockValid
  }

  function ValidLifeSum(s: seq<BlockStatus>, life: seq<int>, lo: nat, hi: nat): int
    requires lo <= hi <= |s| == |life|
  {
    if lo == hi then 0
    else ValidLifeSum(s, life, lo, hi - 1) + if Counted(s[hi - 1], life[hi - 1]) then life[hi - 1] else 0
  }

  function ValidLifeCount(s: seq<BlockStatus>, life: seq<int>, lo: nat, hi: nat): nat
    requires lo <= hi <= |s| == |life|
  {
    if lo == hi then 0
    else ValidLifeCount(s, life, lo, hi - 1) + if Counted(s[hi - 1], life[hi - 1]) then 1 else 0
  }

  /** Mean lifetime of the VALID blocks of a zone. */
  function ZoneMean(s: seq<BlockStatus>, life: seq<int>, lo: nat, hi: nat): real
    requires lo <= hi <= |s| == |life|
  {
    var n := ValidLifeCount(s, life, lo, hi);
    if n == 0 then 0.0 else ValidLifeSum(s, life, lo, hi) as real / n as real
  }

  /** `get_page_lifetime`: the least lifetime among the keys. */
  function PageLifetime(keyLife: seq<int>, rs: seq<Record>): int {
    if rs == [] then RECENT_MODIFY
    else
      var rest := PageLifetime(keyLife, rs[..|rs| - 1]);
      var k := rs[|rs| - 1].key;
      if 0 <= k < |keyLife| && rest > keyLife[k] then keyLife[k] else rest
  }

  function Older(life: int): int {
    if life != RECENT_MODIFY then life + 1 else life
  }

  function Aged(keyLife: seq<int>): (r: seq<int>)
    ensures |r| == |keyLife|
  {
    seq(|keyLife|, k requires 0 <= k < |keyLife| => Older(keyLife[k]))
  }

  ghost function Indexed(keyIndex: seq<int>, rs: seq<Record>, b: int): (r: seq<int>)
    ensures |r| == |keyIndex|
  {
    seq(|keyIndex|, k requires 0 <= k < |keyIndex| => if k in RecordMap(rs) then b else keyIndex[k])
  }

  // ---------- writing one page ----------

  /** `write_block` and `refreshLifetime`: the page goes to the zone's write pointer. */
  ghost function Write(c: Config, st: Store, z: nat, rs: seq<Record>, life: int, add: bool): (r: Store)
    requires Shape(c, st) && z < c.zones && st.fill[z] < c.cap[z]
    ensures Shape(c, r)
  {
    var lo := First(c.bpz, z);
    var b := lo + st.fill[z];
    BlockInRange(c.bpz, c.zones, z, st.fill[z]);
    BlockInRange(c.bpz, c.zones, z, c.bpz - 1);
    var status := st.status[b := BlockValid];
    var blockLife := st.blockLife[b := life];
    st.(fill := st.fill[z := st.fill[z] + 1],
        pages := st.pages[b := rs],
        status := status,
        blockLife := blockLife,
        keyIndex := Indexed(st.keyIndex, rs, b),
        keyLife := if add then st.keyLife else Aged(st.keyLife),
        zoneLife := st.zoneLife[z := ZoneMean(status, blockLife, lo, lo + c.bpz)],
        clock := if add then st.clock else st.clock + 1)
  }

  /** A zone that may take a page: not queued for collection and not FULL. */
  ghost predicate Eligible(c: Config, st: Store, z: nat)
    requires Shape(c, st)
  {
    z < c.zones && !st.queued[z] && st.fill[z] < c.cap[z]
  }

  ghost function EligibleZones(c: Config, st: Store): (r: seq<bool>)
    requires Shape(c, st)
    ensures |r| == c.zones
  {
    seq(c.zones, z requires 0 <= z < c.zones && Shape(c, st) => Eligible(c, st, z))
  }

  /** Zones among the first `n` whose mean lifetime is not the initial one. */
  function Settled(zoneLife: seq<real>, n: nat): nat
    requires n <= |zoneLife|
  {
    if n == 0 then 0
    else Settled(zoneLife, n - 1) + if Distance(zoneLife[n - 1], RECENT_MODIFY as real) > 1.0 then 1 else 0
  }

  ghost predicate Sparse(c: Config, st: Store)
    requires Shape(c, st)
  {
    Settled(st.zoneLife, c.zones) as real < c.sz * c.zones as real
  }

  ghost function Distances(st: Store, life: int): (r: seq<real>)
    ensures |r| == |st.zoneLife|
  {
    seq(|st.zoneLife|, z requires 0 <= z < |st.zoneLife| => Distance(life as real, st.zoneLife[z]))
  }

  ghost function RefreshRates(c: Config, st: Store): (r: Store)
    requires Shape(c, st)
    ensures Shape(c, r)
  {
    st.(emptyRate := EmptyRates(c, st.fill))
  }

  /** The zone for a page. While few zones have a lifetime, the emptiest one (the empty rates are
      then fresh); afterwards the emptiest, by the last computed rates, of the `gl` nearest ones. */
  ghost function ChooseZone(c: Config, st: Store, life: int): (r: Option<nat>)
    requires Shape(c, st)
    ensures r.Some? ==> Eligible(c, st, r.value)
  {
    var ok := EligibleZones(c, st);
    FirstOkFinds(ok, c.zones);
    match FirstOk(ok, c.zones)
    case None => None
    case Some(first) =>
      if Sparse(c, st) then
        match ArgMax(EmptyRates(c, st.fill), ok, c.zones)
        case Some(z) => Some(z)
        case None => Some(first)
      else
        CandidatesOk(Distances(st, life), ok, c.gl, first);
        var s := Candidates(Distances(st, life), ok, c.gl, first);
        match ArgMax(st.emptyRate, s.can, c.zones)
        case Some(z) => Some(z)
        case None => Some(s.zone)
  }

  /** `myInsert` up to the garbage collection test. */
  ghost function Place(c: Config, st: Store, rs: seq<Record>, add: bool): (r: Option<Store>)
    requires Shape(c, st)
    ensures r.Some? ==> Shape(c, r.value)
  {
    var life := PageLifetime(st.keyLife, rs);
    match ChooseZone(c, st, life)
    case None => None
    case Some(z) => Some(Write(c, if Sparse(c, st) then RefreshRates(c, st) else st, z, rs, life, add))
  }

  // ---------- garbage collection ----------

  ghost function PlaceAll(c: Config, st: Store, pages: seq<seq<Record>>): (r: Option<Store>)
    requires Shape(c, st)
    ensures r.Some? ==> Shape(c, r.value)
    decreases |pages|
  {
    if pages == [] then Some(st)
    else
      match Place(c, st, pages[0], false)
      case None => None
      case Some(s) => PlaceAll(c, s, pages[1..])
  }

  /** The VALID pages of zone `z` from offset `j` on, in block order. The scan is meant to stop at
      the end of the zone, also when the zone has no VALID block. */
  ghost function ValidPages(c: Config, st: Store, z: nat, j: nat): seq<seq<Record>>
    requires Shape(c, st) && z < c.zones && j <= c.bpz
    decreases c.bpz - j
  {
    if j == c.bpz then []
    else
      BlockInRange(c.bpz, c.zones, z, j);
      var b := First(c.bpz, z) + j;
      (if st.status[b] == BlockValid then [st.pages[b]] else []) + ValidPages(c, st, z, j + 1)
  }

  ghost function ZoneRecords(c: Config, st: Store, z: nat): seq<Record>
    requires Shape(c, st) && z < c.zones
  {
    Flatten(ValidPages(c, st, z, 0))
  }

  /** The queue entry, the device zone and the zone's part of the maps are cleared. */
  ghost function Reset(c: Config, st: Store, z: nat): (r: Store)
    requires Shape(c, st) && z < c.zones
    ensures Shape(c, r)
  {
    var lo := First(c.bpz, z);
    st.(fill := st.fill[z := 0],
        queued := st.queued[z := false],
        zoneLife := st.zoneLife[z := 0.0],
        blockLife := seq(|st.blockLife|, b requires 0 <= b < |st.blockLife| =>
                           if lo <= b < lo + c.bpz then -1 else st.blockLife[b]),
        status := seq(|st.status|, b requires 0 <= b < |st.status| =>
                        if lo <= b < lo + c.bpz then BlockEmpty else st.status[b]))
  }

  ghost function CollectZone(c: Config, st: Store, z: nat): (r: Option<Store>)
    requires Shape(c, st) && z < c.zones
    ensures r.Some? ==> Shape(c, r.value)
  {
    match PlaceAll(c, st, Pack([], ZoneRecords(c, st, z)))
    case None => None
    case Some(s) => Some(Reset(c, s, z))
  }

  ghost function CollectFrom(c: Config, st: Store, i: nat): (r: Option<Store>)
    requires Shape(c, st) && i <= c.zones
    ensures r.Some? ==> Shape(c, r.value)
    decreases c.zones - i
  {
    if i == c.zones then Some(st)
    else if !st.queued[i] then CollectFrom(c, st, i + 1)
    else
      match CollectZone(c, st, i)
      case None => None
      case Some(s) => CollectFrom(c, s, i + 1)
  }

  /** `myGarbageCollection`. */
  ghost function Collect(c: Config, st: Store): (r: Option<Store>)
    requires Shape(c, st)
    ensures r.Some? ==> Shape(c, r.value)
  {
    CollectFrom(c, RefreshRates(c, st), 0)
  }

  function QueueLength(queued: seq<bool>, n: nat): nat
    requires n <= |queued|
  {
    if n == 0 then 0 else QueueLength(queued, n - 1) + if queued[n - 1] then 1 else 0
  }

  /** The test that puts a zone into the queue. */
  ghost predicate Wasteful(c: Config, st: Store, i: nat)
    requires Shape(c, st) && i < c.zones
  {
    var lo := First(c.bpz, i);
    FirstMonotone(c.bpz, i, c.zones);
    && !st.queued[i] && st.emptyRate[i] < c.se
    && (GarbageRate(st.status, lo, c.bpz) > c.sg
        || (match Variance(st.blockLife, lo, lo + c.bpz) case None => false case Some(v) => v > c.sl))
  }

  ghost function DetectFrom(c: Config, st: Store, i: nat): (r: Option<Store>)
    requires Shape(c, st) && i <= c.zones
    ensures r.Some? ==> Shape(c, r.value)
    decreases c.zones - i
  {
    if i == c.zones then Some(st)
    else if !Wasteful(c, st, i) then DetectFrom(c, st, i + 1)
    else
      var s := st.(queued := st.queued[i := true]);
      if QueueLength(s.queued, c.zones) >= c.gl then Collect(c, s) else DetectFrom(c, s, i + 1)
  }

  /** `myGcDetect`. */
  ghost function Detect(c: Config, st: Store): (r: Option<Store>)
    requires Shape(c, st)
    ensures r.Some? ==> Shape(c, r.value)
  {
    DetectFrom(c, RefreshRates(c, st), 0)
  }

  /** `myInsert` outside garbage collection. */
  ghost function Insert(c: Config, st: Store, rs: seq<Record>, add: bool): (r: Option<Store>)
    requires Shape(c, st)
    ensures r.Some? ==> Shape(c, r.value)
  {
    match Place(c, st, rs, add)
    case None => None
    case Some(s) => Detect(c, s)
  }

  /** `myInsert`; the flag says whether a collection is under way. */
  ghost function Put(c: Config, st: Store, rs: seq<Record>, add: bool, collecting: bool): (r: Option<Store>)
    requires Shape(c, st)
    ensures r.Some? ==> Shape(c, r.value)
  {
    if collecting then Place(c, st, rs, add) else Insert(c, st, rs, add)
  }

  ghost function InsertAll(c: Config, st: Store, pages: seq<seq<Record>>): (r: Option<Store>)
    requires Shape(c, st)
    ensures r.Some? ==> Shape(c, r.value)
    decreases |pages|
  {
    if pages == [] then Some(st)
    else
      match Insert(c, st, pages[0], false)
      case None => None
      case Some(s) => InsertAll(c, s, pages[1..])
  }

  // ---------- updates and deletes ----------

  /** The page of key `k` becomes INVALID, and a delete unlinks the key. */
  ghost function Dropped(c: Config, st: Store, k: nat, v: int): (r: Store)
    requires Shape(c, st) && k < c.maxKey && st.keyIndex[k] != NO_BLOCK
    ensures Shape(c, r)
  {
    var b := st.keyIndex[k];
    st.(status := st.status[b := BlockInvalid],
        blockLife := st.blockLife[b := -1],
        keyIndex := if v == 0 then st.keyIndex[k := NO_BLOCK] else st.keyIndex)
  }

  /** The age of key `k` starts again. */
  ghost function Renewed(c: Config, st: Store, k: nat): (r: Store)
    requires Shape(c, st) && k < c.maxKey
    ensures Shape(c, r)
  {
    st.(keyLife := st.keyLife[k := 0], stamp := st.stamp[k := st.clock])
  }

  ghost function Invalidate(c: Config, st: Store, k: nat, v: int): (r: Store)
    requires Shape(c, st) && k < c.maxKey && st.keyIndex[k] != NO_BLOCK
    ensures Shape(c, r)
  {
    Renewed(c, Dropped(c, st, k, v), k)
  }

  /** `myUpdate_Delete`: size 0 deletes. The records of the page that remain are repacked; if none
      remain no page is written. */
  ghost function Update(c: Config, st: Store, k: nat, v: int): (r: Option<Store>)
    requires Shape(c, st) && k < c.maxKey && st.keyIndex[k] != NO_BLOCK
    ensures r.Some? ==> Shape(c, r.value)
  {
    InsertAll(c, Invalidate(c, st, k, v), Pack([], Changed(st.pages[st.keyIndex[k]], k, v)))
  }
}
