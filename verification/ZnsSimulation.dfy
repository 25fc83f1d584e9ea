/** The simulation itself: the arrays of `ZNS_Simulation`, updated in place by its methods. Each
    method is proved to take the abstract state `State()` where the store model takes it. */
module Simulation {
  import opened Codec
  import opened Packing
  import opened Layout
  import opened Placement
  import opened StoreModel
  import opened StoreInvariant
  import opened Collection
  import opened StoreRun
  import opened Space
  import opened LoopSteps
  import opened Device

  class ZnsSimulation {
    const c: Config
    const dev: ZonedDevice
    const blockStatus: array<BlockStatus>
    const blockLife: array<int>
    const keyIndex: array<int>
    const keyLife: array<int>
    const zoneLife: array<real>
    const emptyRate: array<real>
    const gcQueue: array<bool>
    var gcFlag: bool
    /** The records of the page last written to each block, and the update clock. */
    ghost var pages: seq<seq<Record>>
    ghost var clock: nat
    ghost var stamp: seq<int>

    ghost function Footprint(): set<object> {
      {this, dev, blockStatus, blockLife, keyIndex, keyLife, zoneLife, emptyRate, gcQueue}
    }

    ghost function State(): Store
      reads Footprint()
    {
      Store(dev.fill, pages, blockStatus[..], blockLife[..], keyIndex[..], keyLife[..],
            zoneLife[..], emptyRate[..], gcQueue[..], clock, stamp)
    }

    ghost predicate Separate() {
      && blockLife != keyIndex && blockLife != keyLife && keyIndex != keyLife && zoneLife != emptyRate
    }

    /** The device holds, for every VALID block, the page of the records it stands for. */
    ghost predicate MediaOk()
      requires Shape(c, State()) && |dev.media| == c.Blocks()
      reads Footprint()
    {
      forall b :: 0 <= b < c.Blocks() && blockStatus[b] == BlockValid ==>
        PageHolds(dev.media[b], pages[b]) && KeysBelow(pages[b], c.maxKey)
    }

    ghost predicate Valid()
      reads Footprint()
    {
      && dev.c == c && dev.Valid() && Separate() && Shape(c, State()) && MediaOk()
      && forall k :: 0 <= k < c.maxKey ==> 0 <= keyLife[k]
    }

    ghost predicate Allocated()
      reads dev
    {
      && c.Valid() && dev.c == c && dev.Valid() && Separate()
      && blockStatus.Length == blockLife.Length == c.Blocks() && keyIndex.Length == keyLife.Length == c.maxKey
      && zoneLife.Length == emptyRate.Length == gcQueue.Length == c.zones
    }

    constructor (c: Config)
      requires c.Valid()
      ensures Allocated() && fresh(Footprint()) && this.c == c && dev.fill == Initial(c).fill
    {
      this.c := c;
      dev := new ZonedDevice(c);
      blockStatus := new BlockStatus[c.Blocks()];
      blockLife := new int[c.Blocks()];
      keyIndex := new int[c.maxKey];
      keyLife := new int[c.maxKey];
      zoneLife := new real[c.zones];
      emptyRate := new real[c.zones];
      gcQueue := new bool[c.zones];
    }

    /** `initialize`, on a freshly reset device. */
    method Initialize()
      requires Allocated() && dev.fill == Initial(c).fill
      modifies Footprint() - {dev}
      ensures Valid() && State() == Initial(c) && !gcFlag
    {
      hide PageHolds;
      gcFlag := false;
      pages, clock, stamp := Initial(c).pages, 0, Initial(c).stamp;
      InitializeKeys();
      InitializeBlocks();
      InitializeZones();
      assert State() == Initial(c);
    }

    method InitializeKeys()
      requires Allocated()
      modifies keyLife, keyIndex
      ensures keyLife[..] == Initial(c).keyLife && keyIndex[..] == Initial(c).keyIndex
    {
      for i := 0 to c.maxKey
        invariant forall k :: 0 <= k < i ==> keyLife[k] == RECENT_MODIFY && keyIndex[k] == NO_BLOCK
      {
        keyLife[i] := RECENT_MODIFY;
        keyIndex[i] := NO_BLOCK;
      }
    }

    method InitializeBlocks()
      requires Allocated()
      modifies blockStatus, blockLife
      ensures blockStatus[..] == Initial(c).status && blockLife[..] == Initial(c).blockLife
    {
      for i := 0 to c.Blocks()
        invariant forall b :: 0 <= b < i ==> blockStatus[b] == BlockEmpty && blockLife[b] == -1
      {
        blockStatus[i] := BlockEmpty;
        blockLife[i] := -1;
      }
    }

    method InitializeZones()
      requires Allocated()
      modifies zoneLife, emptyRate, gcQueue
      ensures zoneLife[..] == Initial(c).zoneLife && emptyRate[..] == Initial(c).emptyRate
      ensures gcQueue[..] == Initial(c).queued
    {
      for i := 0 to c.zones
        invariant forall z :: 0 <= z < i ==>
                    zoneLife[z] == RECENT_MODIFY as real && emptyRate[z] == 1.0 && !gcQueue[z]
      {
        zoneLife[i] := RECENT_MODIFY as real;
        emptyRate[i] := 1.0;
        gcQueue[i] := false;
      }
    }

    // ---------- rates and lifetimes ----------

    method GetZoneEmptyRate()
      requires Valid()
      modifies emptyRate
      ensures Valid() && State() == RefreshRates(c, old(State()))
    {
      for i := 0 to c.zones
        invariant forall z :: 0 <= z < i ==> emptyRate[z] == EmptyRate(c.cap[z], dev.fill[z])
      {
        emptyRate[i] := dev.ZoneEmptyRate(i);
      }
      assert emptyRate[..] == EmptyRates(c, dev.fill);
    }

    method ZoneGarbageRate(z: nat) returns (r: real)
      requires Valid() && z < c.zones
      ensures First(c.bpz, z) + c.bpz <= c.Blocks()
      ensures r == GarbageRate(blockStatus[..], First(c.bpz, z), c.bpz)
    {
      FirstMonotone(c.bpz, z, c.zones);
      FirstIsProduct(c.bpz, z);
      var sum := 0;
      for j := 0 to c.bpz
        invariant sum == Count(blockStatus[..], First(c.bpz, z), First(c.bpz, z) + j, BlockInvalid)
      {
        if blockStatus[z * c.bpz + j] == BlockInvalid {
          sum := sum + 1;
        }
      }
      r := sum as real / c.bpz as real;
    }

    method LifetimeVariance(z: nat) returns (r: Option<real>)
      requires Valid() && z < c.zones
      ensures First(c.bpz, z) + c.bpz <= c.Blocks()
      ensures r == Variance(blockLife[..], First(c.bpz, z), First(c.bpz, z) + c.bpz)
    {
      FirstMonotone(c.bpz, z, c.zones);
      FirstIsProduct(c.bpz, z);
      ghost var lo := First(c.bpz, z);
      var sum, cnt := 0, 0;
      for j := 0 to c.bpz
        invariant sum == LifeSum(blockLife[..], lo, lo + j) && cnt == LifeCount(blockLife[..], lo, lo + j)
      {
        if blockLife[z * c.bpz + j] > 0 {
          sum := sum + blockLife[z * c.bpz + j];
          cnt := cnt + 1;
        }
      }
      if cnt == 0 {
        return None;
      }
      var avg := sum as real / cnt as real;
      var dev2 := 0.0;
      for j := 0 to c.bpz
        invariant dev2 == Deviation(blockLife[..], lo, lo + j, avg)
      {
        if blockLife[z * c.bpz + j] > 0 {
          var d := blockLife[z * c.bpz + j] as real - avg;
          dev2 := dev2 + d * d;
        }
      }
      r := Some(dev2 / cnt as real);
    }

    method GetPageLifetime(rs: seq<Record>) returns (life: int)
      requires Valid() && AllValid(rs) && KeysBelow(rs, c.maxKey)
      ensures life == PageLifetime(keyLife[..], rs) && life >= 0
    {
      life := RECENT_MODIFY;
      for i := 0 to |rs|
        invariant life == PageLifetime(keyLife[..], rs[..i]) && life >= 0
      {
        assert ValidRecord(rs[i]) && rs[..i + 1][..i] == rs[..i];
        if life > keyLife[rs[i].key] {
          life := keyLife[rs[i].key];
        }
      }
      assert rs[..|rs|] == rs;
    }

    // ---------- writing one page ----------

    /** `write_block`: returns the block the page went to, or None if the zone cannot take it. */
    method WriteBlock(page: array<Byte>, z: nat, ghost rs: seq<Record>) returns (block: Option<nat>)
      requires Valid() && z < c.zones && page.Length == BLOCK_SIZE
      requires PageHolds(page[..], rs) && KeysBelow(rs, c.maxKey)
      modifies dev, this`pages
      ensures block.Some? <==> old(dev.fill[z]) < c.cap[z]
      ensures block == None ==> Valid() && State() == old(State())
      ensures block.Some? ==>
                var st := old(State());
                && Valid() && block.value == First(c.bpz, z) + st.fill[z] && block.value < c.Blocks()
                && State() == st.(fill := st.fill[z := st.fill[z] + 1], pages := st.pages[block.value := rs])
                && PageHolds(dev.media[block.value], rs)
    {
      hide PageHolds, Remembers, KeysBelow;
      var cond := dev.Cond(z);
      if cond != CondEmpty && cond != CondImpOpen {
        return None;
      }
      var start, wp := dev.Start(z), dev.wp[z];
      dev.StartIs(z);
      if wp + BLOCK_SIZE > start + BLOCK_SIZE * c.cap[z] {
        return None;
      }
      dev.WritePointerAddress(z);
      FirstIsProduct(c.bpz, z);
      var b := z * c.bpz + (wp - start) / BLOCK_SIZE;
      var ret := dev.PWrite(page[..], wp, z);
      pages := pages[b := rs];
      block := Some(b);
    }

    method AgeKeys()
      requires Valid()
      modifies keyLife, this`clock
      ensures Valid()
      ensures State() == old(State()).(keyLife := Aged(old(keyLife[..])), clock := old(clock) + 1)
    {
      for j := 0 to c.maxKey
        invariant clock == old(clock)
        invariant forall k :: 0 <= k < j ==> keyLife[k] == Older(old(keyLife[k]))
        invariant forall k :: j <= k < c.maxKey ==> keyLife[k] == old(keyLife[k])
      {
        if keyLife[j] != RECENT_MODIFY {
          keyLife[j] := keyLife[j] + 1;
        }
      }
      clock := clock + 1;
      assert keyLife[..] == Aged(old(keyLife[..]));
    }

    method IndexKeys(rs: seq<Record>, b: nat)
      requires Valid() && AllValid(rs) && KeysBelow(rs, c.maxKey) && b < c.Blocks()
      modifies keyIndex
      ensures Valid() && State() == old(State()).(keyIndex := Indexed(old(keyIndex[..]), rs, b))
    {
      for i := 0 to |rs|
        invariant forall k :: 0 <= k < c.maxKey ==>
                    keyIndex[k] == if k in RecordMap(rs[..i]) then b else old(keyIndex[k])
      {
        assert ValidRecord(rs[i]) && rs[..i + 1] == rs[..i] + [rs[i]];
        RecordMapAppend(rs[..i], rs[i]);
        keyIndex[rs[i].key] := b;
      }
      assert rs[..|rs|] == rs;
      assert keyIndex[..] == Indexed(old(keyIndex[..]), rs, b);
    }

    /** The mean of the lifetimes of the VALID blocks of a zone that has one. */
    method RefreshZoneMean(z: nat, ghost b: nat)
      requires Valid() && z < c.zones && First(c.bpz, z) <= b < First(c.bpz, z) + c.bpz
      requires b < c.Blocks() && Counted(blockStatus[b], blockLife[b])
      modifies zoneLife
      ensures Valid() && First(c.bpz, z) + c.bpz <= c.Blocks()
      ensures State() == old(State()).(zoneLife := old(zoneLife[..])[z :=
                ZoneMean(blockStatus[..], blockLife[..], First(c.bpz, z), First(c.bpz, z) + c.bpz)])
    {
      FirstMonotone(c.bpz, z, c.zones);
      FirstIsProduct(c.bpz, z);
      ghost var lo := First(c.bpz, z);
      var sum, cnt := 0, 0;
      for i := 0 to c.bpz
        invariant sum == ValidLifeSum(blockStatus[..], blockLife[..], lo, lo + i)
        invariant cnt == ValidLifeCount(blockStatus[..], blockLife[..], lo, lo + i)
        invariant b < lo + i ==> cnt > 0
      {
        if blockLife[z * c.bpz + i] >= 0 && blockStatus[z * c.bpz + i] == BlockValid {
          sum := sum + blockLife[z * c.bpz + i];
          cnt := cnt + 1;
        }
      }
      zoneLife[z] := sum as real / cnt as real;
    }

    method MarkValid(b: nat, life: int)
      requires Valid() && b < c.Blocks() && PageHolds(dev.media[b], pages[b]) && KeysBelow(pages[b], c.maxKey)
      modifies blockStatus, blockLife
      ensures Valid()
      ensures State() == old(State()).(status := old(blockStatus[..])[b := BlockValid],
                                       blockLife := old(blockLife[..])[b := life])
    {
      blockStatus[b] := BlockValid;
      blockLife[b] := life;
    }

    /** `refreshLifetime`. */
    method RefreshLifetime(z: nat, rs: seq<Record>, b: nat, life: int, add: bool)
      requires Valid() && z < c.zones && AllValid(rs) && KeysBelow(rs, c.maxKey) && life >= 0
      requires First(c.bpz, z) <= b < First(c.bpz, z) + c.bpz && b < c.Blocks()
      requires PageHolds(dev.media[b], rs) && pages[b] == rs
      modifies Footprint() - {dev, gcQueue, emptyRate}
      ensures Valid() && gcFlag == old(gcFlag) && First(c.bpz, z) + c.bpz <= c.Blocks()
      ensures var st := old(State());
        var status, lives := st.status[b := BlockValid], st.blockLife[b := life];
        State() == st.(status := status, blockLife := lives, keyIndex := Indexed(st.keyIndex, rs, b),
                       keyLife := if add then st.keyLife else Aged(st.keyLife),
                       zoneLife := st.zoneLife[z := ZoneMean(status, lives, First(c.bpz, z), First(c.bpz, z) + c.bpz)],
                       clock := if add then st.clock else st.clock + 1)
    {
      hide PageHolds;
      MarkValid(b, life);
      assert State().status[b] == BlockValid && State().blockLife[b] == life;
      assert blockStatus[b] == BlockValid && blockLife[b] == life;
      if !add {
        AgeKeys();
      }
      IndexKeys(rs, b);
      RefreshZoneMean(z, b);
    }

    // ---------- choosing the zone ----------

    ghost predicate CondsOk(conds: array<ZoneCond>)
      requires Shape(c, State())
      reads Footprint(), conds
    {
      conds.Length == c.zones && forall z :: 0 <= z < c.zones ==> (conds[z] == CondFull <==> dev.fill[z] == c.cap[z])
    }

    method GetZoneConds() returns (conds: array<ZoneCond>)
      requires Valid()
      ensures fresh(conds) && CondsOk(conds)
    {
      conds := new ZoneCond[c.zones](z => CondEmpty);
      for i := 0 to c.zones
        invariant forall z :: 0 <= z < i ==> (conds[z] == CondFull <==> dev.fill[z] == c.cap[z])
      {
        conds[i] := dev.Cond(i);
      }
    }

    /** The eligibility test of the scans. */
    predicate Takes(conds: array<ZoneCond>, z: nat)
      requires z < conds.Length && z < gcQueue.Length
      reads conds, gcQueue
    {
      !gcQueue[z] && conds[z] != CondFull
    }

    lemma TakesIsEligible(conds: array<ZoneCond>)
      requires Valid() && CondsOk(conds)
      ensures forall z :: 0 <= z < c.zones ==> (Takes(conds, z) <==> EligibleZones(c, State())[z])
    {
    }

    method CountSettled() returns (szone: nat)
      requires Valid()
      ensures szone == Settled(zoneLife[..], c.zones)
    {
      szone := 0;
      for i := 0 to c.zones
        invariant szone == Settled(zoneLife[..], i)
      {
        if Distance(zoneLife[i], RECENT_MODIFY as real) > 1.0 {
          szone := szone + 1;
        }
      }
    }

    method FirstZone(conds: array<ZoneCond>) returns (zone: Option<nat>)
      requires Valid() && CondsOk(conds)
      ensures zone == FirstOk(EligibleZones(c, State()), c.zones)
    {
      TakesIsEligible(conds);
      zone := None;
      for i := 0 to c.zones
        invariant zone == FirstOk(EligibleZones(c, State()), i)
      {
        if zone == None && Takes(conds, i) {
          zone := Some(i);
        }
      }
    }

    method EmptiestZone(conds: array<ZoneCond>, first: nat) returns (zone: nat)
      requires Valid() && CondsOk(conds)
      ensures zone == match ArgMax(emptyRate[..], EligibleZones(c, State()), c.zones)
                      case Some(z) => z case None => first
    {
      TakesIsEligible(conds);
      ghost var ok := EligibleZones(c, State());
      zone := first;
      var maxRate := 0.0;
      for i := 0 to c.zones
        invariant match ArgMax(emptyRate[..], ok, i)
          case Some(z) => zone == z && maxRate == emptyRate[z]
          case None => zone == first && maxRate == 0.0
      {
        if maxRate < emptyRate[i] && Takes(conds, i) {
          zone := i;
          maxRate := emptyRate[i];
        }
      }
    }

    /** The eligible zone nearest in lifetime that is no candidate yet. */
    method NearestZone(life: int, conds: array<ZoneCond>, can: array<bool>, last: nat) returns (zone: nat)
      requires Valid() && CondsOk(conds) && can.Length == c.zones
      ensures zone == match ArgMin(Distances(State(), life), Without(EligibleZones(c, State()), can[..]), c.zones)
                      case Some(z) => z case None => last
    {
      TakesIsEligible(conds);
      ghost var dist := Distances(State(), life);
      ghost var left := Without(EligibleZones(c, State()), can[..]);
      zone := last;
      var delta := MAX_DELTA;
      for i := 0 to c.zones
        invariant match ArgMin(dist, left, i)
          case Some(z) => zone == z && delta == dist[z]
          case None => zone == last && delta == MAX_DELTA
      {
        if delta > Distance(life as real, zoneLife[i]) && !can[i] && Takes(conds, i) {
          zone := i;
          delta := Distance(life as real, zoneLife[i]);
        }
      }
    }

    /** One round of the nearest-lifetime scan, after `j` of them. */
    method NearestRound(life: int, conds: array<ZoneCond>, can: array<bool>, last: nat, ghost first: nat, ghost j: nat)
      returns (zone: nat)
      requires Valid() && CondsOk(conds) && can.Length == c.zones && last < c.zones && first < c.zones
      requires can !in Footprint()
      requires Scan(can[..], last) == Candidates(Distances(State(), life), EligibleZones(c, State()), j, first)
      modifies can
      ensures Valid() && State() == old(State()) && CondsOk(conds) && zone < c.zones
      ensures Scan(can[..], zone) == Candidates(Distances(State(), life), EligibleZones(c, State()), j + 1, first)
    {
      hide Candidates, PageHolds, EligibleZones, Distances;
      CandidatesStep(Distances(State(), life), EligibleZones(c, State()), j, first);
      zone := NearestZone(life, conds, can, last);
      can[zone] := true;
    }

    /** The candidates of `gl` rounds; `can_zone` starts out clear. */
    method NearestZones(life: int, conds: array<ZoneCond>, first: nat) returns (can: array<bool>, zone: nat)
      requires Valid() && CondsOk(conds) && first < c.zones
      ensures fresh(can) && can.Length == c.zones
      ensures Scan(can[..], zone) == Candidates(Distances(State(), life), EligibleZones(c, State()), c.gl, first)
    {
      hide Candidates, PageHolds, EligibleZones, Distances;
      can := new bool[c.zones](z => false);
      zone := first;
      NoCandidates(Distances(State(), life), EligibleZones(c, State()), first);
      assert can[..] == seq(c.zones, i => false);
      ghost var st := State();
      for j := 0 to c.gl
        invariant Valid() && State() == st && CondsOk(conds) && zone < c.zones && fresh(can)
        invariant Scan(can[..], zone) == Candidates(Distances(st, life), EligibleZones(c, st), j, first)
      {
        zone := NearestRound(life, conds, can, zone, first, j);
      }
    }

    method EmptiestCandidate(can: array<bool>, last: nat) returns (zone: nat)
      requires Valid() && can.Length == c.zones
      ensures zone == match ArgMax(emptyRate[..], can[..], c.zones) case Some(z) => z case None => last
    {
      zone := last;
      var maxRate := 0.0;
      for j := 0 to c.zones
        invariant match ArgMax(emptyRate[..], can[..], j)
          case Some(z) => zone == z && maxRate == emptyRate[z]
          case None => zone == last && maxRate == 0.0
      {
        if can[j] && emptyRate[j] > maxRate {
          maxRate := emptyRate[j];
          zone := j;
        }
      }
    }

    method SelectEmptiest(conds: array<ZoneCond>, first: nat) returns (zone: nat)
      requires Valid() && CondsOk(conds)
      modifies emptyRate
      ensures Valid() && State() == RefreshRates(c, old(State()))
      ensures zone == match ArgMax(EmptyRates(c, old(dev.fill)), EligibleZones(c, old(State())), c.zones)
                      case Some(z) => z case None => first
    {
      GetZoneEmptyRate();
      zone := EmptiestZone(conds, first);
      assert EligibleZones(c, State()) == EligibleZones(c, old(State()));
    }

    method SelectNearest(life: int, conds: array<ZoneCond>, first: nat) returns (zone: nat)
      requires Valid() && CondsOk(conds) && first < c.zones
      ensures var s := Candidates(Distances(State(), life), EligibleZones(c, State()), c.gl, first);
        zone == match ArgMax(emptyRate[..], s.can, c.zones) case Some(z) => z case None => s.zone
    {
      var can, last := NearestZones(life, conds, first);
      zone := EmptiestCandidate(can, last);
    }

    method Survey() returns (conds: array<ZoneCond>, first: Option<nat>, sparse: bool)
      requires Valid()
      ensures fresh(conds) && Valid() && CondsOk(conds) && State() == old(State())
      ensures first == FirstOk(EligibleZones(c, State()), c.zones) && sparse == Sparse(c, State())
      ensures first.Some? ==> first.value < c.zones
    {
      conds := GetZoneConds();
      var szone := CountSettled();
      sparse := szone as real < c.sz * c.zones as real;
      first := FirstZone(conds);
      FirstOkFinds(EligibleZones(c, State()), c.zones);
    }

    /** The zone for a page; None where the original would use an unset variable. */
    method SelectZone(life: int) returns (zone: Option<nat>)
      requires Valid()
      modifies emptyRate
      ensures Valid() && zone == ChooseZone(c, old(State()), life)
      ensures State() == if zone.Some? && Sparse(c, old(State())) then RefreshRates(c, old(State())) else old(State())
    {
      hide Candidates, ArgMax, FirstOk, RefreshRates, EmptyRates, EligibleZones, Distances, Sparse;
      ghost var st := State();
      var conds, first, sparse := Survey();
      if first == None {
        return None;
      }
      var z;
      if sparse {
        z := SelectEmptiest(conds, first.value);
      } else {
        z := SelectNearest(life, conds, first.value);
      }
      zone := Some(z);
    }

    // ---------- inserting and collecting ----------

    method WritePage(page: array<Byte>, z: nat, rs: seq<Record>, life: int, add: bool) returns (ok: bool)
      requires Valid() && z < c.zones && life >= 0
      requires page.Length == BLOCK_SIZE && PageHolds(page[..], rs) && KeysBelow(rs, c.maxKey)
      modifies Footprint() - {gcQueue, emptyRate}
      ensures gcFlag == old(gcFlag)
      ensures ok <==> old(dev.fill[z]) < c.cap[z]
      ensures ok ==> Valid() && State() == Write(c, old(State()), z, rs, life, add)
    {
      hide PageHolds, Indexed, Aged, ZoneMean, AllValid, MediaOk;
      RecordsOfPage(page[..], rs);
      var block := WriteBlock(page, z, rs);
      ok := block.Some?;
      if ok {
        RefreshLifetime(z, rs, block.value, life, add);
      }
    }

    /** `myInsert` up to the garbage collection test; false where its assertion would fail. */
    method PlacePage(page: array<Byte>, rs: seq<Record>, add: bool) returns (ok: bool)
      requires Valid() && page.Length == BLOCK_SIZE && PageHolds(page[..], rs) && KeysBelow(rs, c.maxKey)
      modifies Footprint()
      ensures gcFlag == old(gcFlag)
      ensures ok <==> Place(c, old(State()), rs, add).Some?
      ensures ok ==> Valid() && Some(State()) == Place(c, old(State()), rs, add)
    {
      hide PageHolds, ChooseZone, Sparse, PageLifetime, Write, AllValid, MediaOk;
      RecordsOfPage(page[..], rs);
      var life := GetPageLifetime(rs);
      var zone := SelectZone(life);
      if zone == None {
        return false;
      }
      ok := WritePage(page, zone.value, rs, life, add);
    }

    /** `myInsert`: outside a collection it also tests for one, inside it does not. */
    method MyInsert(page: array<Byte>, rs: seq<Record>, add: bool) returns (ok: bool)
      requires Valid() && page.Length == BLOCK_SIZE && PageHolds(page[..], rs) && KeysBelow(rs, c.maxKey)
      modifies Footprint()
      ensures ok <==> Put(c, old(State()), rs, add, old(gcFlag)).Some?
      ensures ok ==> Valid() && gcFlag == old(gcFlag)
                     && Some(State()) == Put(c, old(State()), rs, add, old(gcFlag))
      decreases if gcFlag then 0 else 1, 3
    {
      hide PageHolds, Place, Detect, MediaOk, Shape;
      ok := PlacePage(page, rs, add);
      if ok && !gcFlag {
        ok := MyGcDetect();
      }
    }

    /** `myGcDetect`. */
    method MyGcDetect() returns (ok: bool)
      requires Valid() && !gcFlag
      modifies Footprint()
      ensures ok <==> Detect(c, old(State())).Some?
      ensures ok ==> Valid() && !gcFlag && Some(State()) == Detect(c, old(State()))
      decreases 1, 2
    {
      hide PageHolds, MediaOk, Collect, Wasteful, DetectFrom, QueueLength, Shape;
      ghost var st := RefreshRates(c, State());
      GetZoneEmptyRate();
      for i := 0 to c.zones
        invariant Valid() && !gcFlag && DetectFrom(c, st, 0) == DetectFrom(c, State(), i)
      {
        DetectStep(c, State(), i);
        var wasteful := IsWasteful(i);
        if wasteful {
          SetQueued(i, true);
          var gczone := CountQueued();
          if gczone >= c.gl {
            ok := MyGarbageCollection();
            return;
          }
        }
      }
      DetectEnd(c, State());
      ok := true;
    }

    method IsWasteful(i: nat) returns (r: bool)
      requires Valid() && i < c.zones
      ensures r == Wasteful(c, State(), i)
    {
      if gcQueue[i] || emptyRate[i] >= c.se {
        return false;
      }
      var garbage := ZoneGarbageRate(i);
      var variance := LifetimeVariance(i);
      r := garbage > c.sg || (variance.Some? && variance.value > c.sl);
    }

    method SetQueued(i: nat, q: bool)
      requires Valid() && i < c.zones
      modifies gcQueue
      ensures Valid() && State() == old(State()).(queued := old(gcQueue[..])[i := q])
    {
      gcQueue[i] := q;
    }

    method CountQueued() returns (n: nat)
      requires Valid()
      ensures n == QueueLength(gcQueue[..], c.zones)
    {
      n := 0;
      for j := 0 to c.zones
        invariant n == QueueLength(gcQueue[..], j)
      {
        if gcQueue[j] {
          n := n + 1;
        }
      }
    }

    /** `myGarbageCollection`. */
    method MyGarbageCollection() returns (ok: bool)
      requires Valid() && !gcFlag
      modifies Footprint()
      ensures ok <==> Collect(c, old(State())).Some?
      ensures ok ==> Valid() && !gcFlag && Some(State()) == Collect(c, old(State()))
      decreases 1, 1
    {
      hide PageHolds, MediaOk, CollectZone, CollectFrom;
      ghost var st := RefreshRates(c, State());
      GetZoneEmptyRate();
      SetGcFlag(true);
      for i := 0 to c.zones
        invariant Valid() && gcFlag && CollectFrom(c, st, 0) == CollectFrom(c, State(), i)
      {
        CollectStep(c, State(), i);
        if gcQueue[i] {
          ok := CollectQueued(i);
          if !ok {
            return;
          }
        }
      }
      CollectEnd(c, State());
      SetGcFlag(false);
      ok := true;
    }

    method SetGcFlag(flag: bool)
      requires Valid()
      modifies this`gcFlag
      ensures Valid() && State() == old(State()) && gcFlag == flag
    {
      gcFlag := flag;
    }

    /** First offset from `from` on that holds a VALID block, or the number of blocks of a zone. */
    method NextValid(z: nat, from: nat) returns (j: nat)
      requires Valid() && z < c.zones && from <= c.bpz
      ensures from <= j <= c.bpz && (j < c.bpz ==> Live(c, State(), -1, First(c.bpz, z) + j))
      ensures ValidPages(c, State(), z, from) == ValidPages(c, State(), z, j)
    {
      hide ValidPages, PageHolds;
      FirstIsProduct(c.bpz, z);
      j := from;
      while j < c.bpz
        invariant from <= j <= c.bpz && ValidPages(c, State(), z, from) == ValidPages(c, State(), z, j)
      {
        ZoneBlock(c, z, j);
        if blockStatus[z * c.bpz + j] == BlockValid {
          break;
        }
        SkipBlock(c, State(), z, j);
        j := j + 1;
      }
    }

    /** Writes the records collected so far as one page. */
    method FlushBatch(batch: seq<Record>, add: bool) returns (ok: bool)
      requires Valid() && FitsPage(batch) && KeysBelow(batch, c.maxKey)
      modifies Footprint()
      ensures ok <==> Put(c, old(State()), batch, add, old(gcFlag)).Some?
      ensures ok ==> Valid() && gcFlag == old(gcFlag)
                     && Some(State()) == Put(c, old(State()), batch, add, old(gcFlag))
      decreases if gcFlag then 0 else 1, 4
    {
      hide PageHolds, MediaOk, Put;
      var page := Data2Page(batch);
      HoldsSize(page[..], batch);
      ok := MyInsert(page, batch, add);
    }

    /** Adds one record to the batch of the collector, written first if the record would not fit. */
    method MoveRecord(batch0: seq<Record>, cap0: int, r: Record, ghost st: Store, ghost tail: seq<Record>)
      returns (ok: bool, batch: seq<Record>, cap: int)
      requires Valid() && gcFlag && BatchOk(c, batch0, cap0) && ValidRecord(r) && r.key < c.maxKey
      requires Shape(c, st) && QueuedUntouched(c, st, State())
      modifies Footprint()
      ensures !ok ==> PlaceAll(c, old(State()), Pack(batch0, [r] + tail)) == None
      ensures ok ==>
                && Valid() && gcFlag && BatchOk(c, batch, cap) && QueuedUntouched(c, st, State())
                && PlaceAll(c, old(State()), Pack(batch0, [r] + tail)) == PlaceAll(c, State(), Pack(batch, tail))
      decreases 0, 5
    {
      hide PageHolds, MediaOk, PlaceAll, Pack, Place, BatchOk, QueuedUntouched, Bytes;
      batch, cap := batch0, cap0;
      PackPlaces(c, State(), batch, r, tail);
      BatchBytes(c, batch, cap);
      if cap + HEADER_SIZE + r.size > BLOCK_SIZE && r.size != 0 {
        ghost var before := State();
        ok := FlushBatch(batch, false);
        if !ok {
          return;
        }
        PlaceTakesOne(c, before, batch, false);
        UntouchedTrans(c, st, before, State());
        batch, cap := [], 0;
        BatchEmpty(c);
      }
      BatchExtends(c, batch, cap, r);
      batch := batch + [r];
      cap := cap + HEADER_SIZE + r.size;
      ok := true;
    }

    /** The parse loop of the collector over one page. The end test is meant to be made on a freshly
        read page too. */
    method MovePage(buf: Page, batch0: seq<Record>, cap0: int, ghost rs: seq<Record>, ghost rest: seq<Record>)
      returns (ok: bool, batch: seq<Record>, cap: int)
      requires Valid() && gcFlag && PageHolds(buf, rs) && KeysBelow(rs, c.maxKey) && BatchOk(c, batch0, cap0)
      modifies Footprint()
      ensures !ok ==> PlaceAll(c, old(State()), Pack(batch0, rs + rest)) == None
      ensures ok ==>
                && Valid() && gcFlag && BatchOk(c, batch, cap) && QueuedUntouched(c, old(State()), State())
                && PlaceAll(c, old(State()), Pack(batch0, rs + rest)) == PlaceAll(c, State(), Pack(batch, rest))
      decreases 0, 6
    {
      hide PageHolds, MediaOk, PlaceAll, Pack, Place, BatchOk, QueuedUntouched, Shape, Bytes;
      ghost var st, n := State(), 0;
      batch, cap := batch0, cap0;
      var addr := 0;
      ParseStep(buf, rs, 0);
      EmptyBytes();
      assert rs[..0] == [] && rs[0..] == rs;
      SelfUntouched(c, st);
      while !AtEnd(buf, addr)
        invariant 0 <= n <= |rs| && 0 <= addr && addr == Bytes(rs[..n])
        invariant Valid() && gcFlag && BatchOk(c, batch, cap) && QueuedUntouched(c, st, State())
        invariant PlaceAll(c, st, Pack(batch0, rs + rest)) == PlaceAll(c, State(), Pack(batch, rs[n..] + rest))
        decreases |rs| - n
      {
        ParseStep(buf, rs, n);
        ParseStep(buf, rs, n + 1);
        RecordsValid(buf, rs, n);
        var r := Record(IntAt(buf, addr + 4), IntAt(buf, addr + 8));
        addr := addr + HEADER_SIZE + r.size;
        assert rs[n..] + rest == [r] + (rs[n + 1..] + rest);
        ok, batch, cap := MoveRecord(batch, cap, r, st, rs[n + 1..] + rest);
        if !ok {
          return;
        }
        n := n + 1;
      }
      ParseStep(buf, rs, n);
      assert rs[n..] + rest == rest;
      ok := true;
    }

    method ReadBlock(z: nat, j: nat) returns (buf: Page, ghost rs: seq<Record>)
      requires Valid() && z < c.zones && j < c.bpz && Live(c, State(), -1, First(c.bpz, z) + j)
      ensures rs == State().pages[First(c.bpz, z) + j] && PageHolds(buf, rs) && KeysBelow(rs, c.maxKey)
    {
      FirstIsProduct(c.bpz, z);
      buf := dev.PRead((z * c.bpz + j) * BLOCK_SIZE);
      rs := pages[First(c.bpz, z) + j];
    }

    /** One VALID page of the zone, whose collection began in state `st`, up to the next one. */
    method MoveBlock(z: nat, j: nat, batch0: seq<Record>, cap0: int, ghost st: Store)
      returns (ok: bool, batch: seq<Record>, cap: int, next: nat)
      requires Valid() && gcFlag && BatchOk(c, batch0, cap0)
      requires Shape(c, st) && z < c.zones && st.queued[z] && QueuedUntouched(c, st, State())
      requires j < c.bpz && Live(c, State(), -1, First(c.bpz, z) + j)
      modifies Footprint()
      ensures !ok ==> PlaceAll(c, old(State()), Pack(batch0, Flatten(ValidPages(c, st, z, j)))) == None
      ensures ok ==>
                && Valid() && gcFlag && BatchOk(c, batch, cap) && QueuedUntouched(c, st, State())
                && j < next <= c.bpz && (next < c.bpz ==> Live(c, State(), -1, First(c.bpz, z) + next))
                && PlaceAll(c, old(State()), Pack(batch0, Flatten(ValidPages(c, st, z, j))))
                   == PlaceAll(c, State(), Pack(batch, Flatten(ValidPages(c, st, z, next))))
      decreases 0, 7
    {
      hide PageHolds, MediaOk, PlaceAll, Pack, Place, BatchOk, QueuedUntouched, Bytes, ValidPages, Flatten;
      TakeFromZone(c, st, State(), z, j);
      var buf, rs := ReadBlock(z, j);
      ghost var before := State();
      ok, batch, cap := MovePage(buf, batch0, cap0, rs, Flatten(ValidPages(c, st, z, j + 1)));
      next := j + 1;
      if ok {
        UntouchedTrans(c, st, before, State());
        UntouchedPages(c, st, State(), z, next);
        next := NextValid(z, next);
        UntouchedPages(c, st, State(), z, next);
      }
    }

    /** The scan of the collector over a queued zone: its VALID pages are read in order and their
        records repacked, across page boundaries, into pages of other zones. */
    method MoveZone(z: nat) returns (ok: bool)
      requires Valid() && gcFlag && z < c.zones && gcQueue[z]
      modifies Footprint()
      ensures ok <==> PlaceAll(c, old(State()), Pack([], ZoneRecords(c, old(State()), z))).Some?
      ensures ok ==> Valid() && gcFlag
                     && Some(State()) == PlaceAll(c, old(State()), Pack([], ZoneRecords(c, old(State()), z)))
      decreases 0, 8
    {
      hide PageHolds, MediaOk, PlaceAll, Pack, Place, BatchOk, QueuedUntouched, Bytes, ValidPages, Flatten;
      ghost var st := State();
      var batch: seq<Record>, cap := [], 0;
      BatchEmpty(c);
      SelfUntouched(c, st);
      var ofst := NextValid(z, 0);
      ghost var all := PlaceAll(c, st, Pack([], ZoneRecords(c, st, z)));
      while ofst < c.bpz
        invariant 0 <= ofst <= c.bpz && Valid() && gcFlag && BatchOk(c, batch, cap)
        invariant ofst < c.bpz ==> Live(c, State(), -1, First(c.bpz, z) + ofst)
        invariant QueuedUntouched(c, st, State())
        invariant all == PlaceAll(c, State(), Pack(batch, Flatten(ValidPages(c, st, z, ofst))))
      {
        ok, batch, cap, ofst := MoveBlock(z, ofst, batch, cap, st);
        if !ok {
          return;
        }
      }
      ok := FinishZone(batch, cap, st, z);
    }

    /** The records still in the batch after the last page of the zone. */
    method FinishZone(batch: seq<Record>, cap: int, ghost st: Store, ghost z: nat) returns (ok: bool)
      requires Valid() && gcFlag && Shape(c, st) && z < c.zones && BatchOk(c, batch, cap)
      modifies Footprint()
      ensures var todo := Pack(batch, Flatten(ValidPages(c, st, z, c.bpz)));
        && (ok <==> PlaceAll(c, old(State()), todo).Some?)
        && (ok ==> Valid() && gcFlag && Some(State()) == PlaceAll(c, old(State()), todo))
      decreases 0, 5
    {
      hide PageHolds, MediaOk, PlaceAll, Pack, Place, BatchOk, Bytes, ValidPages, Flatten;
      NothingLeft(c, st, State(), z, batch);
      ok := true;
      if batch != [] {
        BatchBytes(c, batch, cap);
        ok := FlushBatch(batch, false);
      }
    }

    method ClearZone(z: nat)
      requires Valid() && z < c.zones
      modifies blockLife, blockStatus
      ensures Valid()
      ensures var st, lo := old(State()), First(c.bpz, z);
        State() == st.(
          blockLife := seq(|st.blockLife|, b requires 0 <= b < |st.blockLife| =>
                             if lo <= b < lo + c.bpz then -1 else st.blockLife[b]),
          status := seq(|st.status|, b requires 0 <= b < |st.status| =>
                          if lo <= b < lo + c.bpz then BlockEmpty else st.status[b]))
    {
      FirstIsProduct(c.bpz, z);
      FirstMonotone(c.bpz, z, c.zones);
      ghost var st, lo := State(), First(c.bpz, z);
      for j := 0 to c.bpz
        invariant forall b :: 0 <= b < c.Blocks() ==>
                    && blockLife[b] == (if lo <= b < lo + j then -1 else st.blockLife[b])
                    && blockStatus[b] == (if lo <= b < lo + j then BlockEmpty else st.status[b])
      {
        blockLife[z * c.bpz + j] := -1;
        blockStatus[z * c.bpz + j] := BlockEmpty;
      }
      assert |State().blockLife| == |State().status| == c.Blocks();
    }

    /** The end of a zone's collection: queue entry, device zone and maps are cleared. */
    method ResetQueued(z: nat)
      requires Valid() && z < c.zones
      modifies gcQueue, dev, zoneLife, blockLife, blockStatus
      ensures Valid() && State() == Reset(c, old(State()), z)
    {
      hide PageHolds;
      SetQueued(z, false);
      ResetDevice(z);
      ClearZone(z);
    }

    method ResetDevice(z: nat)
      requires Valid() && z < c.zones
      modifies dev, zoneLife
      ensures Valid()
      ensures State() == old(State()).(fill := old(dev.fill)[z := 0], zoneLife := old(zoneLife[..])[z := 0.0])
    {
      dev.ResetZone(z);
      zoneLife[z] := 0.0;
    }

    method CollectQueued(z: nat) returns (ok: bool)
      requires Valid() && gcFlag && z < c.zones && gcQueue[z]
      modifies Footprint()
      ensures ok <==> CollectZone(c, old(State()), z).Some?
      ensures ok ==> Valid() && gcFlag && Some(State()) == CollectZone(c, old(State()), z)
      decreases 0, 9
    {
      hide PageHolds, MediaOk, PlaceAll, Pack, ZoneRecords, Reset, Shape;
      ok := MoveZone(z);
      if ok {
        ResetQueued(z);
      }
    }

    // ---------- updates and deletes ----------

    /** Adds one record to the batch of an update; `tail` are the records that follow. */
    method AddRecord(batch0: seq<Record>, cap0: int, r: Record, ghost tail: seq<Record>)
      returns (ok: bool, batch: seq<Record>, cap: int)
      requires Valid() && !gcFlag && BatchOk(c, batch0, cap0) && ValidRecord(r) && r.key < c.maxKey
      modifies Footprint()
      ensures !ok ==> InsertAll(c, old(State()), Pack(batch0, [r] + tail)) == None
      ensures ok ==>
                && Valid() && !gcFlag && BatchOk(c, batch, cap)
                && InsertAll(c, old(State()), Pack(batch0, [r] + tail)) == InsertAll(c, State(), Pack(batch, tail))
      ensures cap0 + RecordBytes(r) <= BLOCK_SIZE ==> ok && State() == old(State()) && batch == batch0 + [r]
    {
      hide PageHolds, MediaOk, InsertAll, Insert, Pack, BatchOk, Shape, Bytes;
      batch, cap := batch0, cap0;
      PackInserts(c, State(), batch, r, tail);
      BatchBytes(c, batch, cap);
      if cap + HEADER_SIZE + r.size > BLOCK_SIZE {
        ok := FlushBatch(batch, false);
        if !ok {
          return;
        }
        batch, cap := [], 0;
        BatchEmpty(c);
      }
      BatchExtends(c, batch, cap, r);
      batch := batch + [r];
      cap := cap + HEADER_SIZE + r.size;
      ok := true;
    }

    method InvalidateBlock(k: nat, v: int)
      requires Valid() && k < c.maxKey && keyIndex[k] != NO_BLOCK
      modifies blockStatus, blockLife, keyIndex
      ensures Valid()
      ensures State() == Dropped(c, old(State()), k, v)
    {
      var b := keyIndex[k];
      blockStatus[b] := BlockInvalid;
      blockLife[b] := -1;
      if v == 0 {
        keyIndex[k] := NO_BLOCK;
      }
    }

    method ResetAge(k: nat)
      requires Valid() && k < c.maxKey
      modifies keyLife, this`stamp
      ensures Valid()
      ensures State() == Renewed(c, old(State()), k)
    {
      keyLife[k] := 0;
      stamp := stamp[k := clock];
    }

    /** Where the parse loop of an update of key `k` is, after `n` of the records `rs`: up to the key
        nothing is written; from it on, what remains to be written continues from state `after`. */
    ghost predicate Rewriting(st: Store, after: Store, rs: seq<Record>, n: nat, flag: bool,
                              batch: seq<Record>, cap: int, k: int, v: int)
      requires n <= |rs| && Shape(c, after) && Shape(c, State())
      reads Footprint()
    {
      && BatchOk(c, batch, cap)
      && (!flag ==> State() == st && batch == rs[..n] && forall i :: 0 <= i < n ==> rs[i].key != k)
      && (flag ==>
            && (forall i :: n <= i < |rs| ==> rs[i].key != k)
            && InsertAll(c, after, Pack([], Changed(rs, k, v)))
               == InsertAll(c, State(), Pack(batch, Changed(rs[n..], k, v))))
    }

    /** One record of the page being updated, read as key and size. */
    method RewriteRecord(key: int, size0: int, flag0: bool, batch0: seq<Record>, cap0: int, k: nat, v: int,
                         ghost st: Store, ghost after: Store, ghost rs: seq<Record>, ghost n: nat)
      returns (ok: bool, flag: bool, batch: seq<Record>, cap: int)
      requires Valid() && !gcFlag && k < c.maxKey && (v == 0 || ValidRecord(Record(k, v)))
      requires FitsPage(rs) && KeysBelow(rs, c.maxKey) && DistinctKeys(rs) && n < |rs| && rs[n] == Record(key, size0)
      requires Shape(c, st) && after == Renewed(c, st, k)
      requires Rewriting(st, after, rs, n, flag0, batch0, cap0, k, v)
      modifies Footprint()
      ensures !ok ==> InsertAll(c, after, Pack([], Changed(rs, k, v))) == None
      ensures ok ==> Valid() && !gcFlag && flag == (flag0 || key == k)
                     && Rewriting(st, after, rs, n + 1, flag, batch, cap, k, v)
    {
      hide PageHolds, MediaOk, InsertAll, Pack, Changed, Bytes, RecordMap;
      var size := size0;
      flag, batch, cap := flag0, batch0, cap0;
      if key == k {
        size := v;
        ResetAge(k);
        flag := true;
        UpdatePrefix(rs, n, k, v);
      }
      ChangedStep(rs, n, k, v);
      ok := true;
      if size != 0 {
        BytesPrefix(rs, n);
        ok, batch, cap := AddRecord(batch, cap, Record(key, size), Changed(rs[n + 1..], k, v));
      }
    }

    /** The parse loop of an update of key `k`, whose page has just become INVALID. */
    method RewritePage(buf: Page, k: nat, v: int, ghost rs: seq<Record>) returns (ok: bool)
      requires Valid() && !gcFlag && k < c.maxKey && (v == 0 || ValidRecord(Record(k, v)))
      requires PageHolds(buf, rs) && KeysBelow(rs, c.maxKey) && DistinctKeys(rs) && k in RecordMap(rs)
      modifies Footprint()
      ensures var after := Renewed(c, old(State()), k);
        && (ok <==> InsertAll(c, after, Pack([], Changed(rs, k, v))).Some?)
        && (ok ==> Valid() && !gcFlag && Some(State()) == InsertAll(c, after, Pack([], Changed(rs, k, v))))
    {
      hide PageHolds, MediaOk, InsertAll, Insert, Pack, Changed, Bytes, RecordMap, Renewed, BatchOk;
      ghost var st := State();
      ghost var after := Renewed(c, st, k);
      var batch: seq<Record>, cap, addr, flag := [], 0, 0, false;
      ghost var n := 0;
      ParseStep(buf, rs, 0);
      EmptyBytes();
      HoldsSize(buf, rs);
      assert rs[..0] == [];
      BatchEmpty(c);
      while !AtEnd(buf, addr)
        invariant 0 <= n <= |rs| && 0 <= addr && addr == Bytes(rs[..n])
        invariant Valid() && !gcFlag && Rewriting(st, after, rs, n, flag, batch, cap, k, v)
        decreases |rs| - n
      {
        ParseStep(buf, rs, n);
        ParseStep(buf, rs, n + 1);
        var key, size := IntAt(buf, addr + 4), IntAt(buf, addr + 8);
        addr := addr + HEADER_SIZE + size;
        ok, flag, batch, cap := RewriteRecord(key, size, flag, batch, cap, k, v, st, after, rs, n);
        if !ok {
          return;
        }
        n := n + 1;
      }
      ParseStep(buf, rs, n);
      RecordMapHas(rs, k);
      assert flag;
      NoneChanged(rs, k, v);
      LastInsert(c, State(), batch);
      ok := true;
      if batch != [] {
        BatchBytes(c, batch, cap);
        ok := FlushBatch(batch, false);
      }
    }

    /** `myUpdate_Delete`: size 0 deletes; false where the original stops on a failed assertion. */
    method MyUpdateDelete(k: int, v: int) returns (ok: bool)
      requires Valid() && !gcFlag && Ready(c, State(), {})
      requires 0 <= k < c.maxKey && (v == 0 || ValidRecord(Record(k, v)))
      modifies Footprint()
      ensures ok <==> UpdateStored(c, old(State()), k, v).Some?
      ensures ok ==> Valid() && !gcFlag && Some(State()) == UpdateStored(c, old(State()), k, v)
    {
      hide MediaOk, InsertAll, Pack, Changed, RecordMap, Renewed, Dropped, BlocksOk, AgesOk, MeansOk;
      if keyIndex[k] == NO_BLOCK {
        return false;
      }
      ghost var rs := IndexedPage(c, State(), k);
      var buf := ReadPage(keyIndex[k]);
      InvalidateBlock(k, v);
      ok := RewritePage(buf, k, v, rs);
    }

    method ReadPage(b: int) returns (buf: Page)
      requires Valid() && Live(c, State(), -1, b)
      ensures PageHolds(buf, pages[b]) && KeysBelow(pages[b], c.maxKey)
    {
      buf := dev.PRead(b * BLOCK_SIZE);
    }

    // ---------- the trace ----------

    /** The part of a turn before the operation itself: the report and the flush of the ADD buffer. */
    method FlushBuffer(op: Op, buffer0: seq<Record>, cap0: int, load: nat)
      returns (ok: bool, buffer: seq<Record>, cap: int)
      requires Valid() && !gcFlag && SystemOk(c, System(State(), buffer0, load)) && cap0 == Bytes(buffer0)
      modifies Footprint()
      ensures ok <==> Prepare(c, System(old(State()), buffer0, load), op).Some?
      ensures ok ==> Valid() && !gcFlag && cap == Bytes(buffer)
                     && Some(System(State(), buffer, load + 1)) == Prepare(c, System(old(State()), buffer0, load), op)
    {
      hide PageHolds, MediaOk, Insert, RefreshRates, RecordMap, Contents, Ready, BufferOk, Report;
      ghost var s := System(State(), buffer0, load);
      PrintInfo(load + 1);
      buffer, cap := buffer0, cap0;
      ok := true;
      if !op.Add? || cap + HEADER_SIZE + op.size > BLOCK_SIZE {
        if buffer != [] {
          BufferFits(c, s);
          ok := FlushBatch(buffer, true);
        }
        buffer, cap := [], 0;
        EmptyBytes();
      }
    }

    /** One turn of the loop of `request_workload`. */
    method Request(op: Op, buffer0: seq<Record>, cap0: int, load0: nat)
      returns (ok: bool, buffer: seq<Record>, cap: int, load: nat)
      requires Valid() && !gcFlag && SystemOk(c, System(State(), buffer0, load0)) && cap0 == Bytes(buffer0)
      requires OpOk(c.maxKey, Stored(c, System(State(), buffer0, load0)), op)
      modifies Footprint()
      ensures ok <==> Step(c, System(old(State()), buffer0, load0), op).Some?
      ensures ok ==> Valid() && !gcFlag && cap == Bytes(buffer)
                     && Some(System(State(), buffer, load)) == Step(c, System(old(State()), buffer0, load0), op)
    {
      hide PageHolds, MediaOk, Update, Prepare, Stored, RecordMap, Contents, Ready, BufferOk, Bytes;
      ghost var s := System(State(), buffer0, load0);
      load := load0 + 1;
      ok, buffer, cap := FlushBuffer(op, buffer0, cap0, load0);
      if !ok {
        return;
      }
      if op.Add? {
        BytesAppend(buffer, Record(op.key, op.size));
        buffer := buffer + [Record(op.key, op.size)];
        cap := cap + HEADER_SIZE + op.size;
      } else {
        PrepareInv(c, s, op);
        SystemReady(c, Prepare(c, s, op).value);
        ok := MyUpdateDelete(op.key, if op.Modify? then op.size else 0);
      }
    }

    /** The effect of the progress report on the state. */
    method PrintInfo(load: nat)
      requires Valid()
      modifies emptyRate
      ensures Valid() && State() == Report(c, old(State()), load)
    {
      if load * 1000 % TRACE_LENGTH == 0 && load * 10 % TRACE_LENGTH == 0 {
        GetZoneEmptyRate();
      }
    }

    /** `request_workload` over a whole trace: the store ends up holding what the trace stands for. */
    method RequestWorkload(trace: seq<Op>) returns (ok: bool, buffer: seq<Record>, load: nat)
      requires Valid() && !gcFlag && State() == Initial(c) && WellFormed(c.maxKey, trace)
      modifies Footprint()
      ensures ok <==> Run(c, trace).Some?
      ensures ok ==> Valid() && !gcFlag && Run(c, trace) == Some(System(State(), buffer, load))
                     && Contents(c, State(), {}) + RecordMap(buffer) == Replay(trace)
    {
      hide PageHolds, MediaOk, Step, Stored, SystemOk, Run, WellFormed, Initial;
      var cap := 0;
      buffer, load := [], 0;
      EmptyBytes();
      RunEmpty(c);
      assert trace[..0] == [];
      for i := 0 to |trace|
        invariant Valid() && !gcFlag && cap == Bytes(buffer)
        invariant Run(c, trace[..i]) == Some(System(State(), buffer, load))
      {
        PrefixOk(c.maxKey, trace, i);
        RunRefines(c, trace[..i]);
        RunStep(c, trace, i);
        ok, buffer, cap, load := Request(trace[i], buffer, cap, load);
        if !ok {
          RunStops(c, trace, i + 1);
          return;
        }
      }
      assert trace[..|trace|] == trace;
      RunRefines(c, trace);
      StoredIs(c, System(State(), buffer, load));
      ok := true;
    }
  }
}
