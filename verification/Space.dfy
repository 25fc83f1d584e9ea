/** Free space: when a page finds a zone, when a collection finds room for all it moves, and what it
    gives back. */
module Space {
  import opened Codec
  import opened Packing
  import opened Layout
  import opened Placement
  import opened StoreModel
  import opened StoreInvariant
  import opened Collection
  import opened StoreRun

  // ---------- placement ----------

  /** Free blocks of the zones below `n` that are not queued. */
  ghost function FreeBelow(c: Config, st: Store, n: nat): nat
    requires Shape(c, st) && n <= c.zones
  {
    if n == 0 then 0 else FreeBelow(c, st, n - 1) + if st.queued[n - 1] then 0 else c.cap[n - 1] - st.fill[n - 1]
  }

  ghost function Free(c: Config, st: Store): nat
    requires Shape(c, st)
  {
    FreeBelow(c, st, c.zones)
  }

  lemma {:induction false} FreeMeansEligible(c: Config, st: Store, n: nat)
    requires Shape(c, st) && n <= c.zones
    ensures FreeBelow(c, st, n) > 0 <==> exists z :: 0 <= z < n && Eligible(c, st, z)
  {
    if n > 0 {
      FreeMeansEligible(c, st, n - 1);
      assert Eligible(c, st, n - 1) <==> !st.queued[n - 1] && st.fill[n - 1] < c.cap[n - 1];
    }
  }

  /** Placing a page succeeds exactly when some zone is neither queued nor FULL. */
  lemma PlaceSucceeds(c: Config, st: Store, rs: seq<Record>, add: bool)
    requires Shape(c, st)
    ensures Place(c, st, rs, add).Some? <==> exists z :: 0 <= z < c.zones && Eligible(c, st, z)
    ensures Place(c, st, rs, add).Some? <==> Free(c, st) > 0
  {
    var ok := EligibleZones(c, st);
    FirstOkFinds(ok, c.zones);
    FreeMeansEligible(c, st, c.zones);
    if z :| 0 <= z < c.zones && Eligible(c, st, z) {
      assert ok[z];
    }
  }

  lemma EmptyRatePositive(cap: nat, fill: nat)
    requires fill < cap
    ensures EmptyRate(cap, fill) > 0.0
  {
    var q := fill as real / cap as real;
    assert q * cap as real == fill as real;
    assert (1.0 - q) * cap as real > 0.0;
  }

  lemma EmptiestChosen(c: Config, st: Store, life: int)
    requires Shape(c, st) && Sparse(c, st) && ChooseZone(c, st, life).Some?
    ensures var z := ChooseZone(c, st, life).value;
      var rates := EmptyRates(c, st.fill);
      forall i :: 0 <= i < c.zones && EligibleZones(c, st)[i] ==>
        rates[i] < rates[z] || (rates[i] == rates[z] && z <= i)
  {
    var ok := EligibleZones(c, st);
    var rates := EmptyRates(c, st.fill);
    FirstOkFinds(ok, c.zones);
    ArgMaxFinds(rates, ok, c.zones);
    var first := FirstOk(ok, c.zones).value;
    EmptyRatePositive(c.cap[first], st.fill[first]);
    assert rates[first] > 0.0;
  }

  // ---------- room for a collection ----------

  lemma {:induction false} FreeWrite(c: Config, st: Store, z: nat, rs: seq<Record>, life: int, add: bool, n: nat)
    requires Shape(c, st) && Eligible(c, st, z) && n <= c.zones
    ensures FreeBelow(c, Write(c, st, z, rs, life, add), n) == FreeBelow(c, st, n) - if z < n then 1 else 0
  {
    if n > 0 {
      FreeWrite(c, st, z, rs, life, add, n - 1);
    }
  }

  lemma {:induction false} FreeSame(c: Config, st: Store, r: Store, n: nat)
    requires Shape(c, st) && Shape(c, r) && n <= c.zones && r.fill == st.fill && r.queued == st.queued
    ensures FreeBelow(c, r, n) == FreeBelow(c, st, n)
  {
    if n > 0 {
      FreeSame(c, st, r, n - 1);
    }
  }

  lemma PlaceTakesOne(c: Config, st: Store, rs: seq<Record>, add: bool)
    requires Shape(c, st) && Place(c, st, rs, add).Some?
    ensures Free(c, Place(c, st, rs, add).value) == Free(c, st) - 1
    ensures QueuedUntouched(c, st, Place(c, st, rs, add).value)
  {
    var life := PageLifetime(st.keyLife, rs);
    var z := ChooseZone(c, st, life).value;
    var base := if Sparse(c, st) then RefreshRates(c, st) else st;
    FreeSame(c, st, base, c.zones);
    FreeWrite(c, base, z, rs, life, add, c.zones);
    WriteUntouched(c, base, z, rs, life, add);
    assert forall y :: 0 <= y < c.zones && st.queued[y] ==> SameZone(c, base, Write(c, base, z, rs, life, add), y);
  }

  /** Pages find room exactly when there are as many free blocks; queued zones stay as they are. */
  lemma {:induction false} PlaceAllSucceeds(c: Config, st: Store, pages: seq<seq<Record>>)
    requires Shape(c, st)
    ensures PlaceAll(c, st, pages).Some? <==> |pages| <= Free(c, st)
    ensures PlaceAll(c, st, pages).Some? ==>
              var r := PlaceAll(c, st, pages).value;
              Free(c, r) == Free(c, st) - |pages| && QueuedUntouched(c, st, r)
    decreases |pages|
  {
    if pages != [] {
      hide Place, Free, QueuedUntouched;
      PlaceSucceeds(c, st, pages[0], false);
      if Place(c, st, pages[0], false).Some? {
        var s := Place(c, st, pages[0], false).value;
        PlaceTakesOne(c, st, pages[0], false);
        PlaceAllSucceeds(c, s, pages[1..]);
        if PlaceAll(c, s, pages[1..]).Some? {
          UntouchedTrans(c, st, s, PlaceAll(c, s, pages[1..]).value);
        }
      }
    }
  }

  /** Pages that collecting a zone writes. */
  ghost function PagesMoved(c: Config, st: Store, z: nat): nat
    requires Shape(c, st) && z < c.zones
  {
    |Pack([], ZoneRecords(c, st, z))|
  }

  lemma {:induction false} FreeReset(c: Config, st: Store, z: nat, n: nat)
    requires Shape(c, st) && z < c.zones && st.queued[z] && n <= c.zones
    ensures FreeBelow(c, Reset(c, st, z), n) == FreeBelow(c, st, n) + if z < n then c.cap[z] else 0
  {
    if n > 0 {
      FreeReset(c, st, z, n - 1);
    }
  }

  lemma CollectZoneSucceeds(c: Config, st: Store, z: nat)
    requires Shape(c, st) && z < c.zones && st.queued[z]
    ensures CollectZone(c, st, z).Some? <==> PagesMoved(c, st, z) <= Free(c, st)
    ensures CollectZone(c, st, z).Some? ==>
              var r := CollectZone(c, st, z).value;
              && Free(c, r) == Free(c, st) - PagesMoved(c, st, z) + c.cap[z]
              && r.queued == st.queued[z := false]
              && forall y :: 0 <= y < c.zones && y != z && st.queued[y] ==> SameZone(c, st, r, y)
  {
    var pages := Pack([], ZoneRecords(c, st, z));
    PlaceAllSucceeds(c, st, pages);
    if PlaceAll(c, st, pages).Some? {
      var s := PlaceAll(c, st, pages).value;
      FreeReset(c, s, z, c.zones);
      ResetOthers(c, st, s, z);
    }
  }

  /** What the caller can check before a collection: from the free blocks, each queued zone in turn
      takes the pages it moves and gives back its whole capacity. */
  ghost predicate Room(c: Config, st: Store, i: nat, free: int)
    requires Shape(c, st) && i <= c.zones
    decreases c.zones - i
  {
    if i == c.zones then true
    else if !st.queued[i] then Room(c, st, i + 1, free)
    else PagesMoved(c, st, i) <= free && Room(c, st, i + 1, free - PagesMoved(c, st, i) + c.cap[i])
  }

  lemma {:induction false} RoomSame(c: Config, st: Store, r: Store, i: nat, free: int)
    requires Shape(c, st) && Shape(c, r) && i <= c.zones
    requires forall y :: i <= y < c.zones ==>
               r.queued[y] == st.queued[y] && (st.queued[y] ==> SameZone(c, st, r, y))
    ensures Room(c, st, i, free) == Room(c, r, i, free)
    decreases c.zones - i
  {
    if i < c.zones {
      if st.queued[i] {
        assert SameZone(c, st, r, i);
        SameZonePages(c, st, r, i, 0);
        RoomSame(c, st, r, i + 1, free - PagesMoved(c, st, i) + c.cap[i]);
      } else {
        RoomSame(c, st, r, i + 1, free);
      }
    }
  }

  lemma RoomStep(c: Config, st: Store, i: nat, free: int)
    requires Shape(c, st) && i < c.zones
    ensures !st.queued[i] ==> Room(c, st, i, free) == Room(c, st, i + 1, free)
    ensures st.queued[i] ==> (Room(c, st, i, free) <==>
              PagesMoved(c, st, i) <= free && Room(c, st, i + 1, free - PagesMoved(c, st, i) + c.cap[i]))
  {
  }

  lemma RoomAfterZone(c: Config, st: Store, i: nat)
    requires Shape(c, st) && i < c.zones && st.queued[i]
    ensures match CollectZone(c, st, i)
      case None => PagesMoved(c, st, i) > Free(c, st)
      case Some(s) =>
        && PagesMoved(c, st, i) <= Free(c, st)
        && Room(c, s, i + 1, Free(c, s))
           == Room(c, st, i + 1, Free(c, st) - PagesMoved(c, st, i) + c.cap[i])
  {
    hide PagesMoved, Free, CollectZone, SameZone, Room;
    CollectZoneSucceeds(c, st, i);
    if CollectZone(c, st, i).Some? {
      var s := CollectZone(c, st, i).value;
      RoomSame(c, st, s, i + 1, Free(c, s));
    }
  }

  lemma CollectStep(c: Config, st: Store, i: nat)
    requires Shape(c, st) && i < c.zones
    ensures !st.queued[i] ==> CollectFrom(c, st, i) == CollectFrom(c, st, i + 1)
    ensures st.queued[i] ==>
      CollectFrom(c, st, i) == (match CollectZone(c, st, i) case None => None case Some(s) => CollectFrom(c, s, i + 1))
  {
  }

  /** A collection succeeds if and only if there is room, zone by zone: what it moves is fixed
      beforehand, and each zone it resets pays for the next. */
  lemma {:induction false} CollectFromSucceeds(c: Config, st: Store, i: nat)
    requires Shape(c, st) && i <= c.zones
    ensures CollectFrom(c, st, i).Some? <==> Room(c, st, i, Free(c, st))
    decreases c.zones - i
  {
    hide PagesMoved, Free, CollectZone;
    if i < c.zones {
      hide Room, CollectFrom;
      RoomStep(c, st, i, Free(c, st));
      CollectStep(c, st, i);
      if !st.queued[i] {
        CollectFromSucceeds(c, st, i + 1);
      } else {
        RoomAfterZone(c, st, i);
        if CollectZone(c, st, i).Some? {
          CollectFromSucceeds(c, CollectZone(c, st, i).value, i + 1);
        }
      }
    }
  }

  lemma CollectSucceeds(c: Config, st: Store)
    requires Shape(c, st)
    ensures Collect(c, st).Some? <==> Room(c, st, 0, Free(c, st))
  {
    var r := RefreshRates(c, st);
    CollectFromSucceeds(c, r, 0);
    FreeSame(c, st, r, c.zones);
    forall y | 0 <= y < c.zones ensures SameZone(c, st, r, y) {
    }
    RoomSame(c, st, r, 0, Free(c, st));
  }

  // ---------- room for a page, an update, a trace ----------

  /** What a page written outside a collection needs: a free block in a zone that is not queued and, if
      the wasteful zones then fill the queue to `gl`, room for the collection. */
  ghost predicate InsertRoom(c: Config, st: Store, rs: seq<Record>, add: bool)
    requires Shape(c, st)
  {
    Free(c, st) > 0 &&
    match Place(c, st, rs, add)
    case None => false
    case Some(t) =>
      var s := Detected(c, t);
      QueueLength(s.queued, c.zones) < c.gl || Room(c, s, 0, Free(c, s))
  }

  lemma InsertSucceeds(c: Config, st: Store, rs: seq<Record>, add: bool)
    requires Shape(c, st) && QueueLength(st.queued, c.zones) < c.gl
    ensures Insert(c, st, rs, add).Some? <==> InsertRoom(c, st, rs, add)
    ensures Insert(c, st, rs, add).Some? ==>
              && Place(c, st, rs, add).Some?
              && var s := Detected(c, Place(c, st, rs, add).value);
                 && QueueLength(s.queued, c.zones) <= c.gl
                 && Insert(c, st, rs, add) == if QueueLength(s.queued, c.zones) < c.gl then Some(s) else Collect(c, s)
  {
    hide Place, Free, Room, Collect, DetectFrom, QueueLength, QueueAfter;
    PlaceSucceeds(c, st, rs, add);
    if Place(c, st, rs, add).Some? {
      var t := Place(c, st, rs, add).value;
      PlaceTakesOne(c, st, rs, add);
      DetectOutcome(c, RefreshRates(c, t));
      CollectSucceeds(c, Detected(c, t));
    }
  }

  /** A collection leaves no zone from `i` on queued. */
  lemma {:induction false} CollectFromQueue(c: Config, st: Store, i: nat)
    requires Shape(c, st) && i <= c.zones && CollectFrom(c, st, i).Some?
    ensures forall z :: 0 <= z < c.zones ==> CollectFrom(c, st, i).value.queued[z] == (z < i && st.queued[z])
    decreases c.zones - i
  {
    hide CollectZone, PagesMoved, Free, SameZone;
    if i < c.zones {
      hide CollectFrom;
      CollectStep(c, st, i);
      if st.queued[i] {
        CollectZoneSucceeds(c, st, i);
        CollectFromQueue(c, CollectZone(c, st, i).value, i + 1);
      } else {
        CollectFromQueue(c, st, i + 1);
      }
    }
  }

  lemma InsertQueue(c: Config, st: Store, rs: seq<Record>, add: bool)
    requires Shape(c, st) && QueueLength(st.queued, c.zones) < c.gl && Insert(c, st, rs, add).Some?
    ensures QueueLength(Insert(c, st, rs, add).value.queued, c.zones) < c.gl
  {
    hide Place, Insert, InsertRoom, CollectFrom, Detected;
    InsertSucceeds(c, st, rs, add);
    var s := Detected(c, Place(c, st, rs, add).value);
    if QueueLength(s.queued, c.zones) >= c.gl {
      CollectFromQueue(c, RefreshRates(c, s), 0);
      QueueEmpty(Insert(c, st, rs, add).value.queued, c.zones);
    }
  }

  /** The pages of an update find room one after the other. */
  ghost predicate PagesRoom(c: Config, st: Store, pages: seq<seq<Record>>)
    requires Shape(c, st)
    decreases |pages|
  {
    pages == [] ||
    (InsertRoom(c, st, pages[0], false) &&
     match Insert(c, st, pages[0], false) case None => false case Some(s) => PagesRoom(c, s, pages[1..]))
  }

  lemma {:induction false} InsertAllSucceeds(c: Config, st: Store, pages: seq<seq<Record>>)
    requires Shape(c, st) && QueueLength(st.queued, c.zones) < c.gl
    ensures InsertAll(c, st, pages).Some? <==> PagesRoom(c, st, pages)
    decreases |pages|
  {
    if pages != [] {
      hide Insert, InsertRoom, QueueLength;
      InsertSucceeds(c, st, pages[0], false);
      if Insert(c, st, pages[0], false).Some? {
        InsertQueue(c, st, pages[0], false);
        InsertAllSucceeds(c, Insert(c, st, pages[0], false).value, pages[1..]);
      }
    }
  }

  /** The key is stored, and what its page becomes has room. */
  ghost predicate KeyRoom(c: Config, st: Store, op: Op)
    requires Shape(c, st) && !op.Add?
  {
    var k, v := op.key, if op.Modify? then op.size else 0;
    && 0 <= k < c.maxKey && st.keyIndex[k] != NO_BLOCK
    && PagesRoom(c, Invalidate(c, st, k, v), Pack([], Changed(st.pages[st.keyIndex[k]], k, v)))
  }

  /** What one operation needs: room for the ADD buffer if it is flushed and, for an update or delete of
      a stored key, room for the rest of its page. */
  ghost predicate OpRoom(c: Config, s: System, op: Op)
    requires Shape(c, s.store)
  {
    && (Flushes(s.buffer, op) && s.buffer != [] ==> InsertRoom(c, Report(c, s.store, s.load + 1), s.buffer, true))
    && match Prepare(c, s, op) case None => false case Some(t) => op.Add? || KeyRoom(c, t.store, op)
  }

  lemma PrepareSucceeds(c: Config, s: System, op: Op)
    requires Shape(c, s.store) && QueueLength(s.store.queued, c.zones) < c.gl
    ensures Prepare(c, s, op).Some? <==>
            (Flushes(s.buffer, op) && s.buffer != [] ==> InsertRoom(c, Report(c, s.store, s.load + 1), s.buffer, true))
  {
    hide Insert, InsertRoom, QueueLength, Bytes, Shape;
    InsertSucceeds(c, Report(c, s.store, s.load + 1), s.buffer, true);
  }

  lemma PerformSucceeds(c: Config, s: System, op: Op)
    requires Shape(c, s.store) && QueueLength(s.store.queued, c.zones) < c.gl
    ensures Perform(c, s, op).Some? <==> op.Add? || KeyRoom(c, s.store, op)
  {
    hide InsertAll, PagesRoom, QueueLength, Pack, Changed;
    if !op.Add? {
      var st, k, v := s.store, op.key, if op.Modify? then op.size else 0;
      if 0 <= k < c.maxKey && st.keyIndex[k] != NO_BLOCK {
        InsertAllSucceeds(c, Invalidate(c, st, k, v), Pack([], Changed(st.pages[st.keyIndex[k]], k, v)));
      }
    }
  }

  lemma StepSucceeds(c: Config, s: System, op: Op)
    requires SystemOk(c, s)
    ensures Step(c, s, op).Some? <==> OpRoom(c, s, op)
  {
    hide Inv, BufferOk, Prepare, Perform, InsertRoom, KeyRoom, QueueLength, Flushes, Report;
    SystemShape(c, s);
    PrepareSucceeds(c, s, op);
    if Prepare(c, s, op).Some? {
      PrepareInv(c, s, op);
      SystemShape(c, Prepare(c, s, op).value);
      PerformSucceeds(c, Prepare(c, s, op).value, op);
    }
  }

  lemma SystemShape(c: Config, s: System)
    requires SystemOk(c, s)
    ensures Shape(c, s.store) && QueueLength(s.store.queued, c.zones) < c.gl
  {
  }

  lemma RunLast(c: Config, trace: seq<Op>)
    requires c.Valid() && trace != []
    ensures Run(c, trace)
         == match Run(c, trace[..|trace| - 1]) case None => None case Some(s) => Step(c, s, trace[|trace| - 1])
  {
  }

  /** Every operation of the trace has room in the state that the operations before it leave. */
  ghost predicate TraceRoom(c: Config, trace: seq<Op>)
    requires c.Valid()
  {
    trace == [] ||
    (TraceRoom(c, trace[..|trace| - 1]) &&
     match Run(c, trace[..|trace| - 1]) case None => false case Some(s) => OpRoom(c, s, trace[|trace| - 1]))
  }

  /** A trace runs to its end if and only if each of its operations has room. */
  lemma {:induction false} RunSucceeds(c: Config, trace: seq<Op>)
    requires c.Valid() && WellFormed(c.maxKey, trace)
    ensures Run(c, trace).Some? <==> TraceRoom(c, trace)
  {
    hide Step, OpRoom, SystemOk, Replay, OpOk;
    if trace != [] {
      hide Run;
      var m := |trace| - 1;
      RunSucceeds(c, trace[..m]);
      RunLast(c, trace);
      if Run(c, trace[..m]).Some? {
        RunRefines(c, trace[..m]);
        StepSucceeds(c, Run(c, trace[..m]).value, trace[m]);
      }
    }
  }

  // ---------- counting blocks ----------

  lemma {:induction false} CountUpdate(s: seq<BlockStatus>, lo: nat, hi: nat, i: nat, v: BlockStatus, x: BlockStatus)
    requires lo <= hi <= |s| && i < |s|
    ensures Count(s[i := v], lo, hi, x) == Count(s, lo, hi, x)
      + if lo <= i < hi then (if v == x then 1 else 0) - (if s[i] == x then 1 else 0) else 0
  {
    if lo < hi {
      CountUpdate(s, lo, hi - 1, i, v, x);
    }
  }

  lemma {:induction false} CountSplit(s: seq<BlockStatus>, lo: nat, mid: nat, hi: nat, x: BlockStatus)
    requires lo <= mid <= hi <= |s|
    ensures Count(s, lo, hi, x) == Count(s, lo, mid, x) + Count(s, mid, hi, x)
  {
    if mid < hi {
      CountSplit(s, lo, mid, hi - 1, x);
    }
  }

  lemma {:induction false} CountSame(s: seq<BlockStatus>, t: seq<BlockStatus>, lo: nat, hi: nat, x: BlockStatus)
    requires lo <= hi <= |s| && hi <= |t|
    requires forall b :: lo <= b < hi ==> s[b] == t[b]
    ensures Count(s, lo, hi, x) == Count(t, lo, hi, x)
  {
    if lo < hi {
      CountSame(s, t, lo, hi - 1, x);
    }
  }

  lemma {:induction false} CountAll(s: seq<BlockStatus>, lo: nat, hi: nat, x: BlockStatus)
    requires lo <= hi <= |s| && forall b :: lo <= b < hi ==> s[b] == x
    ensures Count(s, lo, hi, x) == hi - lo
  {
    if lo < hi {
      CountAll(s, lo, hi - 1, x);
    }
  }

  lemma {:induction false} CountPartition(s: seq<BlockStatus>, lo: nat, hi: nat)
    requires lo <= hi <= |s|
    ensures Count(s, lo, hi, BlockEmpty) + Count(s, lo, hi, BlockValid) + Count(s, lo, hi, BlockInvalid) == hi - lo
  {
    if lo < hi {
      CountPartition(s, lo, hi - 1);
    }
  }

  ghost function InZoneCount(c: Config, st: Store, z: nat, x: BlockStatus): nat
    requires Shape(c, st) && z < c.zones
  {
    FirstMonotone(c.bpz, z, c.zones);
    Count(st.status, First(c.bpz, z), First(c.bpz, z) + c.bpz, x)
  }

  lemma {:induction false} ValidPagesCount(c: Config, st: Store, z: nat, j: nat)
    requires Shape(c, st) && z < c.zones && j <= c.bpz
    ensures First(c.bpz, z) + c.bpz <= c.Blocks()
    ensures |ValidPages(c, st, z, j)| == Count(st.status, First(c.bpz, z) + j, First(c.bpz, z) + c.bpz, BlockValid)
    decreases c.bpz - j
  {
    FirstMonotone(c.bpz, z, c.zones);
    if j < c.bpz {
      var lo := First(c.bpz, z);
      ZoneBlock(c, z, j);
      ValidPagesCount(c, st, z, j + 1);
      CountSplit(st.status, lo + j, lo + j + 1, lo + c.bpz, BlockValid);
      assert Count(st.status, lo + j, lo + j, BlockValid) == 0;
    }
  }

  /** Repacking never writes more pages than the VALID ones it read. */
  lemma MovesAtMostValid(c: Config, st: Store, z: nat, flight: set<int>)
    requires Inv(c, st, -1, flight) && z < c.zones
    ensures PagesMoved(c, st, z) <= InZoneCount(c, st, z, BlockValid)
  {
    hide Pack, Flatten, Bytes, RecordMap, Count;
    ZoneRecordsOk(c, st, z, 0, flight);
    PackIsOptimal(ZoneRecords(c, st, z), ValidPages(c, st, z, 0));
    ValidPagesCount(c, st, z, 0);
  }

  /** The VALID blocks of a zone lie below its write pointer. */
  lemma ValidWithinCapacity(c: Config, st: Store, z: nat)
    requires Shape(c, st) && BlocksOk(c, st) && z < c.zones
    ensures InZoneCount(c, st, z, BlockValid) <= c.cap[z]
  {
    FirstMonotone(c.bpz, z, c.zones);
    var lo := First(c.bpz, z);
    var s := st.status;
    forall b | lo + st.fill[z] <= b < lo + c.bpz ensures s[b] == BlockEmpty {
      BlockParts(c.bpz, z, b - lo);
      assert BlockOk(c, st, b);
    }
    CountSplit(s, lo, lo + st.fill[z], lo + c.bpz, BlockValid);
    CountPartition(s, lo, lo + st.fill[z]);
    CountPartition(s, lo + st.fill[z], lo + c.bpz);
    CountAll(s, lo + st.fill[z], lo + c.bpz, BlockEmpty);
  }

  /** No queued zone is larger than a queued zone before it; so it is when all zones are equal. */
  ghost predicate CapacitiesFall(c: Config, st: Store)
    requires Shape(c, st)
  {
    forall y, z :: 0 <= y < z < c.zones && st.queued[y] && st.queued[z] ==> c.cap[z] <= c.cap[y]
  }

  lemma {:induction false} RoomWhenFree(c: Config, st: Store, i: nat, free: int, flight: set<int>)
    requires Inv(c, st, -1, flight) && i <= c.zones
    requires forall y :: i <= y < c.zones && st.queued[y] ==> c.cap[y] <= free
    requires CapacitiesFall(c, st)
    ensures Room(c, st, i, free)
    decreases c.zones - i
  {
    if i < c.zones {
      hide PagesMoved, BlocksOk, PointersOk, AgesOk, MeansOk, Room;
      RoomStep(c, st, i, free);
      if st.queued[i] {
        MovesAtMostValid(c, st, i, flight);
        BlocksShown(c, st, flight);
        ValidWithinCapacity(c, st, i);
        RoomWhenFree(c, st, i + 1, free - PagesMoved(c, st, i) + c.cap[i], flight);
      } else {
        RoomWhenFree(c, st, i + 1, free, flight);
      }
    }
  }

  lemma BlocksShown(c: Config, st: Store, flight: set<int>)
    requires Inv(c, st, -1, flight)
    ensures BlocksOk(c, st)
  {
  }

  /** Where capacities do not grow along the queue it is enough that the free blocks cover the VALID
      blocks of the lowest-numbered queued zone. */
  lemma {:induction false} RoomForFirst(c: Config, st: Store, i: nat, first: nat, free: int, flight: set<int>)
    requires Inv(c, st, -1, flight) && i <= first < c.zones && st.queued[first]
    requires forall y :: i <= y < first ==> !st.queued[y]
    requires InZoneCount(c, st, first, BlockValid) <= free
    requires CapacitiesFall(c, st)
    ensures Room(c, st, i, free)
    decreases first - i
  {
    if i < first {
      RoomForFirst(c, st, i + 1, first, free, flight);
    } else {
      MovesAtMostValid(c, st, first, flight);
      RoomWhenFree(c, st, first + 1, free - PagesMoved(c, st, first) + c.cap[first], flight);
    }
  }

  lemma CollectHasRoom(c: Config, st: Store, first: nat, flight: set<int>)
    requires Inv(c, st, -1, flight) && first < c.zones && st.queued[first]
    requires forall y :: 0 <= y < first ==> !st.queued[y]
    requires CapacitiesFall(c, st)
    requires InZoneCount(c, st, first, BlockValid) <= Free(c, st)
    ensures Collect(c, st).Some?
  {
    RoomForFirst(c, st, 0, first, Free(c, st), flight);
    CollectSucceeds(c, st);
  }

  // ---------- what a collection gives back ----------

  ghost function Empties(c: Config, st: Store): nat
    requires Shape(c, st)
  {
    Count(st.status, 0, c.Blocks(), BlockEmpty)
  }

  lemma PlaceEmpties(c: Config, st: Store, rs: seq<Record>, add: bool, drain: int, flight: set<int>)
    requires Inv(c, st, drain, flight) && Place(c, st, rs, add).Some?
    ensures Empties(c, Place(c, st, rs, add).value) == Empties(c, st) - 1
  {
    var life := PageLifetime(st.keyLife, rs);
    var z := ChooseZone(c, st, life).value;
    FreshBlock(c, st, z);
    CountUpdate(st.status, 0, c.Blocks(), First(c.bpz, z) + st.fill[z], BlockValid, BlockEmpty);
  }

  lemma {:induction false} PlaceAllEmpties(c: Config, st: Store, pages: seq<seq<Record>>, drain: int,
                                           flight: set<int>)
    requires Inv(c, st, drain, flight) && Draining(c, st, drain)
    requires PagesOk(c, pages) && RecordMap(Flatten(pages)).Keys <= flight
    requires PlaceAll(c, st, pages).Some?
    ensures Empties(c, PlaceAll(c, st, pages).value) == Empties(c, st) - |pages|
    decreases |pages|
  {
    hide BlocksOk, PointersOk, AgesOk, MeansOk, Contents, PagesOk, Place, RecordMap, Empties;
    if pages != [] {
      PagesOkStep(c, pages);
      PlaceInv(c, st, pages[0], false, drain, flight);
      PlaceEmpties(c, st, pages[0], false, drain, flight);
      var first := RecordMap(pages[0]);
      assert RecordMap(Flatten(pages[1..])).Keys <= flight - first.Keys;
      PlaceAllEmpties(c, Place(c, st, pages[0], false).value, pages[1..], drain, flight - first.Keys);
    }
  }

  lemma ResetEmpties(c: Config, st: Store, z: nat)
    requires Shape(c, st) && z < c.zones
    ensures Empties(c, Reset(c, st, z))
         == Empties(c, st) + InZoneCount(c, st, z, BlockValid) + InZoneCount(c, st, z, BlockInvalid)
  {
    FirstMonotone(c.bpz, z, c.zones);
    var s, t := st.status, Reset(c, st, z).status;
    var lo, hi, n := First(c.bpz, z), First(c.bpz, z) + c.bpz, c.Blocks();
    CountSplit(s, 0, lo, n, BlockEmpty);
    CountSplit(s, lo, hi, n, BlockEmpty);
    CountSplit(t, 0, lo, n, BlockEmpty);
    CountSplit(t, lo, hi, n, BlockEmpty);
    CountSame(s, t, 0, lo, BlockEmpty);
    CountSame(s, t, hi, n, BlockEmpty);
    CountAll(t, lo, hi, BlockEmpty);
    CountPartition(s, lo, hi);
  }

  lemma SameZoneCount(c: Config, st: Store, r: Store, z: nat, x: BlockStatus)
    requires Shape(c, st) && Shape(c, r) && z < c.zones && SameZone(c, st, r, z)
    ensures InZoneCount(c, r, z, x) == InZoneCount(c, st, z, x)
  {
    FirstMonotone(c.bpz, z, c.zones);
    CountSame(st.status, r.status, First(c.bpz, z), First(c.bpz, z) + c.bpz, x);
  }

  /** Collecting a zone frees exactly its garbage and the VALID pages that repacking saved. */
  lemma CollectZoneReclaims(c: Config, st: Store, z: nat, flight: set<int>)
    requires Inv(c, st, -1, flight) && z < c.zones && st.queued[z] && CollectZone(c, st, z).Some?
    ensures Empties(c, CollectZone(c, st, z).value)
         == Empties(c, st) + InZoneCount(c, st, z, BlockInvalid)
            + InZoneCount(c, st, z, BlockValid) - PagesMoved(c, st, z)
  {
    hide BlocksOk, PagesIndexed, IndexLive, AgesOk, MeansOk, Contents, RecordMap, PagesOk, Flatten, PlaceAll;
    hide Empties, InZoneCount, Pack, ValidPages, Reset;
    var m := ZonePairs(c, st, z, 0);
    var rs := ZoneRecords(c, st, z);
    var pages := Pack([], rs);
    BeginDrain(c, st, z, flight);
    ZoneRecordsOk(c, st, z, 0, flight);
    RecordsToPages(c, rs);
    PlaceAllInv(c, st, pages, z, flight + m.Keys);
    PlaceAllEmpties(c, st, pages, z, flight + m.Keys);
    var s := PlaceAll(c, st, pages).value;
    assert SameZone(c, st, s, z);
    SameZoneCount(c, st, s, z, BlockValid);
    SameZoneCount(c, st, s, z, BlockInvalid);
    ResetEmpties(c, s, z);
  }

  /** INVALID blocks of the queued zones from zone `i` on. */
  ghost function Garbage(c: Config, st: Store, i: nat): nat
    requires Shape(c, st) && i <= c.zones
    decreases c.zones - i
  {
    if i == c.zones then 0
    else Garbage(c, st, i + 1) + if st.queued[i] then InZoneCount(c, st, i, BlockInvalid) else 0
  }

  lemma {:induction false} GarbageSame(c: Config, st: Store, r: Store, i: nat)
    requires Shape(c, st) && Shape(c, r) && i <= c.zones
    requires forall y :: i <= y < c.zones ==>
               r.queued[y] == st.queued[y] && (st.queued[y] ==> SameZone(c, st, r, y))
    ensures Garbage(c, st, i) == Garbage(c, r, i)
    decreases c.zones - i
  {
    if i < c.zones {
      GarbageSame(c, st, r, i + 1);
      if st.queued[i] {
        SameZoneCount(c, st, r, i, BlockInvalid);
      }
    }
  }

  /** A collection reclaims at least all the garbage of the queued zones. */
  lemma {:induction false} CollectFromReclaims(c: Config, st: Store, i: nat, flight: set<int>)
    requires Inv(c, st, -1, flight) && i <= c.zones && CollectFrom(c, st, i).Some?
    ensures Empties(c, CollectFrom(c, st, i).value) >= Empties(c, st) + Garbage(c, st, i)
    decreases c.zones - i
  {
    hide BlocksOk, PointersOk, AgesOk, MeansOk, Contents, CollectZone, Empties, InZoneCount, PagesMoved, SameZone;
    if i < c.zones {
      hide CollectFrom;
      CollectStep(c, st, i);
      if st.queued[i] {
        var s := CollectZone(c, st, i).value;
        CollectZoneInv(c, st, i, flight);
        CollectZoneReclaims(c, st, i, flight);
        MovesAtMostValid(c, st, i, flight);
        CollectFromReclaims(c, s, i + 1, flight);
        GarbageSame(c, st, s, i + 1);
      } else {
        CollectFromReclaims(c, st, i + 1, flight);
      }
    }
  }

  lemma CollectReclaims(c: Config, st: Store, flight: set<int>)
    requires Inv(c, st, -1, flight) && Collect(c, st).Some?
    ensures Empties(c, Collect(c, st).value) >= Empties(c, st) + Garbage(c, st, 0)
  {
    var r := RefreshRates(c, st);
    RatesInv(c, st, -1, flight);
    CollectFromReclaims(c, r, 0, flight);
    forall y | 0 <= y < c.zones ensures SameZone(c, st, r, y) {
    }
    GarbageSame(c, st, r, 0);
  }
}
