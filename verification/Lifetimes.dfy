/** What the lifetimes mean in every state that a trace can reach, and how many pages an update
    writes. */
module Lifetimes {
  import opened Codec
  import opened Packing
  import opened Layout
  import opened StoreModel
  import opened StoreInvariant
  import opened Collection
  import opened StoreRun
  import opened Space

  /** `get_page_lifetime` is the least age of the keys, and at most 1000. */
  lemma {:induction false} PageLifetimeIsLeastAge(c: Config, st: Store, rs: seq<Record>)
    requires Shape(c, st) && AgesOk(c, st) && AllValid(rs) && KeysBelow(rs, c.maxKey)
    ensures var life := PageLifetime(st.keyLife, rs);
      && life <= RECENT_MODIFY
      && (forall i :: 0 <= i < |rs| ==> life <= Age(st.clock, st.stamp[rs[i].key]))
      && (life == RECENT_MODIFY || exists i :: 0 <= i < |rs| && life == Age(st.clock, st.stamp[rs[i].key]))
  {
    if rs != [] {
      var n := |rs| - 1;
      PageLifetimeIsLeastAge(c, st, rs[..n]);
      assert ValidRecord(rs[n]);
      var life := PageLifetime(st.keyLife, rs);
      forall i | 0 <= i < |rs| ensures life <= Age(st.clock, st.stamp[rs[i].key]) {
        if i < n { assert rs[i] == rs[..n][i]; }
      }
    }
  }

  // ---------- pages written ----------

  /** Pages that collecting the queued zones from `i` on writes: what each of them moves. */
  ghost function CollectWrites(c: Config, st: Store, i: nat): nat
    requires Shape(c, st) && i <= c.zones
    decreases c.zones - i
  {
    if i == c.zones then 0
    else (if st.queued[i] then PagesMoved(c, st, i) else 0) + CollectWrites(c, st, i + 1)
  }

  /** Pages written by the collection, if any, that detection in this state starts. */
  ghost function DetectWrites(c: Config, st: Store): nat
    requires Shape(c, st)
  {
    var s := Detected(c, st);
    if QueueLength(s.queued, c.zones) < c.gl then 0 else CollectWrites(c, s, 0)
  }

  /** Pages other than ADD pages that inserting a page writes: itself, and what the collection moves. */
  ghost function InsertWrites(c: Config, st: Store, rs: seq<Record>, add: bool): nat
    requires Shape(c, st)
  {
    (if add then 0 else 1) + match Place(c, st, rs, add) case None => 0 case Some(t) => DetectWrites(c, t)
  }

  ghost function InsertAllWrites(c: Config, st: Store, pages: seq<seq<Record>>): nat
    requires Shape(c, st)
    decreases |pages|
  {
    if pages == [] then 0
    else InsertWrites(c, st, pages[0], false)
         + match Insert(c, st, pages[0], false) case None => 0 case Some(s) => InsertAllWrites(c, s, pages[1..])
  }

  /** ... of the first part of a turn, the flush of the ADD buffer, */
  ghost function PrepareWrites(c: Config, s: System, op: Op): nat
    requires Shape(c, s.store)
  {
    if Flushes(s.buffer, op) && s.buffer != []
    then InsertWrites(c, Report(c, s.store, s.load + 1), s.buffer, true) else 0
  }

  /** ... and of the second, the operation itself. */
  ghost function PerformWrites(c: Config, s: System, op: Op): nat
    requires Shape(c, s.store)
  {
    var st, k, v := s.store, op.key, if op.Modify? then op.size else 0;
    if op.Add? || !(0 <= k < c.maxKey && st.keyIndex[k] != NO_BLOCK) then 0
    else InsertAllWrites(c, Invalidate(c, st, k, v), Pack([], Changed(st.pages[st.keyIndex[k]], k, v)))
  }

  predicate Changes(op: Op, k: nat) {
    !op.Add? && op.key == k
  }

  /** Pages other than ADD pages that a trace has written since it last updated or deleted key `k`, those
      of that operation included; None if there was no such operation. */
  ghost function WrittenSince(c: Config, trace: seq<Op>, k: nat): Option<nat>
    requires c.Valid()
  {
    if trace == [] then None
    else
      var n := |trace| - 1;
      match Run(c, trace[..n])
      case None => None
      case Some(s) =>
        match Prepare(c, s, trace[n])
        case None => None
        case Some(t) =>
          if Changes(trace[n], k) then Some(PerformWrites(c, t, trace[n]))
          else
            match WrittenSince(c, trace[..n], k)
            case None => None
            case Some(w) => Some(w + PrepareWrites(c, s, trace[n]) + PerformWrites(c, t, trace[n]))
  }

  // ---------- the clock counts them ----------

  /** The clock and the stamps after `n` more pages. */
  ghost predicate Ticked(st: Store, r: Store, n: nat) {
    r.clock == st.clock + n && r.stamp == st.stamp
  }

  lemma PlaceTicks(c: Config, st: Store, rs: seq<Record>, add: bool)
    requires Shape(c, st) && Place(c, st, rs, add).Some?
    ensures Ticked(st, Place(c, st, rs, add).value, if add then 0 else 1)
  {
  }

  lemma {:induction false} PlaceAllTicks(c: Config, st: Store, pages: seq<seq<Record>>)
    requires Shape(c, st) && PlaceAll(c, st, pages).Some?
    ensures Ticked(st, PlaceAll(c, st, pages).value, |pages|)
    decreases |pages|
  {
    if pages != [] {
      hide Place;
      PlaceTicks(c, st, pages[0], false);
      PlaceAllTicks(c, Place(c, st, pages[0], false).value, pages[1..]);
    }
  }

  lemma {:induction false} CollectWritesSame(c: Config, st: Store, r: Store, i: nat)
    requires Shape(c, st) && Shape(c, r) && i <= c.zones
    requires forall y :: i <= y < c.zones ==>
               r.queued[y] == st.queued[y] && (st.queued[y] ==> SameZone(c, st, r, y))
    ensures CollectWrites(c, st, i) == CollectWrites(c, r, i)
    decreases c.zones - i
  {
    if i < c.zones {
      if st.queued[i] {
        SameZonePages(c, st, r, i, 0);
      }
      CollectWritesSame(c, st, r, i + 1);
    }
  }

  lemma CollectZoneTicks(c: Config, st: Store, z: nat)
    requires Shape(c, st) && z < c.zones && CollectZone(c, st, z).Some?
    ensures Ticked(st, CollectZone(c, st, z).value, PagesMoved(c, st, z))
  {
    hide PlaceAll, Pack, ZoneRecords;
    PlaceAllTicks(c, st, Pack([], ZoneRecords(c, st, z)));
  }

  lemma CollectWritesStep(c: Config, st: Store, i: nat)
    requires Shape(c, st) && i < c.zones
    ensures CollectWrites(c, st, i)
         == (if st.queued[i] then PagesMoved(c, st, i) else 0) + CollectWrites(c, st, i + 1)
  {
  }

  lemma {:induction false} CollectFromTicks(c: Config, st: Store, i: nat)
    requires Shape(c, st) && i <= c.zones && CollectFrom(c, st, i).Some?
    ensures Ticked(st, CollectFrom(c, st, i).value, CollectWrites(c, st, i))
    decreases c.zones - i
  {
    hide CollectZone, PagesMoved, Free, SameZone;
    if i < c.zones {
      hide CollectFrom, CollectWrites;
      CollectStep(c, st, i);
      CollectWritesStep(c, st, i);
      if st.queued[i] {
        var s := CollectZone(c, st, i).value;
        CollectZoneTicks(c, st, i);
        CollectZoneSucceeds(c, st, i);
        CollectFromTicks(c, s, i + 1);
        CollectWritesSame(c, st, s, i + 1);
      } else {
        CollectFromTicks(c, st, i + 1);
      }
    }
  }

  lemma CollectTicks(c: Config, st: Store)
    requires Shape(c, st) && Collect(c, st).Some?
    ensures Ticked(st, Collect(c, st).value, CollectWrites(c, st, 0))
  {
    var r := RefreshRates(c, st);
    CollectFromTicks(c, r, 0);
    forall y | 0 <= y < c.zones ensures SameZone(c, st, r, y) {
    }
    CollectWritesSame(c, st, r, 0);
  }

  lemma InsertTicks(c: Config, st: Store, rs: seq<Record>, add: bool)
    requires Shape(c, st) && QueueLength(st.queued, c.zones) < c.gl && Insert(c, st, rs, add).Some?
    ensures Ticked(st, Insert(c, st, rs, add).value, InsertWrites(c, st, rs, add))
  {
    hide Place, Collect, Insert, InsertRoom, CollectWrites, QueueAfter, QueueLength;
    InsertSucceeds(c, st, rs, add);
    PlaceTicks(c, st, rs, add);
    var s := Detected(c, Place(c, st, rs, add).value);
    if QueueLength(s.queued, c.zones) >= c.gl {
      CollectTicks(c, s);
    }
  }

  lemma {:induction false} InsertAllTicks(c: Config, st: Store, pages: seq<seq<Record>>)
    requires Shape(c, st) && QueueLength(st.queued, c.zones) < c.gl && InsertAll(c, st, pages).Some?
    ensures Ticked(st, InsertAll(c, st, pages).value, InsertAllWrites(c, st, pages))
    decreases |pages|
  {
    if pages != [] {
      hide Insert, InsertWrites, QueueLength;
      InsertTicks(c, st, pages[0], false);
      InsertQueue(c, st, pages[0], false);
      InsertAllTicks(c, Insert(c, st, pages[0], false).value, pages[1..]);
    }
  }

  lemma PrepareTicks(c: Config, s: System, op: Op)
    requires Shape(c, s.store) && QueueLength(s.store.queued, c.zones) < c.gl && Prepare(c, s, op).Some?
    ensures Ticked(s.store, Prepare(c, s, op).value.store, PrepareWrites(c, s, op))
  {
    hide Insert, InsertWrites, Bytes;
    if Flushes(s.buffer, op) && s.buffer != [] {
      InsertTicks(c, Report(c, s.store, s.load + 1), s.buffer, true);
    }
  }

  lemma PerformTicks(c: Config, s: System, op: Op, k: nat)
    requires Shape(c, s.store) && QueueLength(s.store.queued, c.zones) < c.gl && Perform(c, s, op).Some? && k < c.maxKey
    ensures var st, r := s.store, Perform(c, s, op).value.store;
      && r.clock == st.clock + PerformWrites(c, s, op)
      && r.stamp[k] == if Changes(op, k) then st.clock else st.stamp[k]
  {
    hide InsertAll, InsertAllWrites, Pack, Changed;
    if !op.Add? {
      var st, v := s.store, if op.Modify? then op.size else 0;
      InsertAllTicks(c, Invalidate(c, st, op.key, v), Pack([], Changed(st.pages[st.keyIndex[op.key]], op.key, v)));
    }
  }

  lemma {:induction false} StampSince(c: Config, trace: seq<Op>, k: nat)
    requires c.Valid() && WellFormed(c.maxKey, trace) && Run(c, trace).Some? && k < c.maxKey
    ensures var st := Run(c, trace).value.store;
      match WrittenSince(c, trace, k)
      case None => st.stamp[k] == -1
      case Some(w) => 0 <= st.stamp[k] == st.clock - w
  {
    if trace != [] {
      hide Step, Prepare, Perform, PrepareWrites, PerformWrites, Replay, OpOk, Inv, BufferOk;
      var n := |trace| - 1;
      StampSince(c, trace[..n], k);
      RunRefines(c, trace[..n]);
      var s := Run(c, trace[..n]).value;
      StepParts(c, s, trace[n]);
      PrepareTicks(c, s, trace[n]);
      PrepareInv(c, s, trace[n]);
      PerformTicks(c, Prepare(c, s, trace[n]).value, trace[n], k);
    }
  }

  lemma StepParts(c: Config, s: System, op: Op)
    requires Shape(c, s.store) && Step(c, s, op).Some?
    ensures Prepare(c, s, op).Some? && Step(c, s, op) == Perform(c, Prepare(c, s, op).value, op)
  {
  }

  /** The aging loop refines a count: in every reachable state a key's lifetime is the number of pages
      that updates, deletes and collections have written since the key was last updated or deleted,
      capped at 1000, and 1000 if it never was. */
  lemma LifetimeIsAge(c: Config, trace: seq<Op>, k: nat)
    requires c.Valid() && WellFormed(c.maxKey, trace) && Run(c, trace).Some? && k < c.maxKey
    ensures Run(c, trace).value.store.keyLife[k]
         == match WrittenSince(c, trace, k)
            case None => 1000
            case Some(w) => if w > 1000 then 1000 else w
  {
    hide Run, WrittenSince;
    RunRefines(c, trace);
    StampSince(c, trace, k);
  }

  // ---------- how many pages an update writes ----------

  lemma ChangedIsSet(rs: seq<Record>, k: int, v: int)
    requires DistinctKeys(rs) && k in RecordMap(rs)
    ensures RecordMap(Changed(rs, k, v)) == Set(RecordMap(rs), k, v)
  {
    hide RecordMap, Changed, DistinctKeys;
    forall l: int {
      ChangedMap(rs, k, v, l);
    }
  }

  lemma PageWriteCount(c: Config, rs: seq<Record>, k: nat, v: int)
    requires PageOk(c, rs) && k in RecordMap(rs) && k < c.maxKey
    requires v == 0 || ValidRecord(Record(k, v))
    ensures var pages := Pack([], Changed(rs, k, v));
      && |pages| <= (if v == 0 then 1 else 3)
      && forall i :: 0 <= i < |pages| ==> pages[i] != [] && FitsPage(pages[i])
  {
    RecordMapHas(rs, k);
    var i :| 0 <= i < |rs| && rs[i].key == k;
    hide Pack, Changed, Flatten, RecordMap, Bytes, DistinctKeys;
    if v == 0 {
      DeleteWritesAtMostOne(rs, i);
    } else {
      UpdateWritesAtMostThree(rs, i, v);
    }
    UpdatePages(c, rs, k, v);
  }

  /** An update rewrites a page as at most three pages, a delete as at most one; no page exceeds
      4096 bytes, and together they hold the other records of the old page unchanged. */
  lemma UpdateWriteCount(c: Config, st: Store, k: nat, v: int)
    requires Ready(c, st, {}) && k < c.maxKey && st.keyIndex[k] != NO_BLOCK
    requires v == 0 || ValidRecord(Record(k, v))
    ensures var rs := st.pages[st.keyIndex[k]];
      var pages := Pack([], Changed(rs, k, v));
      && |pages| <= (if v == 0 then 1 else 3)
      && (forall i :: 0 <= i < |pages| ==> pages[i] != [] && Bytes(pages[i]) <= BLOCK_SIZE)
      && RecordMap(Flatten(pages)) == Set(RecordMap(rs), k, v)
  {
    hide Pack, Changed, Flatten, RecordMap, Bytes, PagesIndexed;
    var rs := st.pages[st.keyIndex[k]];
    assert Live(c, st, -1, st.keyIndex[k]) && BlockOk(c, st, st.keyIndex[k]);
    PageWriteCount(c, rs, k, v);
    ChangedIsSet(rs, k, v);
    UpdatePages(c, rs, k, v);
  }
}
