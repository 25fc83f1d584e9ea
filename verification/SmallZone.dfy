/** A run that fails for lack of room although the free blocks cover the VALID blocks of the first queued
    zone: that zone is smaller than the next one. */
module SmallZone {
  import opened Codec
  import opened Packing
  import opened Layout
  import opened Placement
  import opened StoreModel
  import opened Collection
  import opened StoreRun
  import opened Space

  /** Zones of one and of three blocks; two queued zones start a collection. */
  function Small(): (c: Config)
    ensures c.Valid() && c.Blocks() == 6
  {
    assert First(3, 1) == 3 && First(3, 2) == 6;
    Config(2, 3, [1, 3], 2, 2, 0.3, 0.1, 2.0, 2800.0)
  }

  const A := Record(0, 2048)
  const B := Record(1, 2048)

  function Trace(): seq<Op> {
    [Add(0, 2048), Add(1, 2048), Modify(0, 2048), Modify(1, 2048)]
  }

  // ---------- one page ----------

  lemma {:induction false} SettledBound(zoneLife: seq<real>, n: nat)
    requires n <= |zoneLife|
    ensures Settled(zoneLife, n) <= n
  {
    if n > 0 {
      SettledBound(zoneLife, n - 1);
    }
  }

  /** The first of two empty zones, or the only one that takes a page. */
  ghost predicate Preferred(st: Store, z: nat)
    requires Shape(Small(), st)
  {
    && Eligible(Small(), st, z)
    && ((z == 0 && st.fill == [0, 0]) || forall y :: Eligible(Small(), st, y) ==> y == z)
  }

  /** With these thresholds the emptiest zone is always chosen. */
  lemma Chosen(st: Store, life: int, z: nat)
    requires Shape(Small(), st) && Preferred(st, z)
    ensures Sparse(Small(), st) && ChooseZone(Small(), st, life) == Some(z)
  {
    var c := Small();
    SettledBound(st.zoneLife, 2);
    assert EligibleZones(c, st)[z];
    FirstOkFinds(EligibleZones(c, st), 2);
    EmptiestChosen(c, st, life);
    var y := ChooseZone(c, st, life).value;
    assert EligibleZones(c, st)[y];
  }

  /** What a page written to zone `z` changes, as far as it matters here. */
  lemma Placed(st: Store, rs: seq<Record>, add: bool, z: nat)
    requires Shape(Small(), st) && Preferred(st, z)
    ensures Place(Small(), st, rs, add).Some?
    ensures var r, b := Place(Small(), st, rs, add).value, First(3, z) + st.fill[z];
      && b < 6 && r.fill == st.fill[z := st.fill[z] + 1] && r.queued == st.queued
      && r.pages == st.pages[b := rs] && r.status == st.status[b := BlockValid]
      && r.blockLife == st.blockLife[b := PageLifetime(st.keyLife, rs)]
      && r.keyIndex == Indexed(st.keyIndex, rs, b)
      && (add ==> r.keyLife == st.keyLife)
  {
    hide ChooseZone, Sparse, ZoneMean, PageLifetime, Indexed;
    Chosen(st, PageLifetime(st.keyLife, rs), z);
  }

  // ---------- detection ----------

  lemma RateBelow(cap: nat, fill: nat)
    requires fill <= cap && (cap == 1 || cap == 3)
    ensures EmptyRate(cap, fill) < 0.1 <==> fill == cap
  {
  }

  lemma GarbageAbove(s: seq<BlockStatus>, lo: nat)
    requires lo + 3 <= |s|
    ensures GarbageRate(s, lo, 3) > 0.3
            <==> s[lo] == BlockInvalid || s[lo + 1] == BlockInvalid || s[lo + 2] == BlockInvalid
  {
    assert Count(s, lo, lo + 1, BlockInvalid) == if s[lo] == BlockInvalid then 1 else 0;
    assert Count(s, lo, lo + 2, BlockInvalid)
        == Count(s, lo, lo + 1, BlockInvalid) + if s[lo + 1] == BlockInvalid then 1 else 0;
  }

  lemma NoVariance(life: seq<int>)
    requires |life| >= 3 && life[0] > 0 && life[1] <= 0 && life[2] <= 0
    ensures Variance(life, 0, 3) == Some(0.0)
  {
    var avg := life[0] as real;
    assert LifeCount(life, 0, 0) == LifeSum(life, 0, 0) == 0 && Deviation(life, 0, 0, avg) == 0.0;
    assert LifeCount(life, 0, 1) == LifeCount(life, 0, 2) == 1;
    assert LifeSum(life, 0, 1) == LifeSum(life, 0, 2) == life[0];
    assert Deviation(life, 0, 1, avg) == Deviation(life, 0, 2, avg) == 0.0;
  }

  /** Only a zone that is full and not queued can be wasteful, and one with garbage is then. */
  lemma WastefulIs(t: Store, z: nat)
    requires Shape(Small(), t) && z < 2
    ensures var s, lo := RefreshRates(Small(), t), 3 * z;
      && (Wasteful(Small(), s, z) ==> !t.queued[z] && t.fill[z] == Small().cap[z])
      && (!t.queued[z] && t.fill[z] == Small().cap[z]
          && (exists b :: lo <= b < lo + 3 && t.status[b] == BlockInvalid) ==>
            Wasteful(Small(), s, z))
      && (Wasteful(Small(), s, z) && (forall b :: lo <= b < lo + 3 ==> t.status[b] != BlockInvalid) ==>
            match Variance(t.blockLife, lo, lo + 3) case None => false case Some(v) => v > 2800.0)
  {
    assert First(3, 0) == 0 && First(3, 1) == 3;
    hide Variance, GarbageRate, EmptyRate, First;
    RateBelow(Small().cap[z], t.fill[z]);
    GarbageAbove(t.status, 3 * z);
  }

  // ---------- the run ----------

  ghost predicate At(st: Store, fill: seq<nat>, status: seq<BlockStatus>, pages: seq<seq<Record>>,
                     index: seq<int>, queued: seq<bool>)
  {
    && Shape(Small(), st) && st.fill == fill && st.status == status && st.pages == pages
    && st.keyIndex == index && st.queued == queued
  }

  const E := BlockEmpty
  const V := BlockValid
  const X := BlockInvalid

  lemma QueueLengths()
    ensures QueueLength([false, false], 2) == 0 && QueueLength([true, false], 2) == 1
    ensures QueueLength([true, true], 2) == 2
  {
    assert QueueLength([false, false], 1) == 0 && QueueLength([true, false], 1) == QueueLength([true, true], 1) == 1;
  }

  /** Without a wasteful zone detection changes the rates only. */
  lemma Quiet(t: Store)
    requires Shape(Small(), t) && t.queued == [false, false]
    requires forall z :: 0 <= z < 2 ==> !Wasteful(Small(), RefreshRates(Small(), t), z)
    ensures Detected(Small(), t).queued == t.queued
  {
    hide Wasteful;
  }

  lemma Inserted(st: Store, rs: seq<Record>, add: bool)
    requires Shape(Small(), st) && QueueLength(st.queued, 2) < 2 && Place(Small(), st, rs, add).Some?
    ensures var s := Detected(Small(), Place(Small(), st, rs, add).value);
      QueueLength(s.queued, 2) < 2 ==> Insert(Small(), st, rs, add) == Some(s)
  {
    hide Place, Detected, Insert, Room, Free, QueueLength;
    PlaceSucceeds(Small(), st, rs, add);
    InsertSucceeds(Small(), st, rs, add);
  }

  lemma PairOf(r: Record)
    ensures RecordMap([r]) == map[r.key := r.size] && Bytes([r]) == RecordBytes(r)
    ensures forall s: seq<int> :: PageLifetime(s, [r]) <= RECENT_MODIFY
  {
    RecordMapAppend([], r);
    BytesAppend([], r);
    assert [] + [r] == [r] && [r][..0] == [];
  }

  lemma Starts()
    ensures First(3, 0) == 0 && First(3, 1) == 3
  {
  }

  lemma FirstLife()
    ensures PageLifetime(Initial(Small()).keyLife, [A]) == 1000
  {
    assert [A][..0] == [];
  }

  /** Detection changes the rates and the queue only. */
  lemma DetectedState(t: Store)
    requires Shape(Small(), t)
    ensures var r := Detected(Small(), t);
      && r.fill == t.fill && r.pages == t.pages && r.status == t.status && r.keyIndex == t.keyIndex
      && r.blockLife == t.blockLife
  {
    hide Shape;
  }

  /** The first page goes to the small zone. */
  lemma FirstPage() returns (t: Store)
    ensures Insert(Small(), Initial(Small()), [A], true) == Some(t)
    ensures At(t, [1, 0], [V, E, E, E, E, E], [[A], [], [], [], [], []], [0, -1], [false, false])
    ensures t.blockLife[..3] == [1000, -1, -1]
  {
    hide Place, Wasteful, First, Variance, QueueLength, Insert, RecordMap, PageLifetime, Detected;
    var st := Initial(Small());
    QueueLengths();
    Starts();
    PairOf(A);
    FirstLife();
    Placed(st, [A], true, 0);
    var p := Place(Small(), st, [A], true).value;
    t := Detected(Small(), p);
    DetectedState(p);
    WastefulIs(p, 0);
    WastefulIs(p, 1);
    NoVariance(p.blockLife);
    assert p.status == [V, E, E, E, E, E];
    Quiet(p);
    Inserted(st, [A], true);
  }

  /** The second one goes to the other zone. */
  lemma SecondPage(st: Store) returns (t: Store)
    requires At(st, [1, 0], [V, E, E, E, E, E], [[A], [], [], [], [], []], [0, -1], [false, false])
    requires st.blockLife[..3] == [1000, -1, -1]
    ensures Insert(Small(), st, [B], true) == Some(t)
    ensures At(t, [1, 1], [V, E, E, V, E, E], [[A], [], [], [B], [], []], [0, 3], [false, false])
  {
    hide Place, Wasteful, First, Variance, QueueLength, Insert, RecordMap, PageLifetime, Detected;
    QueueLengths();
    Starts();
    PairOf(B);
    Placed(st, [B], true, 1);
    var p := Place(Small(), st, [B], true).value;
    t := Detected(Small(), p);
    DetectedState(p);
    WastefulIs(p, 0);
    WastefulIs(p, 1);
    assert p.blockLife[0] == st.blockLife[..3][0] && p.blockLife[1] == st.blockLife[..3][1]
        && p.blockLife[2] == st.blockLife[..3][2];
    NoVariance(p.blockLife);
    Quiet(p);
    Inserted(st, [B], true);
  }

  /** The one page that an update of a lone record writes. */
  lemma Rewritten(r: Record)
    requires r.size == 2048
    ensures Pack([], Changed([r], r.key, 2048)) == [[r]]
  {
    assert [r][1..] == [] && Changed([], r.key, 2048) == [] && Changed([r], r.key, 2048) == [r] + [];
    assert Pack([r], []) == [[r]] && [] + [r] == [r];
    PairOf(r);
    PackStep([], r, []);
  }

  /** The page of the first key moves to the other zone; the small zone, all garbage, is queued. */
  lemma FirstMoves(u: Store) returns (t: Store)
    requires At(u, [1, 1], [X, E, E, V, E, E], [[A], [], [], [B], [], []], [0, 3], [false, false])
    ensures Insert(Small(), u, [A], false) == Some(t)
    ensures At(t, [1, 2], [X, E, E, V, V, E], [[A], [], [], [B], [A], []], [4, 3], [true, false])
  {
    hide Place, Wasteful, First, Variance, QueueLength, Insert, RecordMap, PageLifetime, Detected;
    QueueLengths();
    Starts();
    PairOf(A);
    Placed(u, [A], false, 1);
    var p := Place(Small(), u, [A], false).value;
    t := Detected(Small(), p);
    DetectedState(p);
    WastefulIs(p, 0);
    WastefulIs(p, 1);
    assert p.status[0] == X;
    QueuesFirst(p);
    Inserted(u, [A], false);
  }

  lemma OneInsert(st: Store, page: seq<Record>)
    requires Shape(Small(), st)
    ensures InsertAll(Small(), st, [page]) == Insert(Small(), st, page, false)
  {
    hide Insert, Shape;
    assert [page][1..] == [];
  }

  lemma Dropping(st: Store, r: Record)
    requires Shape(Small(), st) && 0 <= r.key < 2 && st.keyIndex[r.key] != NO_BLOCK && r.size == 2048
    requires st.pages[st.keyIndex[r.key]] == [r]
    ensures var u := Invalidate(Small(), st, r.key, 2048);
      Update(Small(), st, r.key, 2048) == Insert(Small(), u, [r], false)
  {
    Rewritten(r);
    hide Insert, InsertAll, Pack, Changed, Invalidate;
    OneInsert(Invalidate(Small(), st, r.key, 2048), [r]);
  }

  lemma DroppedState(st: Store, k: nat)
    requires Shape(Small(), st) && k < 2 && st.keyIndex[k] != NO_BLOCK
    ensures var u := Invalidate(Small(), st, k, 2048);
      && u.fill == st.fill && u.pages == st.pages && u.keyIndex == st.keyIndex && u.queued == st.queued
      && u.status == st.status[st.keyIndex[k] := X]
  {
  }

  lemma FirstUpdate(st: Store) returns (t: Store)
    requires At(st, [1, 1], [V, E, E, V, E, E], [[A], [], [], [B], [], []], [0, 3], [false, false])
    ensures Update(Small(), st, 0, 2048) == Some(t)
    ensures At(t, [1, 2], [X, E, E, V, V, E], [[A], [], [], [B], [A], []], [4, 3], [true, false])
  {
    hide Insert, Update, Invalidate, Shape;
    Dropping(st, A);
    DroppedState(st, 0);
    var u := Invalidate(Small(), st, 0, 2048);
    assert u.status == [X, E, E, V, E, E];
    t := FirstMoves(u);
  }

  lemma QueuesFirst(t: Store)
    requires Shape(Small(), t) && t.queued == [false, false]
    requires Wasteful(Small(), RefreshRates(Small(), t), 0) && !Wasteful(Small(), RefreshRates(Small(), t), 1)
    ensures Detected(Small(), t).queued == [true, false]
  {
    hide Wasteful, QueueLength;
    var s := RefreshRates(Small(), t);
    QueueLengths();
    assert QueuedUpTo(Small(), s, 0) == [false, false];
  }

  lemma QueuesBoth(t: Store)
    requires Shape(Small(), t) && t.queued == [true, false] && Wasteful(Small(), RefreshRates(Small(), t), 1)
    ensures Detected(Small(), t).queued == [true, true]
  {
    hide Wasteful, QueueLength;
    var s := RefreshRates(Small(), t);
    QueueLengths();
    assert QueuedUpTo(Small(), s, 0) == [true, false] && QueuedUpTo(Small(), s, 1) == [true, false];
  }

  // ---------- the collection that fails ----------

  /** Two records of 2048 bytes do not fit into one page. */
  lemma TwoLargeRecords()
    ensures Flatten([[A], [B]]) == [A, B] && |Pack([], [A, B])| == 2
  {
    assert [[A], [B]] == [[A]] + ([[B]] + []) && [A, B] == [A] + ([B] + []);
    assert Flatten([]) == [] && Pack([B], []) == [[B]] && [] + [A] == [A];
    FlattenFirst([A], [[B]] + []);
    FlattenFirst([B], []);
    hide Pack, Flatten;
    PairOf(A);
    PackStep([], A, [B] + []);
    PackStep([A], B, []);
  }

  lemma PagesLeft(st: Store)
    requires At(st, [1, 3], [X, E, E, X, V, V], [[A], [], [], [B], [A], [B]], [4, 5], [true, true])
    ensures ValidPages(Small(), st, 0, 0) == [] && ValidPages(Small(), st, 1, 0) == [[A], [B]]
  {
    var c := Small();
    assert First(3, 0) == 0 && First(3, 1) == 3;
    assert ValidPages(c, st, 0, 3) == ValidPages(c, st, 1, 3) == [];
    hide First, ZoneOf, OffsetOf, Shape, ValidPages;
    SkipBlock(c, st, 0, 0);
    SkipBlock(c, st, 0, 1);
    SkipBlock(c, st, 0, 2);
    SkipBlock(c, st, 1, 0);
    TakeBlock(c, st, 1, 1);
    TakeBlock(c, st, 1, 2);
  }

  lemma Moves(st: Store)
    requires At(st, [1, 3], [X, E, E, X, V, V], [[A], [], [], [B], [A], [B]], [4, 5], [true, true])
    ensures PagesMoved(Small(), st, 0) == 0 && PagesMoved(Small(), st, 1) == 2
  {
    PagesLeft(st);
    TwoLargeRecords();
    assert Pack([], []) == [];
    hide Pack, ValidPages, Shape;
  }

  lemma NothingFree(st: Store)
    requires At(st, [1, 3], [X, E, E, X, V, V], [[A], [], [], [B], [A], [B]], [4, 5], [true, true])
    ensures Free(Small(), st) == 0 && InZoneCount(Small(), st, 0, V) == 0
  {
    assert First(3, 0) == 0;
    assert FreeBelow(Small(), st, 0) == FreeBelow(Small(), st, 1) == 0;
    assert Count(st.status, 0, 0, V) == Count(st.status, 0, 1, V) == Count(st.status, 0, 2, V) == 0;
  }

  lemma NoRoom(st: Store)
    requires At(st, [1, 3], [X, E, E, X, V, V], [[A], [], [], [B], [A], [B]], [4, 5], [true, true])
    ensures Free(Small(), st) == 0 && !Room(Small(), st, 0, 0)
  {
    Moves(st);
    NothingFree(st);
    hide Room, PagesMoved, Free;
    RoomStep(Small(), st, 0, 0);
    RoomStep(Small(), st, 1, 1);
  }

  /** The page of the second key fills the large zone, which has garbage too and is queued. */
  lemma SecondMoves(u: Store) returns (t: Store)
    requires At(u, [1, 2], [X, E, E, X, V, E], [[A], [], [], [B], [A], []], [4, 3], [true, false])
    ensures Place(Small(), u, [B], false).Some? && t == Detected(Small(), Place(Small(), u, [B], false).value)
    ensures At(t, [1, 3], [X, E, E, X, V, V], [[A], [], [], [B], [A], [B]], [4, 5], [true, true])
  {
    hide Place, Wasteful, First, Variance, QueueLength, RecordMap, PageLifetime, Detected;
    Starts();
    PairOf(B);
    Placed(u, [B], false, 1);
    var p := Place(Small(), u, [B], false).value;
    t := Detected(Small(), p);
    DetectedState(p);
    WastefulIs(p, 1);
    assert p.status[3] == X;
    QueuesBoth(p);
  }

  /** ... so that the collection starts, and fails. */
  lemma SecondUpdate(st: Store) returns (t: Store)
    requires At(st, [1, 2], [X, E, E, V, V, E], [[A], [], [], [B], [A], []], [4, 3], [true, false])
    ensures At(t, [1, 3], [X, E, E, X, V, V], [[A], [], [], [B], [A], [B]], [4, 5], [true, true])
    ensures Collect(Small(), t) == None && Update(Small(), st, 1, 2048) == None
    ensures var u := Invalidate(Small(), st, 1, 2048);
      Place(Small(), u, [B], false).Some? && t == Detected(Small(), Place(Small(), u, [B], false).value)
  {
    QueueLengths();
    Dropping(st, B);
    DroppedState(st, 1);
    hide Insert, Update, Invalidate, Place, QueueLength, Free, Room, Collect, Detected;
    var u := Invalidate(Small(), st, 1, 2048);
    assert u.status == [X, E, E, X, V, E];
    t := SecondMoves(u);
    NoRoom(t);
    CollectSucceeds(Small(), t);
    InsertSucceeds(Small(), u, [B], false);
  }

  // ---------- the trace ----------

  lemma Extends(trace: seq<Op>, op: Op, m: map<int, int>)
    requires WellFormed(2, trace) && Replay(trace) == m && OpOk(2, m, op)
    ensures WellFormed(2, trace + [op]) && Replay(trace + [op]) == Apply(m, op)
  {
    assert (trace + [op])[..|trace|] == trace;
  }

  lemma TraceOk()
    ensures WellFormed(2, Trace())
  {
    var t := Trace();
    assert WellFormed(2, []) && Replay([]) == map[];
    hide WellFormed, Replay;
    Extends([], t[0], map[]);
    assert [] + [t[0]] == [t[0]] && [t[0]] + [t[1]] == [t[0], t[1]] && [t[0], t[1]] + [t[2]] == [t[0], t[1], t[2]];
    Extends([t[0]], t[1], map[0 := 2048]);
    Extends([t[0], t[1]], t[2], map[0 := 2048, 1 := 2048]);
    Extends([t[0], t[1], t[2]], t[3], map[0 := 2048, 1 := 2048]);
    assert t == [t[0], t[1], t[2]] + [t[3]];
  }

  lemma RunPrefix(n: nat, s: System)
    requires n < 4 && Run(Small(), Trace()[..n]) == Some(s)
    ensures Run(Small(), Trace()[..n + 1]) == Step(Small(), s, Trace()[n])
  {
    assert Trace()[..n + 1][..n] == Trace()[..n];
  }

  lemma AddOnly(st: Store)
    requires Shape(Small(), st)
    ensures Step(Small(), System(st, [], 0), Add(0, 2048)) == Some(System(st, [A], 1))
  {
    assert Bytes([]) == 0 && [] + [A] == [A];
  }

  lemma AddFlushes(st: Store, t: Store)
    requires Shape(Small(), st) && Insert(Small(), st, [A], true) == Some(t)
    ensures Shape(Small(), t) && Step(Small(), System(st, [A], 1), Add(1, 2048)) == Some(System(t, [B], 2))
  {
    PairOf(A);
    hide Insert, Bytes;
    assert [] + [B] == [B];
  }

  lemma ModifyFlushes(st: Store, t: Store, u: Store)
    requires Shape(Small(), st) && Insert(Small(), st, [B], true) == Some(t)
    requires t.keyIndex[0] != NO_BLOCK && Update(Small(), t, 0, 2048) == Some(u)
    ensures Step(Small(), System(st, [B], 2), Modify(0, 2048)) == Some(System(u, [], 3))
  {
    hide Insert, Update, Bytes;
  }

  lemma ModifyFails(st: Store)
    requires Shape(Small(), st) && st.keyIndex[1] != NO_BLOCK && Update(Small(), st, 1, 2048) == None
    ensures Step(Small(), System(st, [], 3), Modify(1, 2048)) == None
  {
    hide Insert, Update, Bytes;
  }

  /** A collection needs more than room for its first zone: this well-formed trace fails in its last
      operation, in a collection that starts with a zone without VALID blocks, because resetting the small
      zone gives too little room for the larger one after it. */
  lemma RoomNeedsFallingCapacities() returns (s: System, st: Store)
    ensures WellFormed(2, Trace()) && Run(Small(), Trace()[..3]) == Some(s) && Run(Small(), Trace()) == None
    ensures At(s.store, [1, 2], [X, E, E, V, V, E], [[A], [], [], [B], [A], []], [4, 3], [true, false])
    ensures At(st, [1, 3], [X, E, E, X, V, V], [[A], [], [], [B], [A], [B]], [4, 5], [true, true])
    ensures var u := Invalidate(Small(), s.store, 1, 2048);
      Place(Small(), u, [B], false).Some? && st == Detected(Small(), Place(Small(), u, [B], false).value)
    ensures Collect(Small(), st) == None
    ensures InZoneCount(Small(), st, 0, BlockValid) <= Free(Small(), st) && !CapacitiesFall(Small(), st)
  {
    hide WellFormed, Step, Run, Collect, Insert, Update, Place, Detected, Invalidate, Free, InZoneCount;
    TraceOk();
    var c := Small();
    RunEmpty();
    var s0 := Initial(c);
    var t1 := FirstPage();
    AddOnly(s0);
    RunPrefix(0, System(s0, [], 0));
    AddFlushes(s0, t1);
    RunPrefix(1, System(s0, [A], 1));
    var t2 := SecondPage(t1);
    var t3 := FirstUpdate(t2);
    ModifyFlushes(t1, t2, t3);
    RunPrefix(2, System(t1, [B], 2));
    s := System(t3, [], 3);
    st := SecondUpdate(t3);
    ModifyFails(t3);
    RunPrefix(3, s);
    assert Trace()[..4] == Trace();
    NothingFree(st);
    assert st.queued[0] && st.queued[1] && c.cap[1] > c.cap[0];
  }

  lemma RunEmpty()
    ensures Run(Small(), Trace()[..0]) == Some(System(Initial(Small()), [], 0))
  {
    assert Trace()[..0] == [];
  }
}
