/** Inserts, updates and whole traces: over every run the store equals the map that replaying the
    trace gives, including when garbage collection runs in the middle of an update. */
module StoreRun {
  import opened Codec
  import opened Packing
  import opened Layout
  import opened StoreModel
  import opened StoreInvariant
  import opened Collection

  // ---------- the collection queue ----------

  lemma {:induction false} QueueLengthSet(q: seq<bool>, i: nat, n: nat)
    requires i < |q| && n <= |q| && !q[i]
    ensures QueueLength(q[i := true], n) == QueueLength(q, n) + if i < n then 1 else 0
  {
    if n > 0 {
      QueueLengthSet(q, i, n - 1);
    }
  }

  lemma {:induction false} QueueEmpty(q: seq<bool>, n: nat)
    requires n <= |q| && forall i :: 0 <= i < |q| ==> !q[i]
    ensures QueueLength(q, n) == 0
  {
    if n > 0 {
      QueueEmpty(q, n - 1);
    }
  }

  /** The queue with the wasteful zones below `m` added. */
  ghost function QueuedUpTo(c: Config, st: Store, m: nat): (q: seq<bool>)
    requires Shape(c, st) && m <= c.zones
    ensures |q| == c.zones
  {
    seq(c.zones, z requires 0 <= z < c.zones && Shape(c, st) && m <= c.zones =>
          st.queued[z] || (z < m && Wasteful(c, st, z)))
  }

  /** The least index from `m` on, below which the wasteful zones fill the queue to `gl`; or all zones. */
  ghost function StopAt(c: Config, st: Store, m: nat): (r: nat)
    requires Shape(c, st) && m <= c.zones
    ensures m <= r <= c.zones && (r < c.zones ==> QueueLength(QueuedUpTo(c, st, r), c.zones) >= c.gl)
    ensures forall n :: m <= n < r ==> QueueLength(QueuedUpTo(c, st, n), c.zones) < c.gl
    decreases c.zones - m
  {
    if m == c.zones || QueueLength(QueuedUpTo(c, st, m), c.zones) >= c.gl then m else StopAt(c, st, m + 1)
  }

  /** The queue after detection: the wasteful zones join it, lowest first, until `gl` are queued. */
  ghost function QueueAfter(c: Config, st: Store): (q: seq<bool>)
    requires Shape(c, st)
    ensures |q| == c.zones
  {
    QueuedUpTo(c, st, StopAt(c, st, 0))
  }

  lemma QueuedStep(c: Config, st: Store, i: nat)
    requires Shape(c, st) && i < c.zones
    ensures QueuedUpTo(c, st, 0) == st.queued
    ensures QueuedUpTo(c, st, i)[i] == st.queued[i]
    ensures var s := st.(queued := QueuedUpTo(c, st, i));
      Wasteful(c, s, i) == Wasteful(c, st, i)
    ensures QueuedUpTo(c, st, i + 1) == QueuedUpTo(c, st, i)[i := st.queued[i] || Wasteful(c, st, i)]
  {
    hide Wasteful, Variance, GarbageRate;
    WastefulSame(c, st, st.(queued := QueuedUpTo(c, st, i)), i);
  }

  lemma WastefulSame(c: Config, st: Store, s: Store, i: nat)
    requires Shape(c, st) && i < c.zones && |s.queued| == c.zones && s == st.(queued := s.queued)
    requires s.queued[i] == st.queued[i]
    ensures Wasteful(c, s, i) == Wasteful(c, st, i)
  {
  }

  lemma {:induction false} DetectFromQueue(c: Config, st: Store, i: nat)
    requires Shape(c, st) && i <= c.zones && QueueLength(QueuedUpTo(c, st, i), c.zones) < c.gl
    ensures var q := QueuedUpTo(c, st, StopAt(c, st, i));
      && QueueLength(q, c.zones) <= c.gl
      && DetectFrom(c, st.(queued := QueuedUpTo(c, st, i)), i)
         == if QueueLength(q, c.zones) < c.gl then Some(st.(queued := q)) else Collect(c, st.(queued := q))
    decreases c.zones - i
  {
    if i < c.zones {
      hide Collect, Wasteful, QueuedUpTo;
      QueuedStep(c, st, i);
      var q := QueuedUpTo(c, st, i);
      if Wasteful(c, st, i) {
        NotQueued(c, st, i);
        QueueLengthSet(q, i, c.zones);
        if QueueLength(q[i := true], c.zones) < c.gl {
          DetectFromQueue(c, st, i + 1);
        }
      } else {
        assert q[i := st.queued[i]] == q;
        DetectFromQueue(c, st, i + 1);
      }
    }
  }

  lemma NotQueued(c: Config, st: Store, i: nat)
    requires Shape(c, st) && i < c.zones && Wasteful(c, st, i)
    ensures !st.queued[i]
  {
  }

  /** Detection adds the wasteful zones, lowest first. Either all of them join the queue, and fewer than
      `gl` are queued then, or it starts a collection as soon as exactly `gl` are. */
  lemma DetectOutcome(c: Config, st: Store)
    requires Shape(c, st) && QueueLength(st.queued, c.zones) < c.gl
    ensures var q := QueueAfter(c, st);
      && QueueLength(q, c.zones) <= c.gl
      && (forall z :: 0 <= z < c.zones ==> (q[z] <==> st.queued[z] || (z < StopAt(c, st, 0) && Wasteful(c, st, z))))
      && DetectFrom(c, st, 0)
         == if QueueLength(q, c.zones) < c.gl then Some(st.(queued := q)) else Collect(c, st.(queued := q))
  {
    hide DetectFrom, Collect, Wasteful, QueueLength;
    assert QueuedUpTo(c, st, 0) == st.queued;
    assert st.(queued := st.queued) == st;
    DetectFromQueue(c, st, 0);
  }

  /** The state in which detection ends or starts a collection. */
  ghost function Detected(c: Config, st: Store): (r: Store)
    requires Shape(c, st)
    ensures Shape(c, r)
  {
    var s := RefreshRates(c, st);
    s.(queued := QueueAfter(c, s))
  }

  lemma QueueInv(c: Config, st: Store, q: seq<bool>, flight: set<int>)
    requires Inv(c, st, -1, flight) && |q| == c.zones
    ensures Inv(c, st.(queued := q), -1, flight)
    ensures Contents(c, st.(queued := q), flight) == Contents(c, st, flight)
  {
    var r := st.(queued := q);
    forall b | 0 <= b < c.Blocks() ensures BlockOk(c, r, b) {
      assert BlockOk(c, st, b);
    }
    forall b, k | Live(c, r, -1, b) && Holds(r, b, k)
      ensures 0 <= k < c.maxKey && r.keyIndex[k] == b && k !in flight
    {
      assert Live(c, st, -1, b) && Holds(st, b, k);
    }
    forall k | 0 <= k < c.maxKey && k !in flight && r.keyIndex[k] != NO_BLOCK
      ensures Live(c, r, -1, r.keyIndex[k]) && Holds(r, r.keyIndex[k], k)
    {
      assert Live(c, st, -1, st.keyIndex[k]) && Holds(st, st.keyIndex[k], k);
    }
    assert forall k :: Lookup(c, r, flight, k) == Lookup(c, st, flight, k);
  }

  /** What holds between operations, with the keys in `flight` only in memory. */
  ghost predicate Ready(c: Config, st: Store, flight: set<int>) {
    Inv(c, st, -1, flight) && QueueLength(st.queued, c.zones) < c.gl
  }

  lemma DetectInv(c: Config, st: Store, flight: set<int>)
    requires Ready(c, st, flight) && Detect(c, st).Some?
    ensures Ready(c, Detect(c, st).value, flight)
    ensures Contents(c, Detect(c, st).value, flight) == Contents(c, st, flight)
  {
    hide BlocksOk, PointersOk, AgesOk, MeansOk, Contents, Collect, DetectFrom;
    var s := RefreshRates(c, st);
    RatesInv(c, st, -1, flight);
    DetectOutcome(c, s);
    var q := QueueAfter(c, s);
    QueueInv(c, s, q, flight);
    if QueueLength(q, c.zones) >= c.gl {
      CollectInv(c, s.(queued := q), flight);
      QueueEmpty(Detect(c, st).value.queued, c.zones);
    }
  }

  /** `r` holds the pairs `m` besides those of `st`, and their keys are no longer in flight. */
  ghost predicate Inserted(c: Config, st: Store, r: Store, flight: set<int>, m: map<int, int>)
    requires Shape(c, st)
  {
    Ready(c, r, flight - m.Keys) && Contents(c, r, flight - m.Keys) == Contents(c, st, flight) + m
  }

  lemma InsertedTrans(c: Config, s: Store, t: Store, u: Store, flight: set<int>,
                      m: map<int, int>, n: map<int, int>)
    requires Shape(c, s) && Shape(c, t)
    requires Inserted(c, s, t, flight, m) && Inserted(c, t, u, flight - m.Keys, n)
    ensures Inserted(c, s, u, flight, m + n)
  {
    hide BlocksOk, PagesIndexed, IndexLive, AgesOk, MeansOk, Contents, Shape;
    assert flight - m.Keys - n.Keys == flight - (m + n).Keys;
    assert Contents(c, s, flight) + m + n == Contents(c, s, flight) + (m + n);
  }

  /** A page written outside collection, with whatever collection it sets off. */
  lemma InsertInv(c: Config, st: Store, rs: seq<Record>, add: bool, flight: set<int>)
    requires Ready(c, st, flight) && PageOk(c, rs) && RecordMap(rs).Keys <= flight
    requires Insert(c, st, rs, add).Some?
    ensures Inserted(c, st, Insert(c, st, rs, add).value, flight, RecordMap(rs))
  {
    hide BlocksOk, PointersOk, AgesOk, MeansOk, Contents, Detect, Place, RecordMap;
    PlaceInv(c, st, rs, add, -1, flight);
    DetectInv(c, Place(c, st, rs, add).value, flight - RecordMap(rs).Keys);
  }

  lemma {:induction false} InsertAllInv(c: Config, st: Store, pages: seq<seq<Record>>, flight: set<int>)
    requires Ready(c, st, flight) && PagesOk(c, pages) && RecordMap(Flatten(pages)).Keys <= flight
    requires InsertAll(c, st, pages).Some?
    ensures Inserted(c, st, InsertAll(c, st, pages).value, flight, RecordMap(Flatten(pages)))
    decreases |pages|
  {
    if pages == [] {
      assert flight - RecordMap([]).Keys == flight;
    } else {
      hide BlocksOk, PagesIndexed, IndexLive, AgesOk, MeansOk, Contents, PagesOk, Insert, RecordMap;
      PagesOkStep(c, pages);
      InsertInv(c, st, pages[0], false, flight);
      var s := Insert(c, st, pages[0], false).value;
      var first, rest := RecordMap(pages[0]), RecordMap(Flatten(pages[1..]));
      assert rest.Keys <= flight - first.Keys;
      InsertAllInv(c, s, pages[1..], flight - first.Keys);
      InsertedTrans(c, st, s, InsertAll(c, st, pages).value, flight, first, rest);
    }
  }

  // ---------- updates and deletes ----------

  /** The keys whose records an update of `k` holds in memory. */
  ghost function InMemory(rs: seq<Record>, k: int, v: int): set<int> {
    RecordMap(rs).Keys - (if v == 0 then {k} else {})
  }

  lemma InvalidateInv(c: Config, st: Store, k: nat, v: int)
    requires Ready(c, st, {}) && k < c.maxKey && st.keyIndex[k] != NO_BLOCK
    ensures Ready(c, Invalidate(c, st, k, v), InMemory(st.pages[st.keyIndex[k]], k, v))
  {
    var r := Invalidate(c, st, k, v);
    var w := st.keyIndex[k];
    var flight := InMemory(st.pages[w], k, v);
    assert Live(c, st, -1, w) && Holds(st, w, k);
    forall b | 0 <= b < c.Blocks() ensures BlockOk(c, r, b) {
      assert BlockOk(c, st, b);
    }
    forall b, l | Live(c, r, -1, b) && Holds(r, b, l)
      ensures 0 <= l < c.maxKey && r.keyIndex[l] == b && l !in flight
    {
      assert Live(c, st, -1, b) && Holds(st, b, l);
      if l in flight { assert Holds(st, w, l); }
    }
    forall l | 0 <= l < c.maxKey && l !in flight && r.keyIndex[l] != NO_BLOCK
      ensures Live(c, r, -1, r.keyIndex[l]) && Holds(r, r.keyIndex[l], l)
    {
      assert Live(c, st, -1, st.keyIndex[l]) && Holds(st, st.keyIndex[l], l);
    }
  }

  /** The abstract effect: the key gets the new size, or goes. */
  function Set(m: map<int, int>, k: int, v: int): map<int, int> {
    if v == 0 then m - {k} else m[k := v]
  }

  lemma {:induction false} ChangedMap(rs: seq<Record>, k: int, v: int, l: int)
    requires DistinctKeys(rs)
    ensures l in RecordMap(Changed(rs, k, v)) <==> l in RecordMap(rs) && (l != k || v != 0)
    ensures l in RecordMap(Changed(rs, k, v)) ==>
              RecordMap(Changed(rs, k, v))[l] == if l == k then v else RecordMap(rs)[l]
    decreases |rs|
  {
    if rs != [] {
      var first, rest := [rs[0]], rs[1..];
      var now := if rs[0].key != k then [rs[0]] else if v != 0 then [Record(k, v)] else [];
      assert rs == first + rest;
      RecordMapEither(first, rest, l);
      DistinctParts(first, rest, l);
      ChangedMap(rest, k, v, l);
      RecordMapEither(now, Changed(rest, k, v), l);
      assert first[..0] == [] && (now != [] ==> now[..0] == []);
    }
  }

  lemma InvalidateLookup(c: Config, st: Store, k: nat, v: int, l: int)
    requires Ready(c, st, {}) && k < c.maxKey && st.keyIndex[k] != NO_BLOCK
    ensures var rs := st.pages[st.keyIndex[k]];
      && DistinctKeys(rs) && k in RecordMap(rs)
      && (l in RecordMap(rs) ==> Lookup(c, st, {}, l) == Some(RecordMap(rs)[l]))
      && (l !in RecordMap(rs) ==>
            Lookup(c, Invalidate(c, st, k, v), InMemory(rs, k, v), l) == Lookup(c, st, {}, l))
      && (l in RecordMap(rs) ==> Lookup(c, Invalidate(c, st, k, v), InMemory(rs, k, v), l) == None)
  {
    var w := st.keyIndex[k];
    assert Live(c, st, -1, w) && Holds(st, w, k) && BlockOk(c, st, w);
    if l in RecordMap(st.pages[w]) {
      assert Holds(st, w, l);
    }
  }

  lemma ContentsAt(c: Config, st: Store, flight: set<int>, k: int)
    requires Shape(c, st)
    ensures k in Contents(c, st, flight) <==> Lookup(c, st, flight, k).Some?
    ensures k in Contents(c, st, flight) ==> Contents(c, st, flight)[k] == Lookup(c, st, flight, k).value
  {
  }

  lemma InvalidateContents(c: Config, st: Store, k: nat, v: int)
    requires Ready(c, st, {}) && k < c.maxKey && st.keyIndex[k] != NO_BLOCK
    ensures var rs := st.pages[st.keyIndex[k]];
      Set(Contents(c, st, {}), k, v)
      == Contents(c, Invalidate(c, st, k, v), InMemory(rs, k, v)) + RecordMap(Changed(rs, k, v))
  {
    var rs := st.pages[st.keyIndex[k]];
    var r, flight := Invalidate(c, st, k, v), InMemory(rs, k, v);
    InvalidateLookup(c, st, k, v, k);
    hide RecordMap, Changed, Lookup, Contents, BlocksOk, PagesIndexed, IndexLive, Invalidate, InMemory;
    var left := Set(Contents(c, st, {}), k, v);
    var right := Contents(c, r, flight) + RecordMap(Changed(rs, k, v));
    forall l: int
      ensures l in left <==> l in right
      ensures l in left ==> left[l] == right[l]
    {
      InvalidateLookup(c, st, k, v, l);
      ChangedMap(rs, k, v, l);
      ContentsAt(c, st, {}, l);
      ContentsAt(c, r, flight, l);
    }
  }

  lemma {:induction false} ChangedOk(c: Config, rs: seq<Record>, k: int, v: int)
    requires AllValid(rs) && KeysBelow(rs, c.maxKey) && DistinctKeys(rs)
    requires k < c.maxKey && (v == 0 || ValidRecord(Record(k, v)))
    ensures var now := Changed(rs, k, v);
      AllValid(now) && KeysBelow(now, c.maxKey) && DistinctKeys(now)
    decreases |rs|
  {
    if rs != [] {
      var first, rest := [rs[0]], rs[1..];
      var now := if rs[0].key != k then [rs[0]] else if v != 0 then [Record(k, v)] else [];
      assert rs == first + rest;
      ChangedOk(c, rest, k, v);
      forall l | l in RecordMap(now) ensures l !in RecordMap(Changed(rest, k, v)) {
        assert now[..0] == [] && first[..0] == [];
        DistinctParts(first, rest, l);
        ChangedMap(rest, k, v, l);
      }
      DistinctConcat(now, Changed(rest, k, v));
      KeysBelowParts(now, Changed(rest, k, v), c.maxKey);
      AllValidConcat(now, Changed(rest, k, v));
    }
  }

  /** The pages an update writes hold exactly the records that are in memory. */
  lemma UpdatePages(c: Config, rs: seq<Record>, k: int, v: int)
    requires PageOk(c, rs) && k < c.maxKey && (v == 0 || ValidRecord(Record(k, v)))
    ensures var pages := Pack([], Changed(rs, k, v));
      && PagesOk(c, pages) && Flatten(pages) == Changed(rs, k, v)
      && RecordMap(Changed(rs, k, v)).Keys == InMemory(rs, k, v)
  {
    hide Pack, Flatten, Changed, RecordMap, Bytes, DistinctKeys, KeysBelow, PagesOk;
    ChangedOk(c, rs, k, v);
    RecordsToPages(c, Changed(rs, k, v));
    forall l: int {
      ChangedMap(rs, k, v, l);
    }
  }

  /** An update or delete changes the map at its key only, whatever collections run before the
      records still in memory are written. */
  lemma UpdateInv(c: Config, st: Store, k: nat, v: int)
    requires Ready(c, st, {}) && k < c.maxKey && st.keyIndex[k] != NO_BLOCK
    requires v == 0 || ValidRecord(Record(k, v))
    requires Update(c, st, k, v).Some?
    ensures Ready(c, Update(c, st, k, v).value, {})
    ensures Contents(c, Update(c, st, k, v).value, {}) == Set(Contents(c, st, {}), k, v)
  {
    var rs := st.pages[st.keyIndex[k]];
    assert Live(c, st, -1, st.keyIndex[k]) && BlockOk(c, st, st.keyIndex[k]);
    hide BlocksOk, PagesIndexed, IndexLive, AgesOk, MeansOk, Contents, RecordMap, InsertAll, Invalidate;
    hide Pack, Changed, Flatten, InMemory, PageOk, PagesOk;
    InvalidateInv(c, st, k, v);
    InvalidateContents(c, st, k, v);
    UpdatePages(c, rs, k, v);
    var flight := InMemory(rs, k, v);
    InsertAllInv(c, Invalidate(c, st, k, v), Pack([], Changed(rs, k, v)), flight);
    assert flight - flight == {};
  }

  // ---------- traces ----------

  datatype Op = Add(key: int, size: int) | Modify(key: int, size: int) | Delete(key: int)

  /** Loads between two refreshes of the empty rates by the progress report. */
  const TRACE_LENGTH: int := 40000 * 10

  /** The store, the ADD records not yet written, and the number of operations read. */
  datatype System = System(store: Store, buffer: seq<Record>, load: nat)

  /** The map a trace stands for. */
  function Apply(m: map<int, int>, op: Op): map<int, int> {
    match op
    case Add(k, v) => m[k := v]
    case Modify(k, v) => m[k := v]
    case Delete(k) => m - {k}
  }

  function Replay(trace: seq<Op>): map<int, int> {
    if trace == [] then map[]
    else Apply(Replay(trace[..|trace| - 1]), trace[|trace| - 1])
  }

  /** ADD only absent keys, MODIFY and DELETE only present ones. */
  predicate OpOk(maxKey: nat, m: map<int, int>, op: Op) {
    && 0 <= op.key < maxKey
    && (op.Delete? || (4 <= op.size <= MAX_VALUE_SIZE && op.size % 4 == 0))
    && (op.Add? <==> op.key !in m)
  }

  predicate WellFormed(maxKey: nat, trace: seq<Op>) {
    trace == [] ||
    (WellFormed(maxKey, trace[..|trace| - 1])
     && OpOk(maxKey, Replay(trace[..|trace| - 1]), trace[|trace| - 1]))
  }

  lemma {:induction false} PrefixOk(maxKey: nat, trace: seq<Op>, i: nat)
    requires WellFormed(maxKey, trace) && i <= |trace|
    ensures WellFormed(maxKey, trace[..i])
    ensures i < |trace| ==> OpOk(maxKey, Replay(trace[..i]), trace[i])
    decreases |trace| - i
  {
    if i == |trace| {
      assert trace[..i] == trace;
    } else {
      PrefixOk(maxKey, trace, i + 1);
      assert trace[..i + 1][..i] == trace[..i];
    }
  }

  /** The progress report recomputes the empty rates. */
  ghost function Report(c: Config, st: Store, load: nat): (r: Store)
    requires Shape(c, st)
    ensures Shape(c, r)
  {
    if load * 1000 % TRACE_LENGTH == 0 && load * 10 % TRACE_LENGTH == 0 then RefreshRates(c, st) else st
  }

  predicate Flushes(buffer: seq<Record>, op: Op) {
    !op.Add? || Bytes(buffer) + HEADER_SIZE + op.size > BLOCK_SIZE
  }

  ghost function Flush(c: Config, st: Store, buffer: seq<Record>): (r: Option<Store>)
    requires Shape(c, st)
    ensures r.Some? ==> Shape(c, r.value)
  {
    if buffer == [] then Some(st) else Insert(c, st, buffer, true)
  }

  /** Updating a key that is not stored fails: no page can be read for it. */
  ghost function UpdateStored(c: Config, st: Store, k: int, v: int): (r: Option<Store>)
    requires Shape(c, st)
    ensures r.Some? ==> Shape(c, r.value)
  {
    if 0 <= k < c.maxKey && st.keyIndex[k] != NO_BLOCK then Update(c, st, k, v) else None
  }

  /** First part of a turn of `request_workload`: the report and the flush of the ADD buffer. */
  ghost function Prepare(c: Config, s: System, op: Op): (r: Option<System>)
    requires Shape(c, s.store)
    ensures r.Some? ==> Shape(c, r.value.store)
  {
    var st := Report(c, s.store, s.load + 1);
    if !Flushes(s.buffer, op) then Some(System(st, s.buffer, s.load + 1))
    else
      match Flush(c, st, s.buffer)
      case None => None
      case Some(t) => Some(System(t, [], s.load + 1))
  }

  ghost function Perform(c: Config, s: System, op: Op): (r: Option<System>)
    requires Shape(c, s.store)
    ensures r.Some? ==> Shape(c, r.value.store)
  {
    if op.Add? then Some(s.(buffer := s.buffer + [Record(op.key, op.size)]))
    else
      match UpdateStored(c, s.store, op.key, if op.Modify? then op.size else 0)
      case None => None
      case Some(t) => Some(s.(store := t))
  }

  /** One turn of the loop of `request_workload`. */
  ghost function Step(c: Config, s: System, op: Op): (r: Option<System>)
    requires Shape(c, s.store)
    ensures r.Some? ==> Shape(c, r.value.store)
  {
    match Prepare(c, s, op)
    case None => None
    case Some(t) => Perform(c, t, op)
  }

  ghost function Run(c: Config, trace: seq<Op>): (r: Option<System>)
    requires c.Valid()
    ensures r.Some? ==> Shape(c, r.value.store)
  {
    if trace == [] then Some(System(Initial(c), [], 0))
    else
      match Run(c, trace[..|trace| - 1])
      case None => None
      case Some(s) => Step(c, s, trace[|trace| - 1])
  }

  /** The records reached through `keyIndex` together with the unflushed ADD buffer. */
  ghost function Stored(c: Config, s: System): map<int, int>
    requires Shape(c, s.store)
  {
    Contents(c, s.store, {}) + RecordMap(s.buffer)
  }

  ghost predicate BufferOk(c: Config, st: Store, buffer: seq<Record>)
    requires Shape(c, st)
  {
    && (buffer != [] ==> PageOk(c, buffer))
    && forall k :: k in RecordMap(buffer) ==> 0 <= k < c.maxKey && st.keyIndex[k] == NO_BLOCK
  }

  ghost predicate SystemOk(c: Config, s: System) {
    Ready(c, s.store, {}) && BufferOk(c, s.store, s.buffer)
  }

  lemma BufferInFlight(c: Config, st: Store, flight: set<int>)
    requires Ready(c, st, {})
    requires forall k :: k in flight ==> 0 <= k < c.maxKey && st.keyIndex[k] == NO_BLOCK
    ensures Ready(c, st, flight) && Contents(c, st, flight) == Contents(c, st, {})
  {
    assert forall k :: Lookup(c, st, flight, k) == Lookup(c, st, {}, k);
  }

  lemma FlushInv(c: Config, st: Store, buffer: seq<Record>)
    requires Ready(c, st, {}) && BufferOk(c, st, buffer) && Flush(c, st, buffer).Some?
    ensures Ready(c, Flush(c, st, buffer).value, {})
    ensures Contents(c, Flush(c, st, buffer).value, {}) == Contents(c, st, {}) + RecordMap(buffer)
  {
    if buffer != [] {
      var flight := RecordMap(buffer).Keys;
      BufferInFlight(c, st, flight);
      hide BlocksOk, PagesIndexed, IndexLive, AgesOk, MeansOk, Contents, RecordMap, Insert;
      InsertInv(c, st, buffer, true, flight);
      assert flight - flight == {};
    }
  }

  lemma StoredKey(c: Config, st: Store, k: int)
    requires Ready(c, st, {}) && 0 <= k < c.maxKey
    ensures k in Contents(c, st, {}) <==> st.keyIndex[k] != NO_BLOCK
  {
  }

  lemma RecordMapAppend(rs: seq<Record>, r: Record)
    ensures RecordMap(rs + [r]) == RecordMap(rs)[r.key := r.size]
  {
    assert (rs + [r])[..|rs|] == rs;
  }

  lemma PageAppend(c: Config, rs: seq<Record>, r: Record)
    requires rs == [] || PageOk(c, rs)
    requires r.key !in RecordMap(rs) && ValidRecord(r) && r.key < c.maxKey
    requires Bytes(rs) + RecordBytes(r) <= BLOCK_SIZE
    ensures PageOk(c, rs + [r])
  {
    BytesAppend(rs, r);
    RecordMapHas(rs, r.key);
    hide RecordMap, Bytes;
    forall i | 0 <= i < |rs + [r]|
      ensures ValidRecord((rs + [r])[i]) && (rs + [r])[i].key < c.maxKey
      ensures forall j :: 0 <= j < i ==> (rs + [r])[j].key != (rs + [r])[i].key
    {
      if i < |rs| { assert (rs + [r])[i] == rs[i]; }
    }
  }

  lemma BufferAppend(c: Config, st: Store, buffer: seq<Record>, k: int, v: int)
    requires Ready(c, st, {}) && BufferOk(c, st, buffer)
    requires k !in Contents(c, st, {}) + RecordMap(buffer)
    requires 0 <= k < c.maxKey && ValidRecord(Record(k, v))
    requires Bytes(buffer) + HEADER_SIZE + v <= BLOCK_SIZE
    ensures BufferOk(c, st, buffer + [Record(k, v)])
    ensures Contents(c, st, {}) + RecordMap(buffer + [Record(k, v)])
         == (Contents(c, st, {}) + RecordMap(buffer))[k := v]
  {
    hide RecordMap, Bytes, PageOk, Contents, BlocksOk, PagesIndexed, IndexLive, AgesOk, MeansOk;
    StoredKey(c, st, k);
    RecordMapAppend(buffer, Record(k, v));
    PageAppend(c, buffer, Record(k, v));
  }

  lemma ReportInv(c: Config, st: Store, buffer: seq<Record>, load: nat)
    requires Ready(c, st, {}) && BufferOk(c, st, buffer)
    ensures var r := Report(c, st, load);
      Ready(c, r, {}) && BufferOk(c, r, buffer) && Contents(c, r, {}) == Contents(c, st, {})
  {
    RatesInv(c, st, -1, {});
  }

  lemma PrepareInv(c: Config, s: System, op: Op)
    requires SystemOk(c, s) && Prepare(c, s, op).Some?
    ensures var r := Prepare(c, s, op).value;
      && SystemOk(c, r) && Stored(c, r) == Stored(c, s)
      && r.buffer == if Flushes(s.buffer, op) then [] else s.buffer
  {
    hide BlocksOk, PagesIndexed, IndexLive, AgesOk, MeansOk, BufferOk, Contents, Flushes, Report, RecordMap, Flush;
    var st := Report(c, s.store, s.load + 1);
    ReportInv(c, s.store, s.buffer, s.load + 1);
    if Flushes(s.buffer, op) {
      FlushInv(c, st, s.buffer);
      var t := Flush(c, st, s.buffer).value;
      EmptyBuffer(c, t);
    }
  }

  lemma EmptyBuffer(c: Config, st: Store)
    requires Shape(c, st)
    ensures BufferOk(c, st, []) && Contents(c, st, {}) + RecordMap([]) == Contents(c, st, {})
  {
  }

  lemma PerformInv(c: Config, s: System, op: Op)
    requires SystemOk(c, s) && OpOk(c.maxKey, Stored(c, s), op) && c.Valid()
    requires if op.Add? then Bytes(s.buffer) + HEADER_SIZE + op.size <= BLOCK_SIZE else s.buffer == []
    requires Perform(c, s, op).Some?
    ensures var r := Perform(c, s, op).value;
      SystemOk(c, r) && Stored(c, r) == Apply(Stored(c, s), op)
  {
    hide BlocksOk, PagesIndexed, IndexLive, AgesOk, MeansOk, Contents, Update, PageOk, Bytes;
    if op.Add? {
      BufferAppend(c, s.store, s.buffer, op.key, op.size);
    } else {
      StoredKey(c, s.store, op.key);
      UpdateInv(c, s.store, op.key, if op.Modify? then op.size else 0);
    }
  }

  lemma StepInv(c: Config, s: System, op: Op)
    requires SystemOk(c, s) && OpOk(c.maxKey, Stored(c, s), op) && c.Valid()
    requires Step(c, s, op).Some?
    ensures var r := Step(c, s, op).value;
      SystemOk(c, r) && Stored(c, r) == Apply(Stored(c, s), op)
  {
    hide BlocksOk, PagesIndexed, IndexLive, AgesOk, MeansOk, Contents, BufferOk, Stored, Prepare, Perform;
    PrepareInv(c, s, op);
    PerformInv(c, Prepare(c, s, op).value, op);
  }

  /** Main refinement: after every well-formed trace, and so after each of its prefixes, the store
      holds exactly what replaying the trace gives, and the invariant holds. */
  lemma {:induction false} RunRefines(c: Config, trace: seq<Op>)
    requires c.Valid() && WellFormed(c.maxKey, trace) && Run(c, trace).Some?
    ensures var s := Run(c, trace).value;
      SystemOk(c, s) && Stored(c, s) == Replay(trace)
  {
    if trace == [] {
      InitialInv(c);
      QueueEmpty(Initial(c).queued, c.zones);
    } else {
      var n := |trace| - 1;
      RunRefines(c, trace[..n]);
      StepInv(c, Run(c, trace[..n]).value, trace[n]);
    }
  }
}
