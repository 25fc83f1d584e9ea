/** The model one loop iteration at a time: what the loops of the simulation step over. */
module LoopSteps {
  import opened Codec
  import opened Packing
  import opened Layout
  import opened StoreModel
  import opened StoreInvariant
  import opened Collection
  import opened StoreRun

  lemma DetectStep(c: Config, st: Store, i: nat)
    requires Shape(c, st) && i < c.zones
    ensures !Wasteful(c, st, i) ==> DetectFrom(c, st, i) == DetectFrom(c, st, i + 1)
    ensures Wasteful(c, st, i) ==>
              var s := st.(queued := st.queued[i := true]);
              DetectFrom(c, st, i)
              == if QueueLength(s.queued, c.zones) >= c.gl then Collect(c, s) else DetectFrom(c, s, i + 1)
  {
  }

  lemma DetectEnd(c: Config, st: Store)
    requires Shape(c, st)
    ensures DetectFrom(c, st, c.zones) == Some(st)
  {
  }

  lemma RecordsOfPage(p: seq<Byte>, rs: seq<Record>)
    requires PageHolds(p, rs)
    ensures AllValid(rs)
  {
  }

  lemma HoldsSize(p: seq<Byte>, rs: seq<Record>)
    requires PageHolds(p, rs)
    ensures |p| == BLOCK_SIZE && FitsPage(rs)
  {
  }

  lemma EmptyBytes()
    ensures Bytes([]) == 0
  {
  }

  lemma RecordsValid(p: seq<Byte>, rs: seq<Record>, n: nat)
    requires PageHolds(p, rs) && n < |rs|
    ensures ValidRecord(rs[n])
  {
  }

  /** One more record: either the batch is written first, or it grows. */
  lemma PackPlaces(c: Config, st: Store, batch: seq<Record>, r: Record, tail: seq<Record>)
    requires Shape(c, st)
    ensures Bytes(batch) + RecordBytes(r) <= BLOCK_SIZE ==>
              PlaceAll(c, st, Pack(batch, [r] + tail)) == PlaceAll(c, st, Pack(batch + [r], tail))
    ensures Bytes(batch) + RecordBytes(r) > BLOCK_SIZE ==>
              PlaceAll(c, st, Pack(batch, [r] + tail)) ==
              (match Place(c, st, batch, false) case None => None case Some(s) => PlaceAll(c, s, Pack([] + [r], tail)))
  {
    PackStep(batch, r, tail);
    assert [] + [r] == [r];
    assert ([batch] + Pack([r], tail))[1..] == Pack([r], tail);
  }

  /** What a batch of records looks like while pages are repacked. */
  ghost predicate BatchOk(c: Config, batch: seq<Record>, cap: int) {
    FitsPage(batch) && KeysBelow(batch, c.maxKey) && cap == Bytes(batch)
  }

  lemma BatchExtends(c: Config, batch: seq<Record>, cap: int, r: Record)
    requires BatchOk(c, batch, cap) && ValidRecord(r) && r.key < c.maxKey && cap + RecordBytes(r) <= BLOCK_SIZE
    ensures BatchOk(c, batch + [r], cap + RecordBytes(r))
  {
    BytesAppend(batch, r);
  }

  lemma BatchEmpty(c: Config)
    ensures BatchOk(c, [], 0)
  {
  }

  lemma BatchBytes(c: Config, batch: seq<Record>, cap: int)
    requires BatchOk(c, batch, cap)
    ensures cap == Bytes(batch) && FitsPage(batch) && KeysBelow(batch, c.maxKey)
  {
  }

  lemma SelfUntouched(c: Config, st: Store)
    requires Shape(c, st)
    ensures QueuedUntouched(c, st, st)
  {
  }

  lemma CollectEnd(c: Config, st: Store)
    requires Shape(c, st)
    ensures CollectFrom(c, st, c.zones) == Some(st)
  {
  }

  /** The pages of a queued zone are read as they were when the collection of it began. */
  lemma UntouchedPages(c: Config, st: Store, s: Store, z: nat, j: nat)
    requires Shape(c, st) && Shape(c, s) && QueuedUntouched(c, st, s)
    requires z < c.zones && st.queued[z] && j <= c.bpz
    ensures ValidPages(c, st, z, j) == ValidPages(c, s, z, j)
  {
    SameZonePages(c, st, s, z, j);
  }

  lemma TakeFromZone(c: Config, st: Store, s: Store, z: nat, j: nat)
    requires Shape(c, st) && Shape(c, s) && QueuedUntouched(c, st, s)
    requires z < c.zones && st.queued[z] && j < c.bpz && Live(c, s, -1, First(c.bpz, z) + j)
    ensures Flatten(ValidPages(c, st, z, j)) == s.pages[First(c.bpz, z) + j] + Flatten(ValidPages(c, st, z, j + 1))
  {
    UntouchedPages(c, st, s, z, j);
    UntouchedPages(c, st, s, z, j + 1);
    TakeBlock(c, s, z, j);
    FlattenFirst(s.pages[First(c.bpz, z) + j], ValidPages(c, s, z, j + 1));
  }

  lemma NothingLeft(c: Config, st: Store, s: Store, z: nat, batch: seq<Record>)
    requires Shape(c, st) && Shape(c, s) && z < c.zones
    ensures PlaceAll(c, s, Pack(batch, Flatten(ValidPages(c, st, z, c.bpz))))
         == if batch == [] then Some(s) else Place(c, s, batch, false)
  {
    assert Flatten(ValidPages(c, st, z, c.bpz)) == [];
    assert [batch][1..] == [];
  }

  /** The same step for the pages of an update. */
  lemma PackInserts(c: Config, st: Store, batch: seq<Record>, r: Record, tail: seq<Record>)
    requires Shape(c, st)
    ensures Bytes(batch) + RecordBytes(r) <= BLOCK_SIZE ==>
              InsertAll(c, st, Pack(batch, [r] + tail)) == InsertAll(c, st, Pack(batch + [r], tail))
    ensures Bytes(batch) + RecordBytes(r) > BLOCK_SIZE ==>
              InsertAll(c, st, Pack(batch, [r] + tail)) ==
              (match Insert(c, st, batch, false)
               case None => None case Some(s) => InsertAll(c, s, Pack([] + [r], tail)))
  {
    PackStep(batch, r, tail);
    assert [] + [r] == [r];
    assert ([batch] + Pack([r], tail))[1..] == Pack([r], tail);
  }

  lemma LastInsert(c: Config, st: Store, batch: seq<Record>)
    requires Shape(c, st)
    ensures InsertAll(c, st, Pack(batch, [])) == if batch == [] then Some(st) else Insert(c, st, batch, false)
  {
    assert [batch][1..] == [];
  }

  /** Records that fit with the batch join it before anything is flushed. */
  lemma {:induction false} PackPrefix(batch: seq<Record>, xs: seq<Record>, ys: seq<Record>)
    requires FitsPage(batch + xs)
    ensures Pack(batch, xs + ys) == Pack(batch + xs, ys)
    decreases |xs|
  {
    if xs == [] {
      assert batch + xs == batch && xs + ys == ys;
    } else {
      BytesPrefix(batch + xs, |batch|);
      assert (batch + xs)[..|batch|] == batch && (batch + xs)[|batch|] == xs[0];
      assert batch + [xs[0]] + xs[1..] == batch + xs;
      assert xs + ys == [xs[0]] + (xs[1..] + ys);
      BytesAppend(batch, xs[0]);
      PackStep(batch, xs[0], xs[1..] + ys);
      PackPrefix(batch + [xs[0]], xs[1..], ys);
    }
  }

  /** Up to the updated record nothing is flushed: those records came from one page. */
  lemma UpdatePrefix(rs: seq<Record>, n: nat, k: int, v: int)
    requires FitsPage(rs) && n <= |rs| && forall i :: 0 <= i < n ==> rs[i].key != k
    ensures Pack([], Changed(rs, k, v)) == Pack(rs[..n], Changed(rs[n..], k, v))
  {
    assert rs == rs[..n] + rs[n..];
    ChangedConcat(rs[..n], rs[n..], k, v);
    ChangedOther(rs[..n], k, v);
    BytesSplit(rs, n);
    assert [] + rs[..n] == rs[..n];
    PackPrefix([], rs[..n], Changed(rs[n..], k, v));
  }

  lemma ChangedStep(rs: seq<Record>, n: nat, k: int, v: int)
    requires n < |rs|
    ensures rs[n].key != k ==> Changed(rs[n..], k, v) == [rs[n]] + Changed(rs[n + 1..], k, v)
    ensures rs[n].key == k && v != 0 ==> Changed(rs[n..], k, v) == [Record(k, v)] + Changed(rs[n + 1..], k, v)
    ensures rs[n].key == k && v == 0 ==> Changed(rs[n..], k, v) == Changed(rs[n + 1..], k, v)
  {
    assert rs[n..][1..] == rs[n + 1..];
    assert [] + Changed(rs[n + 1..], k, v) == Changed(rs[n + 1..], k, v);
  }

  lemma NoneChanged(rs: seq<Record>, k: int, v: int)
    ensures Changed(rs[|rs|..], k, v) == []
  {
  }

  /** The page that a stored key points to. */
  lemma IndexedPage(c: Config, st: Store, k: nat) returns (rs: seq<Record>)
    requires Inv(c, st, -1, {}) && k < c.maxKey && st.keyIndex[k] != NO_BLOCK
    ensures Live(c, st, -1, st.keyIndex[k]) && rs == st.pages[st.keyIndex[k]]
    ensures DistinctKeys(rs) && k in RecordMap(rs)
  {
    rs := st.pages[st.keyIndex[k]];
    assert Live(c, st, -1, st.keyIndex[k]) && BlockOk(c, st, st.keyIndex[k]);
  }

  // ---------- the trace ----------

  lemma BufferFits(c: Config, s: System)
    requires SystemOk(c, s) && s.buffer != []
    ensures FitsPage(s.buffer) && KeysBelow(s.buffer, c.maxKey)
  {
  }

  lemma SystemReady(c: Config, s: System)
    requires SystemOk(c, s)
    ensures Ready(c, s.store, {})
  {
  }

  lemma StoredIs(c: Config, s: System)
    requires Shape(c, s.store)
    ensures Stored(c, s) == Contents(c, s.store, {}) + RecordMap(s.buffer)
  {
  }

  lemma RunEmpty(c: Config)
    requires c.Valid()
    ensures Run(c, []) == Some(System(Initial(c), [], 0))
  {
  }

  lemma RunStep(c: Config, trace: seq<Op>, i: nat)
    requires c.Valid() && i < |trace|
    ensures Run(c, trace[..i + 1]) == match Run(c, trace[..i]) case None => None case Some(s) => Step(c, s, trace[i])
  {
    assert trace[..i + 1][..i] == trace[..i];
  }

  lemma {:induction false} RunStops(c: Config, trace: seq<Op>, i: nat)
    requires c.Valid() && i <= |trace| && Run(c, trace[..i]) == None
    ensures Run(c, trace) == None
    decreases |trace| - i
  {
    if i == |trace| {
      assert trace[..i] == trace;
    } else {
      RunStep(c, trace, i);
      RunStops(c, trace, i + 1);
    }
  }
}
