/** The buffer of ADD records: at every moment it is the last page of the optimal packing of the records added
    since the last update or delete. */
module AddBuffer {
  import opened Codec
  import opened Packing
  import opened StoreModel
  import opened StoreRun

  /** The records added since the last update or delete of the trace. */
  function Added(trace: seq<Op>): seq<Record> {
    if trace == [] || !trace[|trace| - 1].Add? then []
    else Added(trace[..|trace| - 1]) + [Record(trace[|trace| - 1].key, trace[|trace| - 1].size)]
  }

  /** One more record joins the last page if it fits there, and starts a page otherwise. */
  function WithOne(pages: seq<seq<Record>>, r: Record): seq<seq<Record>> {
    var n := |pages| - 1;
    if pages != [] && Bytes(pages[n]) + RecordBytes(r) <= BLOCK_SIZE then pages[..n] + [pages[n] + [r]]
    else pages + [[r]]
  }

  lemma WithOneAfter(page: seq<Record>, later: seq<seq<Record>>, r: Record)
    requires later != []
    ensures WithOne([page] + later, r) == [page] + WithOne(later, r)
  {
    hide Bytes;
    var all := [page] + later;
    assert all[..|all| - 1] == [page] + later[..|later| - 1];
  }

  lemma WithOneAlone(page: seq<Record>, r: Record)
    ensures page != [] ==>
              WithOne([page], r) == if Bytes(page) + RecordBytes(r) > BLOCK_SIZE then [page, [r]] else [page + [r]]
    ensures WithOne([], r) == [[r]]
  {
    assert [page][..0] == [];
  }

  lemma {:induction false} PackOneMore(batch: seq<Record>, rest: seq<Record>, r: Record)
    requires FitsPage(batch) && AllValid(rest) && ValidRecord(r)
    ensures Pack(batch, rest + [r]) == WithOne(Pack(batch, rest), r)
    decreases |rest|
  {
    if rest == [] {
      assert Bytes([]) == 0;
      hide Pack, WithOne, Bytes;
      assert rest + [r] == [r] + [];
      PackStep(batch, r, []);
      Single(batch);
      Single(batch + [r]);
      Single([r]);
      WithOneAlone(batch, r);
      assert batch == [] ==> batch + [r] == [r];
      assert [batch] + [[r]] == [batch, [r]];
    } else {
      hide Pack, WithOne, Bytes;
      ValidAppend(batch, rest);
      assert rest == [rest[0]] + rest[1..] && rest + [r] == [rest[0]] + (rest[1..] + [r]);
      PackStep(batch, rest[0], rest[1..] + [r]);
      PackStep(batch, rest[0], rest[1..]);
      if Bytes(batch) + RecordBytes(rest[0]) > BLOCK_SIZE {
        PackOneMore([rest[0]], rest[1..], r);
        SomePage([rest[0]], rest[1..]);
        WithOneAfter(batch, Pack([rest[0]], rest[1..]), r);
      } else {
        PackOneMore(batch + [rest[0]], rest[1..], r);
      }
    }
  }

  lemma Single(page: seq<Record>)
    ensures Pack(page, []) == if page == [] then [] else [page]
  {
  }

  lemma {:induction false} SomePage(batch: seq<Record>, rest: seq<Record>)
    requires batch != []
    ensures Pack(batch, rest) != []
    decreases |rest|
  {
    if rest != [] && Bytes(batch) + RecordBytes(rest[0]) <= BLOCK_SIZE {
      SomePage(batch + [rest[0]], rest[1..]);
    }
  }

  /** The last page of the packing. */
  function LastPage(rs: seq<Record>): seq<Record> {
    var pages := Pack([], rs);
    if pages == [] then [] else pages[|pages| - 1]
  }

  lemma LastPageStep(rs: seq<Record>, r: Record)
    requires AllValid(rs) && ValidRecord(r)
    ensures LastPage(rs + [r])
         == if Bytes(LastPage(rs)) + RecordBytes(r) <= BLOCK_SIZE then LastPage(rs) + [r] else [r]
  {
    hide Pack;
    PackOneMore([], rs, r);
    assert Bytes([]) == 0 && [] + [r] == [r];
  }

  lemma {:induction false} AddedValid(c: Config, trace: seq<Op>)
    requires c.Valid() && WellFormed(c.maxKey, trace)
    ensures AllValid(Added(trace))
  {
    if trace != [] && trace[|trace| - 1].Add? {
      hide Replay;
      AddedValid(c, trace[..|trace| - 1]);
    }
  }

  /** One turn of the loop on the buffer. */
  lemma StepBuffer(c: Config, s: System, op: Op)
    requires Shape(c, s.store) && Step(c, s, op).Some?
    ensures var buffer := Step(c, s, op).value.buffer;
      if !op.Add? then buffer == []
      else var r := Record(op.key, op.size);
           buffer == if Bytes(s.buffer) + 12 + op.size <= 4096 then s.buffer + [r] else [r]
  {
    hide Insert, Bytes, Update, RefreshRates;
    if op.Add? {
      assert [] + [Record(op.key, op.size)] == [Record(op.key, op.size)];
    }
  }

  /** In every reachable state the buffer is the last page of the packing of the records added since the
      last update or delete; so no page is written early, and none that could have held more. */
  lemma {:induction false} BufferIsLastPage(c: Config, trace: seq<Op>)
    requires c.Valid() && WellFormed(c.maxKey, trace) && Run(c, trace).Some?
    ensures Run(c, trace).value.buffer == LastPage(Added(trace))
  {
    hide Step, Bytes, LastPage, Replay;
    if trace == [] {
      NoRecords();
    } else {
      var n := |trace| - 1;
      BufferIsLastPage(c, trace[..n]);
      StepBuffer(c, Run(c, trace[..n]).value, trace[n]);
      AddedValid(c, trace[..n]);
      if trace[n].Add? {
        LastPageStep(Added(trace[..n]), Record(trace[n].key, trace[n].size));
      } else {
        NoRecords();
      }
    }
  }

  lemma NoRecords()
    ensures LastPage([]) == []
  {
  }
}
