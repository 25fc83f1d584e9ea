/** The whole program: the trace generator feeds the simulation, and whatever it draws, the store
    ends up holding what the trace stands for. */
module EndToEnd {
  import opened Codec
  import opened Packing
  import opened Layout
  import opened StoreModel
  import opened StoreInvariant
  import opened StoreRun
  import opened LoopSteps
  import opened Probing
  import opened Workload
  import opened Simulation

  /** A run reaches every prefix of its trace, and holds at each what that prefix stands for. */
  lemma EveryPrefix(c: Config, trace: seq<Op>, n: nat)
    requires c.Valid() && WellFormed(c.maxKey, trace) && Run(c, trace).Some? && n <= |trace|
    ensures Run(c, trace[..n]).Some?
    ensures SystemOk(c, Run(c, trace[..n]).value) && Stored(c, Run(c, trace[..n]).value) == Replay(trace[..n])
  {
    if Run(c, trace[..n]) == None {
      RunStops(c, trace, n);
    }
    PrefixOk(c.maxKey, trace, n);
    RunRefines(c, trace[..n]);
  }

  /** The invariant of every reachable state, spelled out for a block `b` and a key `k`: the block is
      EMPTY exactly at or past its zone's write pointer; it has a lifetime, of at most 1000, exactly
      when VALID; the keys of a VALID page are distinct and indexed to it; a stored key is indexed to
      a VALID page that holds it; and the collection queue is short of starting a collection. */
  lemma ReachableStates(c: Config, trace: seq<Op>, b: nat, k: nat)
    requires c.Valid() && WellFormed(c.maxKey, trace) && Run(c, trace).Some?
    requires b < c.Blocks() && k < c.maxKey
    ensures var st := Run(c, trace).value.store;
      && ZoneOf(c.bpz, b) < c.zones
      && (st.status[b] == BlockEmpty <==> OffsetOf(c.bpz, b) >= st.fill[ZoneOf(c.bpz, b)])
      && (st.status[b] == BlockValid <==> st.blockLife[b] >= 0) && st.blockLife[b] <= 1000
      && (st.status[b] == BlockValid ==> DistinctKeys(st.pages[b]))
      && (st.status[b] == BlockValid && k in RecordMap(st.pages[b]) ==> st.keyIndex[k] == b)
      && (st.keyIndex[k] != NO_BLOCK ==>
            st.status[st.keyIndex[k]] == BlockValid && k in RecordMap(st.pages[st.keyIndex[k]]))
      && QueueLength(st.queued, c.zones) < c.gl
  {
    RunRefines(c, trace);
    var st := Run(c, trace).value.store;
    ZoneInRange(c.bpz, c.zones, b);
    assert BlockOk(c, st, b);
    assert Live(c, st, -1, b) && Holds(st, b, k) ==> st.keyIndex[k] == b;
    if st.keyIndex[k] != NO_BLOCK {
      assert Live(c, st, -1, st.keyIndex[k]);
    }
  }

  /** `main`: generate a workload, initialize the simulation, run it. The run succeeds unless a page
      finds no zone, and then the stored pairs and the unwritten ADD buffer are the trace's map. */
  method Simulate(c: Config, length: nat, hotDataRate: real, updateRate: real, patience: nat)
    returns (ok: bool, sim: ZnsSimulation, trace: seq<Op>, buffer: seq<Record>)
    requires c.Valid() && c.maxKey == MAX_KEY && HotRangeOk((MAX_KEY as real * hotDataRate).Floor)
    ensures WellFormed(MAX_KEY, trace) && (ok <==> Run(c, trace).Some?)
    ensures ok ==> sim.c == c && sim.Valid()
                   && Contents(c, sim.State(), {}) + RecordMap(buffer) == Replay(trace)
  {
    hide WellFormed, Replay, Run, Contents, RecordMap;
    var workload := new WorkloadCreator();
    var complete;
    ghost var draws, phases;
    complete, draws, phases := workload.Create(length, hotDataRate, updateRate, patience);
    trace := workload.trace;
    sim := new ZnsSimulation(c);
    sim.Initialize();
    var load;
    ok, buffer, load := sim.RequestWorkload(trace);
  }
}
