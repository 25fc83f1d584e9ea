/** The random trace generator: a bitmap marks the keys added and not deleted, and each operation
    draws a key and probes for one that the operation may use. Draws are arbitrary; a loop that has not
    ended after `patience` steps ends the generation, because the original may loop for ever. */
module Workload {
  import opened Codec
  import opened Layout
  import opened StoreRun
  import opened Probing

  const WORKLOAD_SHIFT: nat := 10

  function ValueSize(r: nat): int {
    (r % MAX_VALUE_SIZE / 4 + 1) * 4
  }

  /** First key of the hot range in phase `k`. */
  function CenterShift(k: nat): nat {
    k * (MAX_KEY / WORKLOAD_SHIFT)
  }

  /** Sizes of the hot range for which the hot keys of every phase stay inside the bitmap. */
  predicate HotRangeOk(hot: int) {
    1 <= hot <= MAX_KEY - CenterShift(WORKLOAD_SHIFT - 1)
  }

  /** A drawn key of the hot range in phase `k`. */
  function HotKey(r: nat, hot: nat, k: nat): nat
    requires hot >= 1
  {
    r % hot + CenterShift(k)
  }

  /** ... and exactly for those. */
  lemma HotKeysInRange(hot: nat)
    requires hot >= 1
    ensures HotRangeOk(hot) <==> forall r: nat, k: nat :: k < WORKLOAD_SHIFT ==> HotKey(r, hot, k) < MAX_KEY
  {
    if !HotRangeOk(hot) {
      assert HotKey(hot - 1, hot, WORKLOAD_SHIFT - 1) >= MAX_KEY;
    }
  }

  /** The random numbers behind one operation: what decides its kind, the key and the value size. */
  datatype Draws = Draws(update: nat, warm: nat, delete: nat, key: nat, size: nat)

  /** How the draws of phase `k` determine the operation after the trace `before`; None if the probe gave
      up. Kind: ADD with probability 1 - `updateRate`; otherwise, with probability 1 - `hotDataRate`,
      MODIFY of a hot key; otherwise, of a cold key, one DELETE in ten and MODIFY. */
  ghost predicate Drawn(before: seq<Op>, op: Option<Op>, d: Draws, k: nat, hot: nat, hotDataRate: real,
                        updateRate: real, patience: nat)
    requires k < 10 && HotRangeOk(hot)
  {
    var keys, shift := Replay(before).Keys, k * 104857;
    var add := (d.update % 100 + 1) as real > 100.0 * updateRate;
    var warm := (d.warm % 100 + 1) as real > 100.0 * hotDataRate;
    var key: Option<nat> := if op.Some? && op.value.key >= 0 then Some(op.value.key) else None;
    && (op.Some? ==>
          && op.value.key >= 0 && (op.value.Add? <==> add)
          && (op.value.Delete? <==> !add && !warm && d.delete % 10 == 0)
          && (!op.value.Delete? ==> op.value.size == (d.size % 2048 / 4 + 1) * 4))
    && (add ==> Probed(keys, false, FreeProbe, d.key % 1048576, patience, key))
    && (!add && warm ==> Probed(keys, true, HotProbe(hot, shift), d.key % hot + shift, patience, key))
    && (!add && !warm ==>
          Probed(keys, true, ColdProbe(hot, shift), (d.key % (1048576 - hot) + hot + shift) % 1048576, patience, key))
  }

  /** With update rate 1 nothing is added, and below 1/100 nothing else is done; with a hot data rate
      below 1/100 nothing is deleted. */
  lemma ExtremeRates(before: seq<Op>, op: Op, d: Draws, k: nat, hot: nat, hotDataRate: real, updateRate: real,
                     patience: nat)
    requires k < 10 && HotRangeOk(hot)
    requires Drawn(before, Some(op), d, k, hot, hotDataRate, updateRate, patience)
    ensures updateRate >= 1.0 ==> !op.Add?
    ensures updateRate < 0.01 ==> op.Add?
    ensures hotDataRate < 0.01 ==> !op.Delete?
  {
    hide Replay, Probed;
  }

  lemma TraceExtends(trace: seq<Op>, op: Op)
    requires WellFormed(MAX_KEY, trace) && OpOk(MAX_KEY, Replay(trace), op)
    ensures WellFormed(MAX_KEY, trace + [op]) && Replay(trace + [op]) == Apply(Replay(trace), op)
  {
    assert (trace + [op])[..|trace|] == trace;
  }

  class WorkloadCreator {
    const bitmap: array<bool>
    var trace: seq<Op>

    /** The trace is well formed, and the bitmap marks the keys it leaves present. */
    ghost predicate Valid()
      reads this, bitmap
    {
      && bitmap.Length == MAX_KEY && WellFormed(MAX_KEY, trace)
      && forall k :: 0 <= k < MAX_KEY ==> (bitmap[k] <==> k in Replay(trace))
    }

    /** One operation was appended if `ok`, and none otherwise. */
    ghost predicate Extended(before: seq<Op>, ok: bool)
      reads this
    {
      before <= trace && |trace| == |before| + if ok then 1 else 0
    }

    constructor ()
      ensures Valid() && trace == [] && fresh(bitmap)
    {
      bitmap := new bool[MAX_KEY](k => false);
      trace := [];
    }

    method Emit(op: Op)
      requires Valid() && OpOk(MAX_KEY, Replay(trace), op)
      modifies this, bitmap
      ensures Valid() && trace == old(trace) + [op]
    {
      hide WellFormed, Replay;
      TraceExtends(trace, op);
      trace := trace + [op];
      bitmap[op.key] := !op.Delete?;
    }

    /** Redraws until the key is free; `draws` are the keys drawn. */
    method DrawFree(patience: nat) returns (key: Option<nat>, ghost draws: seq<nat>)
      requires Valid()
      ensures key.Some? ==> key.value < MAX_KEY && key.value !in Replay(trace)
      ensures forall i :: 0 <= i < |draws| ==> draws[i] < MAX_KEY
      ensures match key
        case Some(k) =>
          1 <= |draws| <= patience + 1 && k == draws[|draws| - 1] && k !in Replay(trace)
          && forall i :: 0 <= i < |draws| - 1 ==> draws[i] in Replay(trace)
        case None => |draws| == patience + 1 && forall i :: 0 <= i < |draws| ==> draws[i] in Replay(trace)
    {
      var r: nat := *;
      var k, n := r % MAX_KEY, 0;
      draws := [k];
      while bitmap[k] && n < patience
        invariant 0 <= k < MAX_KEY && 0 <= n <= patience && |draws| == n + 1 && draws[n] == k
        invariant forall i :: 0 <= i < |draws| ==> draws[i] < MAX_KEY
        invariant forall i :: 0 <= i < n ==> draws[i] in Replay(trace)
        decreases patience - n
      {
        r := *;
        k, n := r % MAX_KEY, n + 1;
        draws := draws + [k];
      }
      key := if bitmap[k] then None else Some(k);
    }

    /** Finds the first free key from `start` on, around the bitmap; with enough patience there is no
        other reason to fail than that no key is free. */
    method ProbeFree(start: nat, patience: nat) returns (key: Option<nat>)
      requires Valid() && start < MAX_KEY
      ensures Probed(Replay(trace).Keys, false, FreeProbe, start, patience, key)
      ensures key.Some? ==> key.value < MAX_KEY && key.value !in Replay(trace)
      ensures patience >= MAX_KEY ==> (key.Some? <==> exists k :: 0 <= k < MAX_KEY && k !in Replay(trace).Keys)
    {
      hide Replay, WellFormed;
      ghost var p := FreeProbe;
      var k, n := start, 0;
      while bitmap[k] && n < patience
        invariant 0 <= k < MAX_KEY && 0 <= n <= patience && k == Visit(p, start, n)
        invariant forall m :: 0 <= m < n ==> !Hit(Replay(trace).Keys, false, p, start, m)
        decreases patience - n
      {
        assert !Hit(Replay(trace).Keys, false, p, start, n);
        k, n := (k + 1) % MAX_KEY, n + 1;
      }
      key := if bitmap[k] then None else Some(k);
      assert Hit(Replay(trace).Keys, false, p, start, n) <==> !bitmap[k];
      FreeProbeEnds(Replay(trace).Keys, start);
      if patience >= MAX_KEY {
        PatienceSuffices(Replay(trace).Keys, false, p, start, patience, key);
      }
    }

    /** Finds the first present key that the probe of the hot range visits; with enough patience it
        fails only if no present hot key is congruent to the drawn one. */
    method ProbeHot(start: nat, hot: nat, shift: nat, patience: nat) returns (key: Option<nat>)
      requires Valid() && HotProbe(hot, shift).Valid() && shift <= start < shift + hot
      ensures Probed(Replay(trace).Keys, true, HotProbe(hot, shift), start, patience, key)
      ensures key.Some? ==> key.value < MAX_KEY && key.value in Replay(trace)
      ensures Gcd(shift + 1, hot) > 0
      ensures patience >= MAX_KEY ==>
                (key.Some? <==> exists k :: HotTarget(Replay(trace).Keys, hot, shift, start, k))
    {
      hide Replay, WellFormed, Gcd;
      ghost var p := HotProbe(hot, shift);
      var k, n := start, 0;
      while !bitmap[k] && n < patience
        invariant 0 <= k < MAX_KEY && 0 <= n <= patience && k == Visit(p, start, n)
        invariant forall m :: 0 <= m < n ==> !Hit(Replay(trace).Keys, true, p, start, m)
        decreases patience - n
      {
        assert !Hit(Replay(trace).Keys, true, p, start, n);
        k, n := (k + 1) % hot + shift, n + 1;
      }
      key := if bitmap[k] then Some(k) else None;
      assert Hit(Replay(trace).Keys, true, p, start, n) <==> bitmap[k];
      HotProbeEnds(Replay(trace).Keys, hot, shift, start);
      if patience >= MAX_KEY {
        PatienceSuffices(Replay(trace).Keys, true, p, start, patience, key);
      }
    }

    /** Finds the first present key that the probe for a cold key visits; with enough patience it fails
        only if no key that it ever visits is present. */
    method ProbeCold(start: nat, hot: nat, shift: nat, patience: nat) returns (key: Option<nat>)
      requires Valid() && start < MAX_KEY && ColdProbe(hot, shift).Valid()
      ensures Probed(Replay(trace).Keys, true, ColdProbe(hot, shift), start, patience, key)
      ensures key.Some? ==> key.value < MAX_KEY && key.value in Replay(trace)
      ensures patience >= MAX_KEY ==>
                (key.Some? <==> exists n :: n >= 0 && Visit(ColdProbe(hot, shift), start, n) in Replay(trace).Keys)
    {
      hide Replay, WellFormed;
      ghost var p := ColdProbe(hot, shift);
      var k, n := start, 0;
      while !bitmap[k] && n < patience
        invariant 0 <= k < MAX_KEY && 0 <= n <= patience && k == Visit(p, start, n)
        invariant forall m :: 0 <= m < n ==> !Hit(Replay(trace).Keys, true, p, start, m)
        decreases patience - n
      {
        assert !Hit(Replay(trace).Keys, true, p, start, n);
        assert k + MAX_KEY - hot - shift + 1 >= 0;
        k := ((k + MAX_KEY - hot - shift + 1) % (MAX_KEY - hot) + hot + shift) % MAX_KEY;
        n := n + 1;
      }
      key := if bitmap[k] then Some(k) else None;
      assert Hit(Replay(trace).Keys, true, p, start, n) <==> bitmap[k];
      if patience >= MAX_KEY {
        PatienceSuffices(Replay(trace).Keys, true, p, start, patience, key);
        assert forall m :: 0 <= m ==>
          (Hit(Replay(trace).Keys, true, p, start, m) <==> Visit(p, start, m) in Replay(trace).Keys);
      }
    }

    method AddKey(key: Option<nat>) returns (ok: bool, ghost size: nat)
      requires Valid() && (key.Some? ==> key.value < MAX_KEY && key.value !in Replay(trace))
      modifies this, bitmap
      ensures Valid() && (ok <==> key.Some?)
      ensures trace == if ok then old(trace) + [Add(key.value, (size % 2048 / 4 + 1) * 4)] else old(trace)
    {
      ok := key.Some?;
      var r: nat := *;
      size := r;
      if ok {
        Emit(Add(key.value, ValueSize(r)));
      }
    }

    method ModifyKey(key: Option<nat>) returns (ok: bool, ghost size: nat)
      requires Valid() && (key.Some? ==> key.value < MAX_KEY && key.value in Replay(trace))
      modifies this, bitmap
      ensures Valid() && (ok <==> key.Some?)
      ensures trace == if ok then old(trace) + [Modify(key.value, (size % 2048 / 4 + 1) * 4)] else old(trace)
    {
      ok := key.Some?;
      var r: nat := *;
      size := r;
      if ok {
        Emit(Modify(key.value, ValueSize(r)));
      }
    }

    method DeleteKey(key: Option<nat>) returns (ok: bool)
      requires Valid() && (key.Some? ==> key.value < MAX_KEY && key.value in Replay(trace))
      modifies this, bitmap
      ensures Valid() && (ok <==> key.Some?)
      ensures trace == if ok then old(trace) + [Delete(key.value)] else old(trace)
    {
      ok := key.Some?;
      if ok {
        Emit(Delete(key.value));
      }
    }

    static function Chance(r: nat): real {
      (r % 100 + 1) as real / 100.0
    }

    /** One operation of phase `k`, as `draws` determine it. */
    method Operation(k: nat, hot: nat, hotDataRate: real, updateRate: real, patience: nat)
      returns (ok: bool, ghost draws: Draws)
      requires Valid() && k < WORKLOAD_SHIFT && HotRangeOk(hot)
      modifies this, bitmap
      ensures Valid() && Extended(old(trace), ok)
      ensures Drawn(old(trace), if ok then Some(trace[|old(trace)|]) else None, draws, k, hot, hotDataRate, updateRate,
                    patience)
    {
      hide WellFormed, Replay, Probed;
      var shift := CenterShift(k);
      var r0: nat, r1: nat, r2: nat, r3: nat := *, *, *, *;
      ghost var size := 0;
      if Chance(r0) > updateRate {
        var key := ProbeFree(r2 % MAX_KEY, patience);
        ok, size := AddKey(key);
      } else if Chance(r1) > hotDataRate {
        var key := ProbeHot(r2 % hot + shift, hot, shift, patience);
        ok, size := ModifyKey(key);
      } else {
        var key := ProbeCold((r2 % (MAX_KEY - hot) + hot + shift) % MAX_KEY, hot, shift, patience);
        if r3 % 10 == 0 {
          ok := DeleteKey(key);
        } else {
          ok, size := ModifyKey(key);
        }
      }
      draws := Draws(r0, r1, r3, r2, size);
    }

    /** The keys added before the first phase: a tenth of the hot range, rounded up, and nothing else. */
    method Preload(hot: nat, patience: nat) returns (ok: bool)
      requires Valid()
      modifies this, bitmap
      ensures Valid() && old(trace) <= trace && |trace| <= |old(trace)| + (hot + 9) / 10
      ensures ok ==> |trace| == |old(trace)| + (hot + 9) / 10
      ensures forall i :: |old(trace)| <= i < |trace| ==> trace[i].Add?
    {
      hide WellFormed, Replay;
      var i := 0;
      ghost var size;
      ok := true;
      while ok && i as real < hot as real * 0.1
        invariant Valid() && old(trace) <= trace && 0 <= i && (i == 0 || 10 * (i - 1) < hot)
        invariant |trace| <= |old(trace)| + i && (ok ==> |trace| == |old(trace)| + i)
        invariant forall n :: |old(trace)| <= n < |trace| ==> trace[n].Add?
        decreases hot - i, ok
      {
        var key, _ := DrawFree(patience);
        ok, size := AddKey(key);
        i := i + 1;
      }
    }

    /** What is known of the operations after the first `pre`: their draws, one phase after the other. */
    ghost predicate AllDrawn(pre: nat, draws: seq<Draws>, phases: seq<nat>, length: nat, hot: nat, hotDataRate: real,
                             updateRate: real, patience: nat)
      reads this
    {
      && HotRangeOk(hot) && |draws| == |phases| && (|trace| >= pre ==> |trace| <= pre + |draws|)
      && (forall m :: 0 <= m < |phases| ==> phases[m] < 10 && phases[m] * length <= m < phases[m] * length + length)
      && (forall i :: pre <= i < |trace| ==>
            Drawn(trace[..i], Some(trace[i]), draws[i - pre], phases[i - pre], hot, hotDataRate, updateRate, patience))
    }

    /** The second constructor: whatever is drawn, and wherever the generation ends, the trace is well
        formed, and so is every prefix of it; after the ADDs of the preload each operation is the one
        drawn; a complete trace has all its operations. */
    method Create(length: nat, hotDataRate: real, updateRate: real, patience: nat)
      returns (complete: bool, ghost draws: seq<Draws>, ghost phases: seq<nat>)
      requires Valid() && trace == [] && HotRangeOk((MAX_KEY as real * hotDataRate).Floor)
      modifies this, bitmap
      ensures Valid() && forall n :: 0 <= n <= |trace| ==> WellFormed(MAX_KEY, trace[..n])
      ensures var hot := (MAX_KEY as real * hotDataRate).Floor;
        var pre := (hot + 9) / 10;
        && (complete ==> |trace| == pre + WORKLOAD_SHIFT * length)
        && (forall i :: 0 <= i < |trace| && i < pre ==> trace[i].Add?)
        && AllDrawn(pre, draws, phases, length, hot, hotDataRate, updateRate, patience)
      ensures updateRate >= 1.0 ==>
                forall i :: ((MAX_KEY as real * hotDataRate).Floor + 9) / 10 <= i < |trace| ==> !trace[i].Add?
    {
      hide WellFormed, Replay, Drawn;
      var hot: nat := (MAX_KEY as real * hotDataRate).Floor;
      ghost var pre := (hot + 9) / 10;
      draws, phases := [], [];
      complete := Preload(hot, patience);
      for k := 0 to WORKLOAD_SHIFT
        invariant Valid() && (complete ==> |trace| == pre + k * length && |draws| == k * length)
        invariant forall i :: 0 <= i < |trace| && i < pre ==> trace[i].Add?
        invariant AllDrawn(pre, draws, phases, length, hot, hotDataRate, updateRate, patience)
      {
        complete, draws, phases :=
          Phase(k, length, hot, hotDataRate, updateRate, patience, complete, pre, draws, phases);
      }
      forall n | 0 <= n <= |trace| ensures WellFormed(MAX_KEY, trace[..n]) {
        PrefixOk(MAX_KEY, trace, n);
      }
      forall i | pre <= i < |trace| && updateRate >= 1.0 ensures !trace[i].Add? {
        ExtremeRates(trace[..i], trace[i], draws[i - pre], phases[i - pre], hot, hotDataRate, updateRate, patience);
      }
    }

    /** The operations of one phase. */
    method Phase(k: nat, length: nat, hot: nat, hotDataRate: real, updateRate: real, patience: nat, complete0: bool,
                 ghost pre: nat, ghost draws0: seq<Draws>, ghost phases0: seq<nat>)
      returns (complete: bool, ghost draws: seq<Draws>, ghost phases: seq<nat>)
      requires Valid() && k < WORKLOAD_SHIFT && HotRangeOk(hot)
      requires complete0 ==> |trace| == pre + k * length && |draws0| == k * length
      requires forall i :: 0 <= i < |trace| && i < pre ==> trace[i].Add?
      requires AllDrawn(pre, draws0, phases0, length, hot, hotDataRate, updateRate, patience)
      modifies this, bitmap
      ensures Valid() && (complete ==> |trace| == pre + k * length + length && |draws| == k * length + length)
      ensures forall i :: 0 <= i < |trace| && i < pre ==> trace[i].Add?
      ensures AllDrawn(pre, draws, phases, length, hot, hotDataRate, updateRate, patience)
    {
      hide WellFormed, Replay, Drawn;
      complete, draws, phases := complete0, draws0, phases0;
      var i := 0;
      while complete && i < length
        invariant Valid() && i <= length
        invariant complete ==> |trace| == pre + k * length + i && |draws| == k * length + i
        invariant forall n :: 0 <= n < |trace| && n < pre ==> trace[n].Add?
        invariant AllDrawn(pre, draws, phases, length, hot, hotDataRate, updateRate, patience)
        decreases length - i, complete
      {
        ghost var before := trace;
        ghost var d;
        complete, d := Operation(k, hot, hotDataRate, updateRate, patience);
        draws, phases := draws + [d], phases + [k];
        assert forall n :: 0 <= n <= |before| ==> trace[..n] == before[..n];
        assert before[..|before|] == before;
        i := i + 1;
      }
    }
  }
}
