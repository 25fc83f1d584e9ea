/** The scans of `myInsert` that choose the zone for a page, as functions of the number of zones
    already scanned, and what the lifetime branch computes. */
module Placement {
  import opened Layout

  /** Initial `delta` of the nearest-lifetime scan. */
  const MAX_DELTA: real := 100000.0

  function Distance(x: real, y: real): real {
    if x >= y then x - y else y - x
  }

  /** First index below `n` that is ok. */
  function FirstOk(ok: seq<bool>, n: nat): Option<nat>
    requires n <= |ok|
  {
    if n == 0 then None
    else if FirstOk(ok, n - 1).Some? then FirstOk(ok, n - 1)
    else if ok[n - 1] then Some(n - 1) else None
  }

  /** The lowest index of the greatest positive score among the ok ones. */
  function ArgMax(score: seq<real>, ok: seq<bool>, n: nat): (r: Option<nat>)
    requires n <= |score| == |ok|
    ensures r.Some? ==> r.value < n && ok[r.value] && score[r.value] > 0.0
  {
    if n == 0 then None
    else
      var p := ArgMax(score, ok, n - 1);
      if ok[n - 1] && score[n - 1] > (if p.Some? then score[p.value] else 0.0) then Some(n - 1) else p
  }

  /** The lowest index of the least distance below `MAX_DELTA` among the ok ones. */
  function ArgMin(dist: seq<real>, ok: seq<bool>, n: nat): (r: Option<nat>)
    requires n <= |dist| == |ok|
    ensures r.Some? ==> r.value < n && ok[r.value] && dist[r.value] < MAX_DELTA
  {
    if n == 0 then None
    else
      var p := ArgMin(dist, ok, n - 1);
      if ok[n - 1] && (if p.Some? then dist[p.value] else MAX_DELTA) > dist[n - 1] then Some(n - 1) else p
  }

  function Without(ok: seq<bool>, can: seq<bool>): (r: seq<bool>)
    requires |ok| == |can|
    ensures |r| == |ok|
  {
    seq(|ok|, i requires 0 <= i < |ok| == |can| => ok[i] && !can[i])
  }

  datatype Scan = Scan(can: seq<bool>, zone: nat)

  /** The candidates after some rounds of the nearest-lifetime scan, and the last zone assigned;
      no zone is a candidate at first, and a round that finds no new zone marks the last one again. */
  function Candidates(dist: seq<real>, ok: seq<bool>, rounds: nat, zone: nat): (r: Scan)
    requires |dist| == |ok| && zone < |ok|
    ensures |r.can| == |ok| && r.zone < |ok|
  {
    if rounds == 0 then Scan(seq(|ok|, i => false), zone)
    else
      var s := Candidates(dist, ok, rounds - 1, zone);
      match ArgMin(dist, Without(ok, s.can), |ok|)
      case Some(p) => Scan(s.can[p := true], p)
      case None => Scan(s.can[s.zone := true], s.zone)
  }

  lemma NoCandidates(dist: seq<real>, ok: seq<bool>, zone: nat)
    requires |dist| == |ok| && zone < |ok|
    ensures Candidates(dist, ok, 0, zone) == Scan(seq(|ok|, i => false), zone)
  {
  }

  lemma CandidatesStep(dist: seq<real>, ok: seq<bool>, rounds: nat, zone: nat)
    requires |dist| == |ok| && zone < |ok|
    ensures var s := Candidates(dist, ok, rounds, zone);
      var z := match ArgMin(dist, Without(ok, s.can), |ok|) case Some(p) => p case None => s.zone;
      Candidates(dist, ok, rounds + 1, zone) == Scan(s.can[z := true], z)
  {
  }

  lemma {:induction false} CandidatesOk(dist: seq<real>, ok: seq<bool>, rounds: nat, zone: nat)
    requires |dist| == |ok| && zone < |ok| && ok[zone]
    ensures var s := Candidates(dist, ok, rounds, zone);
      ok[s.zone] && forall i :: 0 <= i < |ok| && s.can[i] ==> ok[i]
  {
    if rounds > 0 {
      CandidatesOk(dist, ok, rounds - 1, zone);
    }
  }

  // ---------- what the scans find ----------

  lemma {:induction false} FirstOkFinds(ok: seq<bool>, n: nat)
    requires n <= |ok|
    ensures match FirstOk(ok, n)
      case Some(z) => z < n && ok[z] && forall i :: 0 <= i < z ==> !ok[i]
      case None => forall i :: 0 <= i < n ==> !ok[i]
  {
    if n > 0 {
      FirstOkFinds(ok, n - 1);
    }
  }

  lemma {:induction false} ArgMaxFinds(score: seq<real>, ok: seq<bool>, n: nat)
    requires n <= |score| == |ok|
    ensures match ArgMax(score, ok, n)
      case Some(z) => forall i :: 0 <= i < n && ok[i] ==>
          score[i] < score[z] || (score[i] == score[z] && z <= i)
      case None => forall i :: 0 <= i < n && ok[i] ==> score[i] <= 0.0
  {
    if n > 0 {
      ArgMaxFinds(score, ok, n - 1);
    }
  }

  /** `a` comes before `b`: nearer, or as near and of lower index. */
  predicate Nearer(dist: seq<real>, a: nat, b: nat)
    requires a < |dist| && b < |dist|
  {
    dist[a] < dist[b] || (dist[a] == dist[b] && a <= b)
  }

  lemma {:induction false} ArgMinFinds(dist: seq<real>, ok: seq<bool>, n: nat)
    requires n <= |dist| == |ok|
    requires forall i :: 0 <= i < n ==> dist[i] < MAX_DELTA
    ensures match ArgMin(dist, ok, n)
      case Some(z) => forall i :: 0 <= i < n && ok[i] ==> Nearer(dist, z, i)
      case None => forall i :: 0 <= i < n ==> !ok[i]
  {
    if n > 0 {
      ArgMinFinds(dist, ok, n - 1);
    }
  }

  function Marked(ok: seq<bool>): set<nat> {
    set i: nat | i < |ok| && ok[i]
  }

  lemma MarkOne(can: seq<bool>, z: nat)
    requires z < |can|
    ensures Marked(can[z := true]) == Marked(can) + {z}
  {
  }

  /** `can` marks exactly the `min(n, eligible)` nearest eligible zones: that many, all eligible,
      and none left out that comes before one of them. */
  ghost predicate NearestSet(dist: seq<real>, ok: seq<bool>, can: seq<bool>, n: nat)
    requires |dist| == |ok| == |can|
  {
    && Marked(can) <= Marked(ok)
    && |Marked(can)| == (if n <= |Marked(ok)| then n else |Marked(ok)|)
    && forall a, b :: a in Marked(can) && b in Marked(ok) && b !in Marked(can) ==> Nearer(dist, a, b)
  }

  lemma NearestExtends(dist: seq<real>, ok: seq<bool>, can: seq<bool>, n: nat, p: nat)
    requires |dist| == |ok| == |can| && p < |ok|
    requires NearestSet(dist, ok, can, n)
    requires ok[p] && !can[p]
    requires forall i :: 0 <= i < |ok| && ok[i] && !can[i] ==> Nearer(dist, p, i)
    ensures NearestSet(dist, ok, can[p := true], n + 1)
  {
    MarkOne(can, p);
    assert p in Marked(ok) && p !in Marked(can);
    SubsetSize(Marked(can) + {p}, Marked(ok));
  }

  lemma NearestSaturates(dist: seq<real>, ok: seq<bool>, can: seq<bool>, n: nat, z: nat)
    requires |dist| == |ok| == |can| && z < |ok|
    requires NearestSet(dist, ok, can, n)
    requires ok[z] && forall i :: 0 <= i < |ok| && ok[i] ==> can[i]
    ensures NearestSet(dist, ok, can[z := true], n + 1)
  {
    assert Marked(can) == Marked(ok);
    MarkOne(can, z);
    assert Marked(can[z := true]) == Marked(ok);
  }

  /** The candidates of the lifetime branch are exactly the nearest eligible zones, as many as there
      were rounds; the zone assigned last is eligible, and the farthest of them. */
  lemma {:induction false} CandidatesAreNearest(dist: seq<real>, ok: seq<bool>, rounds: nat, zone: nat)
    requires |dist| == |ok| && zone < |ok| && ok[zone]
    requires forall i :: 0 <= i < |dist| ==> dist[i] < MAX_DELTA
    ensures var s := Candidates(dist, ok, rounds, zone);
      && ok[s.zone] && NearestSet(dist, ok, s.can, rounds)
      && (rounds > 0 ==> s.can[s.zone] && forall a :: a in Marked(s.can) ==> Nearer(dist, a, s.zone))
  {
    if rounds == 0 {
      assert Marked(Candidates(dist, ok, rounds, zone).can) == {};
    } else {
      CandidatesAreNearest(dist, ok, rounds - 1, zone);
      var s := Candidates(dist, ok, rounds - 1, zone);
      var left := Without(ok, s.can);
      ArgMinFinds(dist, left, |ok|);
      match ArgMin(dist, left, |ok|) {
        case Some(p) =>
          assert forall i :: 0 <= i < |ok| && ok[i] && !s.can[i] ==> left[i];
          NearestExtends(dist, ok, s.can, rounds - 1, p);
          MarkOne(s.can, p);
        case None =>
          forall i | 0 <= i < |ok| && ok[i] ensures s.can[i] {
            assert !left[i];
          }
          NearestSaturates(dist, ok, s.can, rounds - 1, s.zone);
          MarkOne(s.can, s.zone);
      }
    }
  }
}
