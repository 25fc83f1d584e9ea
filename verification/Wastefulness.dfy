/** When a zone is queued for collection, in terms of its blocks alone: its share of INVALID blocks, and the
    spread of its positive block lifetimes as the sum of their squared differences. */
module Wastefulness {
  import opened Layout
  import opened StoreModel
  import opened StoreRun

  // ---------- lists of lifetimes ----------

  /** The positive lifetimes of the blocks from `lo` up to `hi`. */
  function Positive(life: seq<int>, lo: nat, hi: nat): seq<int>
    requires lo <= hi <= |life|
  {
    if lo == hi then []
    else Positive(life, lo, hi - 1) + if life[hi - 1] > 0 then [life[hi - 1]] else []
  }

  function Total(xs: seq<int>): int {
    if xs == [] then 0 else Total(xs[..|xs| - 1]) + xs[|xs| - 1]
  }

  function Squares(xs: seq<int>): int {
    if xs == [] then 0 else Squares(xs[..|xs| - 1]) + xs[|xs| - 1] * xs[|xs| - 1]
  }

  /** Sum of the squared differences of `y` to the elements. */
  function Apart(xs: seq<int>, y: int): int {
    if xs == [] then 0 else Apart(xs[..|xs| - 1], y) + (xs[|xs| - 1] - y) * (xs[|xs| - 1] - y)
  }

  /** Sum of the squared differences of all pairs. */
  function PairSum(xs: seq<int>): int {
    if xs == [] then 0 else PairSum(xs[..|xs| - 1]) + Apart(xs[..|xs| - 1], xs[|xs| - 1])
  }

  lemma {:induction false} ApartIs(xs: seq<int>, y: int)
    ensures Apart(xs, y) == Squares(xs) - 2 * y * Total(xs) + |xs| * (y * y)
  {
    if xs != [] {
      var n := |xs| - 1;
      var x := xs[n];
      ApartIs(xs[..n], y);
      assert (x - y) * (x - y) == x * x - 2 * y * x + y * y;
      assert 2 * y * (Total(xs[..n]) + x) == 2 * y * Total(xs[..n]) + 2 * y * x;
      assert (n + 1) * (y * y) == n * (y * y) + y * y;
    }
  }

  lemma {:induction false} PairSumIs(xs: seq<int>)
    ensures PairSum(xs) == |xs| * Squares(xs) - Total(xs) * Total(xs)
  {
    if xs != [] {
      var n := |xs| - 1;
      var y, s, q := xs[n], Total(xs[..n]), Squares(xs[..n]);
      PairSumIs(xs[..n]);
      ApartIs(xs[..n], y);
      AddOne(n, y, s, q);
    }
  }

  lemma AddOne(n: int, y: int, s: int, q: int)
    ensures (n + 1) * (q + y * y) - (s + y) * (s + y) == n * q - s * s + (q - 2 * y * s + n * (y * y))
  {
    assert (n + 1) * (q + y * y) == n * q + n * (y * y) + q + y * y;
    assert (s + y) * (s + y) == s * s + 2 * y * s + y * y;
  }

  // ---------- the variance ----------

  lemma PositiveStep(life: seq<int>, lo: nat, hi: nat)
    requires lo < hi <= |life|
    ensures life[hi - 1] > 0 ==> Positive(life, lo, hi) == Positive(life, lo, hi - 1) + [life[hi - 1]]
    ensures life[hi - 1] <= 0 ==> Positive(life, lo, hi) == Positive(life, lo, hi - 1)
  {
    assert Positive(life, lo, hi - 1) + [] == Positive(life, lo, hi - 1);
  }

  lemma Appended(xs: seq<int>, x: int)
    ensures Total(xs + [x]) == Total(xs) + x && Squares(xs + [x]) == Squares(xs) + x * x
  {
    assert (xs + [x])[..|xs|] == xs;
  }

  lemma {:induction false} PositiveSums(life: seq<int>, lo: nat, hi: nat)
    requires lo <= hi <= |life|
    ensures LifeSum(life, lo, hi) == Total(Positive(life, lo, hi))
    ensures LifeCount(life, lo, hi) == |Positive(life, lo, hi)|
  {
    if lo < hi {
      hide Positive, Total;
      PositiveSums(life, lo, hi - 1);
      PositiveStep(life, lo, hi);
      Appended(Positive(life, lo, hi - 1), life[hi - 1]);
    }
  }

  /** Sum of the squared differences to `avg`, multiplied out. */
  function Spread(xs: seq<int>, avg: real): real {
    Squares(xs) as real - 2.0 * avg * Total(xs) as real + |xs| as real * (avg * avg)
  }

  lemma SpreadStep(xs: seq<int>, x: int, avg: real)
    ensures Spread(xs + [x], avg) == Spread(xs, avg) + (x as real - avg) * (x as real - avg)
  {
    Appended(xs, x);
    hide Squares, Total;
    SquareIs(x as real, avg);
    RealProduct(x, x);
    Distribute(avg, Total(xs) as real, x as real, |xs| as real);
  }

  lemma DeviationStep(life: seq<int>, lo: nat, hi: nat, avg: real)
    requires lo < hi <= |life|
    ensures life[hi - 1] <= 0 ==> Deviation(life, lo, hi, avg) == Deviation(life, lo, hi - 1, avg)
    ensures life[hi - 1] > 0 ==>
              var d := life[hi - 1] as real - avg;
              Deviation(life, lo, hi, avg) == Deviation(life, lo, hi - 1, avg) + d * d
  {
  }

  lemma NothingSpread(avg: real)
    ensures Spread([], avg) == 0.0
  {
  }

  lemma {:induction false} DeviationIs(life: seq<int>, lo: nat, hi: nat, avg: real)
    requires lo <= hi <= |life|
    ensures Deviation(life, lo, hi, avg) == Spread(Positive(life, lo, hi), avg)
  {
    hide Spread;
    if lo == hi {
      NothingSpread(avg);
    } else {
      hide Positive, Deviation;
      DeviationIs(life, lo, hi - 1, avg);
      PositiveStep(life, lo, hi);
      DeviationStep(life, lo, hi, avg);
      SpreadStep(Positive(life, lo, hi - 1), life[hi - 1], avg);
    }
  }

  lemma SquareIs(x: real, y: real)
    ensures (x - y) * (x - y) == x * x - 2.0 * y * x + y * y
  {
  }

  lemma Distribute(avg: real, s: real, x: real, n: real)
    ensures 2.0 * avg * (s + x) == 2.0 * avg * s + 2.0 * avg * x
    ensures (n + 1.0) * (avg * avg) == n * (avg * avg) + avg * avg
  {
  }

  /** The variance of a zone, times the square of the number n of its positive lifetimes, is the sum of the
      squared differences of all pairs of them; there is none exactly if n is 0. */
  lemma VarianceIsPairSum(life: seq<int>, lo: nat, hi: nat)
    requires lo <= hi <= |life|
    ensures var xs, v := Positive(life, lo, hi), Variance(life, lo, hi);
      && (v == None <==> xs == [])
      && (v.Some? ==> v.value * (|xs| * |xs|) as real == PairSum(xs) as real)
  {
    hide Positive, Deviation, LifeSum, LifeCount, Squares, Total, PairSum;
    var xs := Positive(life, lo, hi);
    PositiveSums(life, lo, hi);
    if xs != [] {
      var n, s := |xs| as real, Total(xs) as real;
      DeviationIs(life, lo, hi, s / n);
      PairSumIs(xs);
      RealProduct(Total(xs), Total(xs));
      RealProduct(|xs|, Squares(xs));
      RealProduct(|xs|, |xs|);
      Scale(n, s, Squares(xs) as real, Deviation(life, lo, hi, s / n));
    }
  }

  lemma RealProduct(x: int, y: int)
    ensures (x * y) as real == x as real * y as real
  {
  }

  lemma Scale(n: real, s: real, q: real, d: real)
    requires n > 0.0 && d == q - 2.0 * (s / n) * s + n * ((s / n) * (s / n))
    ensures d / n * (n * n) == n * q - s * s
  {
    var a := s / n;
    assert a * n == s;
    assert n * (a * a) == a * s;
    assert d == q - a * s;
    assert n * (a * s) == s * s;
    assert d / n * (n * n) == d * n by {
      var e := d / n;
      assert e * n == d;
    }
  }

  // ---------- the queue ----------

  /** The blocks from `lo` up to `hi` in state `x`. */
  function BlocksIn(s: seq<BlockStatus>, lo: nat, hi: nat, x: BlockStatus): set<nat>
    requires lo <= hi <= |s|
  {
    set b: nat | lo <= b < hi && s[b] == x
  }

  lemma {:induction false} CountIsSize(s: seq<BlockStatus>, lo: nat, hi: nat, x: BlockStatus)
    requires lo <= hi <= |s|
    ensures Count(s, lo, hi, x) == |BlocksIn(s, lo, hi, x)|
  {
    if lo < hi {
      CountIsSize(s, lo, hi - 1, x);
      assert BlocksIn(s, lo, hi, x) == BlocksIn(s, lo, hi - 1, x) + if s[hi - 1] == x then {hi - 1} else {};
    } else {
      assert BlocksIn(s, lo, hi, x) == {};
    }
  }

  lemma {:induction false} QueueLengthIsSize(q: seq<bool>, n: nat)
    requires n <= |q|
    ensures QueueLength(q, n) == |set z: nat | z < n && q[z]|
  {
    var now := set z: nat | z < n && q[z];
    if n > 0 {
      QueueLengthIsSize(q, n - 1);
      var before := set z: nat | z < n - 1 && q[z];
      assert now == before + if q[n - 1] then {n - 1} else {};
    } else {
      assert now == {};
    }
  }

  lemma Ratio(x: real, n: real, s: real)
    requires n > 0.0
    ensures x / n > s <==> x > s * n
  {
    var q := x / n;
    assert q * n == x;
    assert (q - s) * n == x - s * n;
  }

  /** More than the share `sg` of the zone's blocks is INVALID. */
  ghost predicate ManyInvalid(c: Config, st: Store, z: nat)
    requires Shape(c, st) && z < c.zones
  {
    FirstMonotone(c.bpz, z, c.zones);
    var lo := First(c.bpz, z);
    |BlocksIn(st.status, lo, lo + c.bpz, BlockInvalid)| as real > c.sg * c.bpz as real
  }

  /** The n positive lifetimes of the zone's blocks: their pairs differ by more than `sl` n^2 in all. */
  ghost predicate Scattered(c: Config, st: Store, z: nat)
    requires Shape(c, st) && z < c.zones
  {
    FirstMonotone(c.bpz, z, c.zones);
    var xs := Positive(st.blockLife, First(c.bpz, z), First(c.bpz, z) + c.bpz);
    xs != [] && PairSum(xs) as real > c.sl * (|xs| * |xs|) as real
  }

  /** Less than the share `se` of the zone's capacity is free. */
  ghost predicate FillingUp(c: Config, st: Store, z: nat)
    requires Shape(c, st) && z < c.zones
  {
    (c.cap[z] - st.fill[z]) as real < c.se * c.cap[z] as real
  }

  lemma EmptyRateIs(c: Config, st: Store, z: nat)
    requires Shape(c, st) && z < c.zones
    ensures EmptyRate(c.cap[z], st.fill[z]) < c.se <==> FillingUp(c, st, z)
  {
    var cap, fill := c.cap[z] as real, st.fill[z] as real;
    Ratio(fill, cap, 1.0 - c.se);
    assert (1.0 - c.se) * cap == cap - c.se * cap;
  }

  lemma RateIs(s: seq<BlockStatus>, lo: nat, bpz: nat, sg: real)
    requires lo + bpz <= |s| && bpz > 0
    ensures GarbageRate(s, lo, bpz) > sg <==> |BlocksIn(s, lo, lo + bpz, BlockInvalid)| as real > sg * bpz as real
  {
    hide Count, BlocksIn;
    CountIsSize(s, lo, lo + bpz, BlockInvalid);
    Ratio(Count(s, lo, lo + bpz, BlockInvalid) as real, bpz as real, sg);
  }

  lemma GarbageIs(c: Config, st: Store, z: nat)
    requires Shape(c, st) && z < c.zones
    ensures First(c.bpz, z) + c.bpz <= |st.status|
    ensures GarbageRate(st.status, First(c.bpz, z), c.bpz) > c.sg <==> ManyInvalid(c, st, z)
  {
    hide GarbageRate, BlocksIn;
    FirstMonotone(c.bpz, z, c.zones);
    RateIs(st.status, First(c.bpz, z), c.bpz, c.sg);
  }

  lemma Bound(v: real, n: nat, p: int, sl: real)
    requires n > 0 && v * (n * n) as real == p as real
    ensures v > sl <==> p as real > sl * (n * n) as real
  {
    RealProduct(n, n);
    var m := (n * n) as real;
    assert m > 0.0;
    assert (v - sl) * m == p as real - sl * m;
  }

  lemma VarianceIs(c: Config, st: Store, z: nat)
    requires Shape(c, st) && z < c.zones
    ensures First(c.bpz, z) + c.bpz <= |st.blockLife|
    ensures (match Variance(st.blockLife, First(c.bpz, z), First(c.bpz, z) + c.bpz)
             case None => false case Some(v) => v > c.sl) <==> Scattered(c, st, z)
  {
    hide Variance, Positive, PairSum;
    FirstMonotone(c.bpz, z, c.zones);
    var lo := First(c.bpz, z);
    var xs, v := Positive(st.blockLife, lo, lo + c.bpz), Variance(st.blockLife, lo, lo + c.bpz);
    VarianceIsPairSum(st.blockLife, lo, lo + c.bpz);
    if xs != [] {
      Bound(v.value, |xs|, PairSum(xs), c.sl);
    }
  }

  /** The test of detection: the zone is not queued, it fills up, and it has many INVALID blocks or
      scattered lifetimes. */
  lemma WastefulExactly(c: Config, st: Store, z: nat)
    requires Shape(c, st) && z < c.zones
    ensures Wasteful(c, RefreshRates(c, st), z)
            <==> !st.queued[z] && FillingUp(c, st, z) && (ManyInvalid(c, st, z) || Scattered(c, st, z))
  {
    hide Variance, GarbageRate, EmptyRate, FillingUp, ManyInvalid, Scattered;
    EmptyRateIs(c, st, z);
    GarbageIs(c, st, z);
    VarianceIs(c, st, z);
  }

  /** Detection queues every zone that meets the test, unless it already had `gl` zones before it came
      to that one; and it queues no others. */
  lemma DetectionQueues(c: Config, st: Store, z: nat)
    requires Shape(c, st) && z < c.zones && QueueLength(st.queued, c.zones) < c.gl
    ensures var q, n := Detected(c, st).queued, |set y: nat | y < c.zones && Detected(c, st).queued[y]|;
      && n <= c.gl && (st.queued[z] ==> q[z])
      && (q[z] && !st.queued[z] ==> FillingUp(c, st, z) && (ManyInvalid(c, st, z) || Scattered(c, st, z)))
      && (FillingUp(c, st, z) && (ManyInvalid(c, st, z) || Scattered(c, st, z)) ==>
            q[z] || (n == c.gl && forall y :: 0 <= y < c.zones && q[y] && !st.queued[y] ==> y < z))
      && Detect(c, st) == if n < c.gl then Some(Detected(c, st)) else Collect(c, Detected(c, st))
  {
    hide Wasteful, FillingUp, ManyInvalid, Scattered, Collect, DetectFrom, QueueLength;
    var s := RefreshRates(c, st);
    WastefulExactly(c, st, z);
    DetectOutcome(c, s);
    QueueLengthIsSize(QueueAfter(c, s), c.zones);
  }
}
