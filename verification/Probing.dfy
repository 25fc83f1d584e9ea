/** The probing loops of the trace generator: which keys they look at, and when they end. */
module Probing {
  import opened Layout

  const MAX_KEY: nat := 1048576

  /** How a loop moves from one key to the next; the hot range of a phase is `hot` keys from `shift` on. */
  datatype Probe = FreeProbe | HotProbe(hot: nat, shift: nat) | ColdProbe(hot: nat, shift: nat)
  {
    predicate Valid() {
      !FreeProbe? ==> 1 <= hot < MAX_KEY && hot + shift <= MAX_KEY
    }
  }

  /** The numerator of the last case is never negative, so the original's truncating remainder is this
      one. */
  function Next(p: Probe, key: nat): (next: nat)
    requires p.Valid()
    ensures next < MAX_KEY
  {
    match p
    case FreeProbe => (key + 1) % MAX_KEY
    case HotProbe(hot, shift) => (key + 1) % hot + shift
    case ColdProbe(hot, shift) =>
      ((key + MAX_KEY - hot - shift + 1) % (MAX_KEY - hot) + hot + shift) % MAX_KEY
  }

  /** The key after `n` steps. */
  function Visit(p: Probe, start: nat, n: nat): nat
    requires p.Valid()
  {
    if n == 0 then start else Next(p, Visit(p, start, n - 1))
  }

  // ---------- a deterministic walk over finitely many keys ----------

  lemma {:induction false} VisitBelow(p: Probe, start: nat, n: nat)
    requires p.Valid() && start < MAX_KEY
    ensures Visit(p, start, n) < MAX_KEY
  {
  }

  lemma {:induction false} VisitSame(p: Probe, start: nat, i: nat, j: nat, n: nat)
    requires p.Valid() && Visit(p, start, i) == Visit(p, start, j)
    ensures Visit(p, start, i + n) == Visit(p, start, j + n)
  {
    if n > 0 {
      VisitSame(p, start, i, j, n - 1);
    }
  }

  function Seen(p: Probe, start: nat, n: nat): set<nat>
    requires p.Valid()
  {
    if n == 0 then {} else Seen(p, start, n - 1) + {Visit(p, start, n - 1)}
  }

  lemma {:induction false} SeenAt(p: Probe, start: nat, n: nat, k: nat) returns (i: nat)
    requires p.Valid() && k in Seen(p, start, n)
    ensures i < n && Visit(p, start, i) == k
  {
    hide Visit;
    if k == Visit(p, start, n - 1) {
      i := n - 1;
    } else {
      i := SeenAt(p, start, n - 1, k);
    }
  }

  function Below(m: nat): (r: set<nat>)
    ensures |r| == m && forall k: nat :: k in r <==> k < m
  {
    if m == 0 then {} else Below(m - 1) + {m - 1}
  }

  ghost predicate Repeats(p: Probe, start: nat, i: nat, j: nat)
    requires p.Valid()
  {
    i < j && Visit(p, start, i) == Visit(p, start, j)
  }

  /** The first `n` keys are all different, or one of them comes again. */
  lemma {:induction false} DistinctOrRepeats(p: Probe, start: nat, n: nat)
    requires p.Valid()
    ensures |Seen(p, start, n)| == n || exists i, j :: 0 <= i < j < n && Repeats(p, start, i, j)
  {
    hide Visit;
    if n > 0 {
      DistinctOrRepeats(p, start, n - 1);
      if Visit(p, start, n - 1) in Seen(p, start, n - 1) {
        var i := SeenAt(p, start, n - 1, Visit(p, start, n - 1));
        assert Repeats(p, start, i, n - 1);
      }
    }
  }

  lemma SomeRepeat(p: Probe, start: nat) returns (i: nat, j: nat)
    requires p.Valid() && start < MAX_KEY
    ensures j <= MAX_KEY && Repeats(p, start, i, j)
  {
    hide Visit;
    var n := MAX_KEY + 1;
    DistinctOrRepeats(p, start, n);
    forall k | k in Seen(p, start, n) ensures k in Below(MAX_KEY) {
      var m := SeenAt(p, start, n, k);
      VisitBelow(p, start, m);
    }
    SubsetSize(Seen(p, start, n), Below(MAX_KEY));
    i, j :| 0 <= i < j < n && Repeats(p, start, i, j);
  }

  lemma {:induction false} VisitedEarly(p: Probe, start: nat, i: nat, j: nat, n: nat) returns (m: nat)
    requires p.Valid() && Repeats(p, start, i, j)
    ensures m < j && Visit(p, start, m) == Visit(p, start, n)
    decreases n
  {
    hide Visit;
    if n < j {
      m := n;
    } else {
      VisitSame(p, start, i, j, n - j);
      m := VisitedEarly(p, start, i, j, i + (n - j));
    }
  }

  /** Whatever a walk ever visits, it visits within `MAX_KEY` steps. */
  lemma VisitsSoon(p: Probe, start: nat, n: nat) returns (m: nat)
    requires p.Valid() && start < MAX_KEY
    ensures m < MAX_KEY && Visit(p, start, m) == Visit(p, start, n)
  {
    var i, j := SomeRepeat(p, start);
    m := VisitedEarly(p, start, i, j, n);
  }

  // ---------- what a probing loop finds ----------

  ghost predicate Hit(keys: set<int>, want: bool, p: Probe, start: nat, n: nat)
    requires p.Valid()
  {
    (Visit(p, start, n) in keys) == want
  }

  /** The loop of at most `patience` steps found the first key on its way that is (not) in `keys`, or
      none of those it looked at is. */
  ghost predicate Probed(keys: set<int>, want: bool, p: Probe, start: nat, patience: nat, key: Option<nat>)
    requires p.Valid()
  {
    match key
    case Some(k) =>
      exists n :: 0 <= n <= patience && Hit(keys, want, p, start, n) && k == Visit(p, start, n)
                  && forall m :: 0 <= m < n ==> !Hit(keys, want, p, start, m)
    case None => forall n :: 0 <= n <= patience ==> !Hit(keys, want, p, start, n)
  }

  /** With enough patience the bound changes nothing: the loop finds a key if and only if the one
      without a bound would end. */
  lemma PatienceSuffices(keys: set<int>, want: bool, p: Probe, start: nat, patience: nat, key: Option<nat>)
    requires p.Valid() && start < MAX_KEY && patience >= MAX_KEY - 1 && Probed(keys, want, p, start, patience, key)
    ensures key.Some? <==> exists n :: n >= 0 && Hit(keys, want, p, start, n)
  {
    if n :| n >= 0 && Hit(keys, want, p, start, n) {
      var m := VisitsSoon(p, start, n);
      assert Hit(keys, want, p, start, m);
    }
  }

  // ---------- arithmetic ----------

  lemma Scaled(m: int, d: int)
    requires m > 0
    ensures d > 0 ==> m * d >= m
    ensures d < 0 ==> m * d <= -m
  {
  }

  /** Quotient and remainder are unique. */
  lemma Small(m: int, q: int, s: int, r: int, t: int)
    requires 0 <= r < m && 0 <= t < m && m * q + r == m * s + t
    ensures q == s && r == t
  {
    Scaled(m, q - s);
    assert m * (q - s) == m * q - m * s;
  }

  lemma ModUnique(a: int, m: int, q: int, r: int)
    requires 0 <= r < m && a == r + m * q
    ensures a % m == r
  {
    assert a == m * (a / m) + a % m;
    Small(m, q, a / m, r, a % m);
  }

  lemma ModStep(x: int, d: int, m: int)
    requires m > 0
    ensures (x % m + d) % m == (x + d) % m
  {
    var y := x % m + d;
    assert x + d == y % m + m * (y / m + x / m) by {
      assert m * (y / m + x / m) == m * (y / m) + m * (x / m);
    }
    ModUnique(x + d, m, y / m + x / m, y % m);
  }

  function Gcd(a: nat, b: nat): nat
    decreases b
  {
    if b == 0 then a else Gcd(b, a % b)
  }

  lemma GcdStep(a: nat, b: nat)
    requires b > 0
    ensures Gcd(a, b) == Gcd(b, a % b)
  {
  }

  lemma GcdZero(a: nat)
    ensures Gcd(a, 0) == a
  {
  }

  lemma Combine(a: int, b: int, q: int, r: int, g: int, u: int, v: int)
    requires a == q * b + r && b == g * u && r == g * v
    ensures a == g * (q * u + v)
  {
    assert q * (g * u) == g * (q * u);
  }

  lemma Remainder(a: int, m: int)
    requires m > 0
    ensures a % m == a - m * (a / m) && 0 <= a % m < m
    ensures a >= 0 ==> a / m >= 0
  {
  }

  lemma {:induction false} GcdDivides(a: nat, b: nat) returns (x: int, y: int)
    ensures a == Gcd(a, b) * x && b == Gcd(a, b) * y
    decreases b
  {
    hide Gcd;
    if b == 0 {
      GcdZero(a);
      x, y := 1, 0;
    } else {
      GcdStep(a, b);
      Remainder(a, b);
      var u, v := GcdDivides(b, a % b);
      Combine(a, b, a / b, a % b, Gcd(a, b), u, v);
      x, y := a / b * u + v, u;
    }
  }

  lemma {:induction false} GcdPositive(a: nat, b: nat)
    requires a + b > 0
    ensures Gcd(a, b) > 0
    decreases b
  {
    if b > 0 {
      GcdPositive(b, a % b);
    }
  }

  lemma {:induction false} Bezout(a: nat, b: nat) returns (x: int, y: int)
    ensures a * x + b * y == Gcd(a, b)
    decreases b
  {
    if b == 0 {
      x, y := 1, 0;
    } else {
      var u, v := Bezout(b, a % b);
      var q := a / b;
      assert a % b == a - q * b;
      assert b * u + (a - q * b) * v == a * v + b * (u - q * v);
      x, y := v, u - q * v;
    }
  }

  lemma Divides(g: int, c: int)
    requires g > 0
    ensures (g * c) % g == 0
  {
    ModUnique(g * c, g, c, 0);
  }

  // ---------- the hot range ----------

  /** The remainder as a function of its own, for proofs that need not look into it. */
  function Mod(x: int, m: int): int
    requires m > 0
  {
    x % m
  }

  lemma HotStep(hot: nat, shift: nat, x: nat)
    requires HotProbe(hot, shift).Valid()
    ensures 0 <= Mod(x, hot)
    ensures Next(HotProbe(hot, shift), Mod(x, hot) + shift) == Mod(x + (shift + 1), hot) + shift
  {
    ModStep(x, shift + 1, hot);
  }

  lemma Times(n: nat, d: nat)
    ensures n * d >= 0
    ensures n > 0 ==> n * d == (n - 1) * d + d
    ensures n == 0 ==> n * d == 0
  {
  }

  lemma HotStart(hot: nat, x: nat)
    requires x < hot
    ensures Mod(x, hot) == x
  {
    ModUnique(x, hot, 0, x);
  }

  function Advance(x: nat, d: nat, n: nat): nat {
    if n == 0 then x else Advance(x, d, n - 1) + d
  }

  lemma {:induction false} AdvanceIs(x: nat, d: nat, n: nat)
    ensures Advance(x, d, n) == x + n * d
  {
    Times(n, d);
    if n > 0 {
      AdvanceIs(x, d, n - 1);
    }
  }

  lemma {:induction false} HotAdvance(hot: nat, shift: nat, start: nat, n: nat)
    requires HotProbe(hot, shift).Valid() && shift <= start < shift + hot
    ensures Visit(HotProbe(hot, shift), start, n) == Mod(Advance(start - shift, shift + 1, n), hot) + shift
  {
    hide Next, Mod;
    if n == 0 {
      HotStart(hot, start - shift);
    } else {
      HotAdvance(hot, shift, start, n - 1);
      HotStep(hot, shift, Advance(start - shift, shift + 1, n - 1));
    }
  }

  /** The probe of the hot range moves by `shift + 1`, modulo the size of the range. */
  lemma HotVisit(hot: nat, shift: nat, start: nat, n: nat)
    requires HotProbe(hot, shift).Valid() && shift <= start < shift + hot
    ensures Visit(HotProbe(hot, shift), start, n) == (start - shift + n * (shift + 1)) % hot + shift
  {
    hide Visit, Advance;
    HotAdvance(hot, shift, start, n);
    AdvanceIs(start - shift, shift + 1, n);
  }

  lemma HotReached(hot: nat, shift: nat, start: nat, n: nat)
    requires HotProbe(hot, shift).Valid() && shift <= start < shift + hot
    ensures var g, k := Gcd(shift + 1, hot), Visit(HotProbe(hot, shift), start, n);
      g > 0 && shift <= k < shift + hot && (k - start) % g == 0
  {
    hide Visit, Next, Gcd, Mod, Advance;
    var d := shift + 1;
    var x, y := GcdDivides(d, hot);
    GcdPositive(d, hot);
    HotAdvance(hot, shift, start, n);
    AdvanceIs(start - shift, d, n);
    Congruent(Gcd(d, hot), x, y, d, hot, n, start - shift, Advance(start - shift, d, n));
  }

  lemma Congruent(g: int, x: int, y: int, d: int, m: int, n: int, o: int, a: int)
    requires g > 0 && m > 0 && d == g * x && m == g * y && a == o + n * d
    ensures 0 <= Mod(a, m) < m && (Mod(a, m) - o) % g == 0
  {
    Remainder(a, m);
    Multiples(g, x, y, n, a / m);
    Divides(g, n * x - y * (a / m));
  }

  lemma Multiples(g: int, x: int, y: int, n: int, q: int)
    ensures n * (g * x) - (g * y) * q == g * (n * x - y * q)
  {
    assert n * (g * x) == g * (n * x) && (g * y) * q == g * (y * q);
  }

  lemma HotReaches(hot: nat, shift: nat, start: nat, k: nat) returns (n: nat)
    requires HotProbe(hot, shift).Valid() && shift <= start < shift + hot && shift <= k < shift + hot
    requires Gcd(shift + 1, hot) > 0 && (k - start) % Gcd(shift + 1, hot) == 0
    ensures Visit(HotProbe(hot, shift), start, n) == k
  {
    hide Visit, Next, Gcd;
    var d := shift + 1;
    var g := Gcd(d, hot);
    var c := (k - start) / g;
    Remainder(k - start, g);
    var x, y := Bezout(d, hot);
    var a := x * c;
    Remainder(a, hot);
    n := a % hot;
    HotVisit(hot, shift, start, n);
    Steps(d, hot, x, y, g, c, a / hot);
    ModUnique(start - shift + n * d, hot, -(y * c) - a / hot * d, k - shift);
  }

  lemma Steps(d: int, hot: int, x: int, y: int, g: int, c: int, e: int)
    requires d * x + hot * y == g
    ensures (x * c - hot * e) * d == g * c + hot * (-(y * c) - e * d)
  {
    assert (x * c - hot * e) * d == (d * x) * c - hot * (e * d);
    assert g * c == (d * x) * c + (hot * y) * c;
    assert hot * (-(y * c) - e * d) == -(hot * (y * c)) - hot * (e * d);
    assert (hot * y) * c == hot * (y * c);
  }

  /** From a key of the hot range the probe visits exactly the hot keys congruent to it modulo the
      greatest common divisor of its step and the size of the range. */
  lemma HotVisits(hot: nat, shift: nat, start: nat, k: nat)
    requires HotProbe(hot, shift).Valid() && shift <= start < shift + hot && k < MAX_KEY
    ensures Gcd(shift + 1, hot) > 0
    ensures (exists n :: n >= 0 && Visit(HotProbe(hot, shift), start, n) == k)
            <==> shift <= k < shift + hot && (k - start) % Gcd(shift + 1, hot) == 0
  {
    var p := HotProbe(hot, shift);
    HotReached(hot, shift, start, 0);
    if n :| n >= 0 && Visit(p, start, n) == k {
      HotReached(hot, shift, start, n);
    }
    if shift <= k < shift + hot && (k - start) % Gcd(shift + 1, hot) == 0 {
      var n := HotReaches(hot, shift, start, k);
    }
  }

  /** A present key of the hot range that the probe from `start` visits. */
  predicate HotTarget(keys: set<int>, hot: nat, shift: nat, start: nat, k: int)
    requires Gcd(shift + 1, hot) > 0
  {
    k in keys && shift <= k < shift + hot && (k - start) % Gcd(shift + 1, hot) == 0
  }

  /** When the probe of the hot range ends: if and only if such a key is present. */
  lemma HotProbeEnds(keys: set<int>, hot: nat, shift: nat, start: nat)
    requires HotProbe(hot, shift).Valid() && shift <= start < shift + hot
    ensures Gcd(shift + 1, hot) > 0
    ensures (exists n :: n >= 0 && Hit(keys, true, HotProbe(hot, shift), start, n))
            <==> exists k :: HotTarget(keys, hot, shift, start, k)
  {
    hide Visit, Gcd;
    var p := HotProbe(hot, shift);
    HotReached(hot, shift, start, 0);
    if n :| n >= 0 && Hit(keys, true, p, start, n) {
      HotReached(hot, shift, start, n);
      assert HotTarget(keys, hot, shift, start, Visit(p, start, n));
    }
    if k :| HotTarget(keys, hot, shift, start, k) {
      var n := HotReaches(hot, shift, start, k);
      assert Hit(keys, true, p, start, n);
    }
  }

  /** So in phase 1 of the default workload it never ends if all present hot keys are of the other
      parity. */
  lemma HotProbeSkipsKeys(keys: set<int>, start: nat)
    requires 104857 <= start < 104857 + 52428
    ensures (exists n :: n >= 0 && Hit(keys, true, HotProbe(52428, 104857), start, n))
            <==> exists k :: k in keys && 104857 <= k < 104857 + 52428 && k % 2 == start % 2
  {
    HotProbeEnds(keys, 52428, 104857, start);
    assert 104858 % 52428 == 2 && 52428 % 2 == 0;
    assert Gcd(104858, 52428) == Gcd(52428, 2) == Gcd(2, 0) == 2;
    forall k: int
      ensures HotTarget(keys, 52428, 104857, start, k)
              <==> k in keys && 104857 <= k < 104857 + 52428 && k % 2 == start % 2
    {
    }
  }

  // ---------- the other probes ----------

  lemma FreeStep(x: nat)
    ensures Next(FreeProbe, x % MAX_KEY) == (x + 1) % MAX_KEY
  {
    ModStep(x, 1, MAX_KEY);
  }

  /** The probe for a free key visits every key. */
  lemma {:induction false} FreeVisits(start: nat, n: nat)
    requires start < MAX_KEY
    ensures Visit(FreeProbe, start, n) == (start + n) % MAX_KEY
  {
    hide Next;
    if n > 0 {
      FreeVisits(start, n - 1);
      FreeStep(start + n - 1);
    } else {
      ModUnique(start, MAX_KEY, 0, start);
    }
  }

  lemma FreeReaches(start: nat, k: nat) returns (n: nat)
    requires start < MAX_KEY && k < MAX_KEY
    ensures Visit(FreeProbe, start, n) == k
  {
    hide Visit;
    if k >= start {
      n := k - start;
      ModUnique(k, MAX_KEY, 0, k);
    } else {
      n := k + MAX_KEY - start;
      ModUnique(k + MAX_KEY, MAX_KEY, 1, k);
    }
    FreeVisits(start, n);
  }

  lemma FreeProbeEnds(keys: set<int>, start: nat)
    requires start < MAX_KEY
    ensures (exists n :: n >= 0 && Hit(keys, false, FreeProbe, start, n))
            <==> exists k :: 0 <= k < MAX_KEY && k !in keys
  {
    hide Visit;
    if n :| n >= 0 && Hit(keys, false, FreeProbe, start, n) {
      VisitBelow(FreeProbe, start, n);
    }
    if k :| 0 <= k < MAX_KEY && k !in keys {
      var n := FreeReaches(start, k);
      assert Hit(keys, false, FreeProbe, start, n);
    }
  }

  /** Cold key number `o`: past the hot range, around the end of the bitmap. */
  function ColdKey(hot: nat, shift: nat, o: nat): nat {
    (o + hot + shift) % MAX_KEY
  }

  lemma ModShift(x: int, m: int)
    requires m > 0
    ensures Mod(x + m, m) == Mod(x, m) && 0 <= Mod(x, m) < m
  {
    Remainder(x, m);
    assert m * (x / m + 1) == m * (x / m) + m;
    ModUnique(x + m, m, x / m + 1, x % m);
  }

  /** The probe for a cold key stays among the cold keys; it moves by `hot + 1` of them where they do
      not wrap around yet, and by one where they do. */
  lemma ColdStep(hot: nat, shift: nat, o: nat)
    requires ColdProbe(hot, shift).Valid() && o < MAX_KEY - hot
    ensures var n, step := MAX_KEY - hot, if o + hot + shift < MAX_KEY then hot + 1 else 1;
      Next(ColdProbe(hot, shift), ColdKey(hot, shift, o)) == ColdKey(hot, shift, Mod(o + step, n))
  {
    var n, x := MAX_KEY - hot, o + hot + shift;
    ModShift(o + 1, n);
    ModShift(o + hot + 1, n);
    if x < MAX_KEY {
      ModUnique(x, MAX_KEY, 0, x);
    } else {
      ModUnique(x, MAX_KEY, 1, x - MAX_KEY);
    }
    ColdNext(hot, shift, ColdKey(hot, shift, o));
    hide Mod, Next;
  }

  lemma ColdNext(hot: nat, shift: nat, key: nat)
    requires ColdProbe(hot, shift).Valid() && key < MAX_KEY
    ensures var k := Mod(key + MAX_KEY - hot - shift + 1, MAX_KEY - hot);
      0 <= k && Next(ColdProbe(hot, shift), key) == ColdKey(hot, shift, k)
  {
  }
}
