/** The two ternary searches over an arbitrary profit f, and how good their answers are. */
module Ternary {
  import opened Arith

  // ── The search that keeps its probes as ends ─────────────────────

  /** A loss counts as zero. */
  function Clamp(v: int): nat { if v > 0 then v else 0 }

  datatype Bracket = Bracket(lo: nat, hi: nat, bestInput: nat, bestProfit: nat)

  function Better(b: Bracket, x: nat, profit: nat): Bracket
  {
    if profit > b.bestProfit then b.(bestInput := x, bestProfit := profit) else b
  }

  /** One step of the search. */
  function Narrow(f: nat -> int, b: Bracket): (c: Bracket)
    requires b.lo + 3 <= b.hi
  {
    var third := (b.hi - b.lo) / 3;
    var m1, m2 := b.lo + third, b.hi - third;
    var c := Better(Better(b, m1, Clamp(f(m1))), m2, Clamp(f(m2)));
    if Clamp(f(m1)) < Clamp(f(m2)) then c.(lo := m1) else c.(hi := m2)
  }

  function Search(f: nat -> int, b: Bracket, n: nat): (r: Bracket)
    decreases n
  {
    if n == 0 || b.hi < b.lo + 3 then b else Search(f, Narrow(f, b), n - 1)
  }

  function Whole(maxInput: nat): Bracket { Bracket(1, maxInput, 0, 0) }

  /** The best seen is at least as good as both ends, unless an end has never been tried. */
  ghost predicate Tracks(f: nat -> int, b: Bracket, maxInput: nat)
  {
    && 1 <= b.lo <= b.hi <= maxInput
    && b.bestInput <= maxInput && (b.bestProfit > 0 ==> f(b.bestInput) == b.bestProfit)
    && (b.bestInput == 0 <==> b.bestProfit == 0)
    && (b.lo == 1 || f(b.lo) <= b.bestProfit)
    && (b.hi == maxInput || f(b.hi) <= b.bestProfit)
  }

  lemma WholeTracks(f: nat -> int, maxInput: nat)
    requires maxInput >= 1
    ensures Tracks(f, Whole(maxInput), maxInput) && Whole(maxInput) == Bracket(1, maxInput, 0, 0)
  {}

  lemma InRange(f: nat -> int, b: Bracket, maxInput: nat)
    requires Tracks(f, b, maxInput)
    ensures 1 <= b.lo <= b.hi <= maxInput
  {}

  lemma NarrowTracks(f: nat -> int, b: Bracket, maxInput: nat)
    requires Tracks(f, b, maxInput) && b.lo + 3 <= b.hi
    ensures var c := Narrow(f, b);
            Tracks(f, c, maxInput) && b.bestProfit <= c.bestProfit && 3 * (c.hi - c.lo - 2) <= 2 * (b.hi - b.lo - 2)
  {}

  lemma {:induction false} SearchTracks(f: nat -> int, b: Bracket, maxInput: nat, n: nat)
    requires Tracks(f, b, maxInput)
    ensures Tracks(f, Search(f, b, n), maxInput)
    decreases n
  {
    hide Narrow, Tracks;
    if n > 0 && b.hi >= b.lo + 3 {
      NarrowTracks(f, b, maxInput);
      SearchTracks(f, Narrow(f, b), maxInput, n - 1);
    }
  }

  /** Each step cuts the excess width over 2 to at most two thirds. */
  lemma {:induction false} SearchConverges(f: nat -> int, b: Bracket, maxInput: nat, n: nat)
    requires Tracks(f, b, maxInput)
    ensures var r := Search(f, b, n);
            r.hi - r.lo < 3 || Pow(3, n) * (r.hi - r.lo - 2) <= Pow(2, n) * (b.hi - b.lo - 2)
    decreases n
  {
    hide Narrow, Tracks;
    if n > 0 && b.hi >= b.lo + 3 {
      var c := Narrow(f, b);
      NarrowTracks(f, b, maxInput);
      SearchConverges(f, c, maxInput, n - 1);
      var r := Search(f, c, n - 1);
      if r.hi - r.lo >= 3 {
        TwoThirds(n - 1, r.hi - r.lo - 2, c.hi - c.lo - 2, b.hi - b.lo - 2);
      }
    }
  }

  lemma TwoThirds(n: nat, r: int, c: int, b: int)
    requires Pow(3, n) * r <= Pow(2, n) * c && 3 * c <= 2 * b
    ensures Pow(3, n + 1) * r <= Pow(2, n + 1) * b
  {
    var p, q := Pow(3, n), Pow(2, n);
    MulMonotone(3 * c, 2 * b, q);
    assert 3 * (p * r) == 3 * p * r && 3 * (q * c) == 3 * c * q && 2 * b * q == 2 * q * b;
  }

  lemma SearchUnfolds(f: nat -> int, b: Bracket, n: nat)
    ensures Search(f, b, n) == if n == 0 || b.hi < b.lo + 3 then b else Search(f, Narrow(f, b), n - 1)
  {}

  /** Three or fewer candidate inputs are never tried: the search answers zero. */
  lemma TooSmallToSearch(f: nat -> int, maxInput: nat, n: nat)
    requires 1 <= maxInput <= 3
    ensures Search(f, Whole(maxInput), n).bestInput == 0
  {}

  // ── The search that steps past its probes ────────────────────────

  datatype Interval = Interval(lo: nat, hi: nat)

  /** At most n steps; both probes lie strictly inside what is cut. */
  function Shrink(f: nat -> int, i: Interval, n: nat): (r: Interval)
    decreases n
  {
    if n == 0 || i.lo >= i.hi then i
    else
      var m1, m2 := i.lo + (i.hi - i.lo) / 3, i.hi - (i.hi - i.lo) / 3;
      if f(m1) < f(m2) then Shrink(f, Interval(m1 + 1, i.hi), n - 1)
      else if m2 == 0 then i
      else Shrink(f, Interval(i.lo, m2 - 1), n - 1)
  }

  /** The first best of the k inputs from lo, if it gains anything. */
  function Scan(f: nat -> int, lo: nat, k: nat): (nat, nat)
  {
    if k == 0 then (0, 0)
    else
      var best := Scan(f, lo, k - 1);
      if f(lo + k - 1) > best.1 then (lo + k - 1, f(lo + k - 1)) else best
  }

  /** The steps from 1 to maxInput, then up to three candidates. */
  function Optimum(f: nat -> int, maxInput: nat, steps: nat): (nat, nat)
  {
    var i := Shrink(f, Interval(1, maxInput), steps);
    Scan(f, i.lo, Candidates(i))
  }

  function Candidates(i: Interval): nat
  {
    if i.hi < i.lo then 0 else if i.hi - i.lo < 2 then i.hi - i.lo + 1 else 3
  }

  lemma {:induction false} ScanBest(f: nat -> int, lo: nat, k: nat)
    ensures var (x, p) := Scan(f, lo, k);
            && (forall y :: lo <= y < lo + k ==> f(y) <= p)
            && (if p == 0 then x == 0 || k == 0 || lo == 0 else lo <= x < lo + k && f(x) == p)
  {
    if k > 0 { ScanBest(f, lo, k - 1); }
  }

  lemma {:induction false} ScanZero(f: nat -> int, lo: nat, k: nat)
    requires lo > 0
    ensures var (x, p) := Scan(f, lo, k); p == 0 <==> x == 0
  {
    if k > 0 { ScanZero(f, lo, k - 1); }
  }

  lemma ShrinkEnds(f: nat -> int, i: Interval, n: nat)
    requires n == 0 || i.lo >= i.hi
    ensures Shrink(f, i, n) == i
  {}

  /** One step: where it goes, and by how much it shrinks. */
  lemma ShrinkStep(f: nat -> int, i: Interval, n: nat) returns (m1: nat, m2: nat, next: Interval)
    requires n > 0 && 1 <= i.lo < i.hi
    ensures m1 == i.lo + (i.hi - i.lo) / 3 && m2 == i.hi - (i.hi - i.lo) / 3
    ensures i.lo <= m1 < m2 <= i.hi && m1 - i.lo == i.hi - m2 <= m2 - m1
    ensures next == if f(m1) < f(m2) then Interval(m1 + 1, i.hi) else Interval(i.lo, m2 - 1)
    ensures Shrink(f, i, n) == Shrink(f, next, n - 1)
    ensures i.lo <= next.lo <= next.hi <= i.hi && 3 * (next.hi - next.lo) < 2 * (i.hi - i.lo)
  {
    hide Shrink;
    m1, m2 := Probes(i);
    ShrinkIs(f, i, n);
    next := if f(m1) < f(m2) then Interval(m1 + 1, i.hi) else Interval(i.lo, m2 - 1);
  }

  lemma ShrinkIs(f: nat -> int, i: Interval, n: nat)
    requires n > 0 && 1 <= i.lo < i.hi
    ensures var m1, m2 := i.lo + (i.hi - i.lo) / 3, i.hi - (i.hi - i.lo) / 3;
            m2 >= 1 && Shrink(f, i, n) == Shrink(f, if f(m1) < f(m2) then Interval(m1 + 1, i.hi) else Interval(i.lo, m2 - 1), n - 1)
  {}

  lemma Probes(i: Interval) returns (m1: nat, m2: nat)
    requires 1 <= i.lo < i.hi
    ensures m1 == i.lo + (i.hi - i.lo) / 3 && m2 == i.hi - (i.hi - i.lo) / 3
    ensures i.lo <= m1 < m2 <= i.hi && m1 - i.lo == i.hi - m2 <= m2 - m1
    ensures 3 * (i.hi - m1 - 1) < 2 * (i.hi - i.lo) && 3 * (m2 - 1 - i.lo) < 2 * (i.hi - i.lo)
  {
    m1, m2 := i.lo + (i.hi - i.lo) / 3, i.hi - (i.hi - i.lo) / 3;
  }

  lemma {:induction false} ShrinkConverges(f: nat -> int, i: Interval, n: nat)
    requires 1 <= i.lo <= i.hi
    ensures var r := Shrink(f, i, n);
            i.lo <= r.lo <= r.hi <= i.hi && Pow(3, n) * (r.hi - r.lo) <= Pow(2, n) * (i.hi - i.lo)
    decreases n
  {
    if n > 0 && i.lo < i.hi {
      hide Shrink, Pow;
      var m1, m2, next := ShrinkStep(f, i, n);
      ShrinkConverges(f, next, n - 1);
      var r := Shrink(f, i, n);
      TwoThirds(n - 1, r.hi - r.lo, next.hi - next.lo, i.hi - i.lo);
    } else {
      SameWidth(n, i.hi - i.lo);
    }
  }

  lemma {:induction false} SameWidth(n: nat, w: nat)
    requires n == 0 || w == 0
    ensures Pow(3, n) * w <= Pow(2, n) * w
  {}

  /** The range is short enough for the steps: maxInput - 1 < 3 (3/2)^steps. */
  ghost predicate InReach(maxInput: nat, steps: nat)
  {
    Pow(2, steps) * (maxInput - 1) < 3 * Pow(3, steps)
  }

  lemma {:induction false} ReachGrows(maxInput: nat, n: nat, steps: nat)
    requires maxInput >= 1 && InReach(maxInput, n) && n <= steps
    ensures InReach(maxInput, steps)
  {
    if n < steps {
      ReachGrows(maxInput, n, steps - 1);
      OneStepMore(Pow(2, steps - 1), maxInput - 1, Pow(3, steps - 1));
    }
  }

  lemma OneStepMore(p: nat, w: nat, q: nat)
    requires p * w < 3 * q
    ensures 2 * p * w < 3 * (3 * q)
  {
    assert 2 * p * w == 2 * (p * w);
  }

  /** Then the three candidates are all that is left. */
  lemma AllLeft(f: nat -> int, maxInput: nat, steps: nat)
    requires maxInput >= 1 && InReach(maxInput, steps)
    ensures var i := Shrink(f, Interval(1, maxInput), steps);
            1 <= i.lo <= i.hi <= maxInput && Candidates(i) == i.hi - i.lo + 1
  {
    hide Shrink;
    ShrinkConverges(f, Interval(1, maxInput), steps);
    var i := Shrink(f, Interval(1, maxInput), steps);
    if i.hi - i.lo >= 3 { MulMonotone(3, i.hi - i.lo, Pow(3, steps)); }
  }

  // ── Profits that are flat, or that only rise ─────────────────────

  /** Among equal profits the first input tried is kept, and a tie cuts off the upper part. */
  lemma {:induction false} FlatSearch(f: nat -> int, maxInput: nat, b: Bracket, n: nat)
    requires forall x: nat :: 1 <= x <= maxInput ==> f(x) == 1
    requires b.lo == 1 && b.hi <= maxInput && b.bestProfit == 1
    ensures var r := Search(f, b, n); r.lo == 1 && r.bestInput == b.bestInput && r.bestProfit == 1
    decreases n
  {
    if n > 0 && b.hi >= b.lo + 3 { FlatSearch(f, maxInput, Narrow(f, b), n - 1); }
  }

  lemma FlatAnswer(f: nat -> int, maxInput: nat, n: nat)
    requires maxInput >= 4 && n >= 1 && forall x: nat :: 1 <= x <= maxInput ==> f(x) == 1
    ensures Search(f, Whole(maxInput), n).bestInput == 1 + (maxInput - 1) / 3
    ensures Search(f, Whole(maxInput), 1).hi == maxInput - (maxInput - 1) / 3
  {
    hide Search;
    SearchUnfolds(f, Whole(maxInput), 1);
    SearchUnfolds(f, Narrow(f, Whole(maxInput)), 0);
    SearchUnfolds(f, Whole(maxInput), n);
    FlatSearch(f, maxInput, Narrow(f, Whole(maxInput)), n - 1);
  }

  /** A profit that only rises moves the lower end, and the upper probe is the best so far. */
  lemma RisingStep(f: nat -> int, maxInput: nat)
    requires maxInput >= 4 && f(0) == 0 && forall x, y :: 0 <= x < y <= maxInput ==> f(x) < f(y)
    ensures var r := Search(f, Whole(maxInput), 1);
            r == Bracket(1 + (maxInput - 1) / 3, maxInput, maxInput - (maxInput - 1) / 3, f(maxInput - (maxInput - 1) / 3))
  {
    hide Search;
    SearchUnfolds(f, Whole(maxInput), 1);
    SearchUnfolds(f, Narrow(f, Whole(maxInput)), 0);
    var third := (maxInput - 1) / 3;
    assert f(0) < f(1 + third) < f(maxInput - third);
  }

  /** Among equal profits the other search answers the smallest input, however many steps it takes. */
  lemma FlatOptimum(f: nat -> int, maxInput: nat, steps: nat)
    requires maxInput >= 1 && forall x: nat :: 1 <= x <= maxInput ==> f(x) == 1
    ensures Optimum(f, maxInput, steps) == (1, 1)
  {
    FlatShrink(f, maxInput, Interval(1, maxInput), steps);
    var i := Shrink(f, Interval(1, maxInput), steps);
    FlatScan(f, Candidates(i));
  }

  lemma {:induction false} FlatScan(f: nat -> int, k: nat)
    requires k >= 1 && forall x: nat :: 1 <= x < 1 + k ==> f(x) == 1
    ensures Scan(f, 1, k) == (1, 1)
  {
    if k > 1 { FlatScan(f, k - 1); } else { assert Scan(f, 1, 0) == (0, 0); }
  }

  lemma {:induction false} FlatShrink(f: nat -> int, maxInput: nat, i: Interval, n: nat)
    requires forall x: nat :: 1 <= x <= maxInput ==> f(x) == 1
    requires i.lo == 1 <= i.hi <= maxInput
    ensures var r := Shrink(f, i, n); r.lo == 1 <= r.hi <= maxInput
    decreases n
  {
    if n > 0 && i.hi > 1 { FlatShrink(f, maxInput, Interval(1, i.hi - (i.hi - 1) / 3 - 1), n - 1); }
  }

  // ── A strictly unimodal profit ───────────────────────────────────

  /** Strictly rising on [lo, m], strictly falling on [m, hi]. */
  ghost predicate Peak(f: nat -> int, lo: nat, m: nat, hi: nat)
  {
    && lo <= m <= hi
    && (forall x, y :: lo <= x < y <= m ==> f(x) < f(y))
    && (forall x, y :: m <= x < y <= hi ==> f(x) > f(y))
  }

  /** The peak is still in the bracket, unless it is at zero. */
  ghost predicate Holds(b: Bracket, m: nat)
  {
    m == 0 || b.lo <= m <= b.hi
  }

  lemma NarrowHolds(f: nat -> int, b: Bracket, maxInput: nat, m: nat)
    requires Tracks(f, b, maxInput) && b.lo + 3 <= b.hi
    requires Peak(f, 0, m, maxInput) && f(0) >= 0 && Holds(b, m)
    ensures Holds(Narrow(f, b), m)
  {
    hide Tracks;
    InRange(f, b, maxInput);
    var third := (b.hi - b.lo) / 3;
    var m1, m2 := b.lo + third, b.hi - third;
    assert m < m1 ==> f(m1) > f(m2);
    assert m > m2 ==> f(m1) < f(m2) && f(0) < f(m1);
  }

  lemma {:induction false} SearchHolds(f: nat -> int, b: Bracket, maxInput: nat, m: nat, n: nat)
    requires Tracks(f, b, maxInput) && Peak(f, 0, m, maxInput) && f(0) >= 0 && Holds(b, m)
    ensures Holds(Search(f, b, n), m)
    decreases n
  {
    hide Narrow, Tracks, Peak, Holds;
    if n > 0 && b.hi >= b.lo + 3 {
      NarrowTracks(f, b, maxInput);
      NarrowHolds(f, b, maxInput, m);
      SearchHolds(f, Narrow(f, b), maxInput, m, n - 1);
    }
  }

  /** With a single peak the input found beats every input outside the final bracket, which holds the peak. */
  lemma SearchKeepsPeak(f: nat -> int, maxInput: nat, m: nat, n: nat)
    requires 1 <= maxInput && Peak(f, 0, m, maxInput) && f(0) == 0
    ensures var r := Search(f, Whole(maxInput), n);
            && 1 <= r.lo <= r.hi <= maxInput && (m > 0 ==> r.lo <= m <= r.hi)
            && forall x :: 1 <= x < r.lo || r.hi < x <= maxInput ==> f(x) <= r.bestProfit
  {
    hide Search;
    var b := Whole(maxInput);
    WholeTracks(f, maxInput);
    SearchTracks(f, b, maxInput, n);
    SearchHolds(f, b, maxInput, m, n);
    var r := Search(f, b, n);
    forall x | 1 <= x < r.lo || r.hi < x <= maxInput ensures f(x) <= r.bestProfit {
      assert m == 0 ==> f(0) > f(x);
      assert m > 0 && x < r.lo ==> f(x) < f(r.lo);
      assert m > 0 && x > r.hi ==> f(r.hi) > f(x);
    }
  }

  lemma {:induction false} ShrinkHolds(f: nat -> int, i: Interval, m: nat, n: nat, a: nat, z: nat)
    requires 1 <= i.lo <= m <= i.hi && a <= i.lo && i.hi <= z && Peak(f, a, m, z)
    ensures var r := Shrink(f, i, n); r.lo <= m <= r.hi
    decreases n
  {
    hide Shrink, Peak;
    if n > 0 && i.lo < i.hi {
      var m1, m2, next := ShrinkStep(f, i, n);
      OneSide(f, a, m, z, m1, m2);
      ShrinkHolds(f, next, m, n - 1, a, z);
    } else {
      ShrinkEnds(f, i, n);
    }
  }

  lemma OneSide(f: nat -> int, a: nat, m: nat, z: nat, m1: nat, m2: nat)
    requires Peak(f, a, m, z) && a <= m1 < m2 <= z
    ensures if f(m1) < f(m2) then m1 < m else m < m2
  {
    assert m <= m1 ==> f(m1) > f(m2);
    assert m2 <= m ==> f(m1) < f(m2);
  }

  /** The other search then returns the peak itself, if it gains anything. */
  lemma OptimumAtPeak(f: nat -> int, maxInput: nat, m: nat, steps: nat)
    requires maxInput >= 1 && InReach(maxInput, steps) && Peak(f, 1, m, maxInput)
    ensures Optimum(f, maxInput, steps) == if f(m) > 0 then (m, f(m)) else (0, 0)
  {
    hide Shrink, Scan, InReach;
    var i := Shrink(f, Interval(1, maxInput), steps);
    AllLeft(f, maxInput, steps);
    ShrinkHolds(f, Interval(1, maxInput), m, steps, 1, maxInput);
    ScanBest(f, i.lo, Candidates(i));
    ScanZero(f, i.lo, Candidates(i));
    var (x, p) := Scan(f, i.lo, Candidates(i));
    assert f(m) <= p;
    assert p > 0 && x < m ==> f(x) < f(m);
    assert p > 0 && x > m ==> f(x) < f(m);
  }

  // ── A nearly concave profit ──────────────────────────────────────

  /** (z - y) g(x) + (y - x) g(z) <= (z - x) g(y) */
  ghost predicate ThreePoint(g: nat -> real, x: nat, y: nat, z: nat)
  {
    (z - y) as real * g(x) + (y - x) as real * g(z) <= (z - x) as real * g(y)
  }

  ghost predicate Concave(g: nat -> real)
  {
    g(0) == 0.0 && forall x: nat, y: nat, z: nat :: x < y < z ==> ThreePoint(g, x, y, z)
  }

  /** f is above g by at most delta. */
  ghost predicate Within(f: nat -> int, g: nat -> real, delta: real)
  {
    forall x: nat :: g(x) <= f(x) as real <= g(x) + delta
  }

  /** Beyond y, no farther than the distance d from y to y', a concave function exceeds g(y) by at most what it
      lost from y' to y. */
  lemma Beyond(gx: real, gy: real, gy': real, c: real, d: real)
    requires 0.0 < c <= d && d * gx + c * gy' <= (c + d) * gy
    ensures gx <= gy || gx - gy <= gy - gy'
  {
    if gx > gy {
      assert d * (gx - gy) <= c * (gy - gy') by { assert (c + d) * gy == c * gy + d * gy; }
      if gx - gy > gy - gy' { Exceeds(gx - gy, gy - gy', c, d); }
    }
  }

  lemma Exceeds(a: real, b: real, c: real, d: real)
    requires a > b && 0.0 < c <= d && a > 0.0
    ensures d * a > c * b
  {
    assert d * a >= c * a;
    assert c * a > c * b;
  }

  /** What lies on the far side of the smaller probe is at most 2 delta above it. */
  lemma FarSide(f: nat -> int, g: nat -> real, delta: real, x: nat, m: nat, m': nat)
    requires Concave(g) && Within(f, g, delta) && f(m) <= f(m')
    requires (x < m < m' && m - x <= m' - m) || (m' < m < x && x - m <= m - m')
    ensures f(x) as real <= f(m) as real + 2.0 * delta && delta >= 0.0
  {
    if x < m {
      assert ThreePoint(g, x, m, m');
      Beyond(g(x), g(m), g(m'), (m - x) as real, (m' - m) as real);
    } else {
      assert ThreePoint(g, m', m, x);
      Beyond(g(x), g(m), g(m'), (x - m) as real, (m - m') as real);
    }
  }

  /** Past a probe without gain nothing gains more than delta. */
  lemma PastLoss(f: nat -> int, g: nat -> real, delta: real, m: nat, x: nat)
    requires Concave(g) && Within(f, g, delta) && 0 < m < x && f(m) <= 0
    ensures f(x) as real <= delta
  {
    assert ThreePoint(g, 0, m, x);
    assert m as real * g(x) <= x as real * g(m);
    assert g(m) <= 0.0;
    NotPositive(g(x), g(m), m as real, x as real);
  }

  lemma NotPositive(a: real, b: real, m: real, x: real)
    requires m > 0.0 && x > 0.0 && b <= 0.0 && m * a <= x * b
    ensures a <= 0.0
  {
    SignOf(-b, x);
    NoGain(a, m);
  }

  lemma SignOf(a: real, m: real)
    requires a >= 0.0 && m > 0.0
    ensures m * a >= 0.0 && m * -a <= 0.0
  {}

  lemma NoGain(a: real, m: real)
    requires m > 0.0 && m * a <= 0.0
    ensures a <= 0.0
  {}

  /** Everything cut off so far is at most 2 delta better than the best. */
  ghost predicate NothingLost(f: nat -> int, b: Bracket, maxInput: nat, delta: real)
  {
    forall x: nat :: (1 <= x < b.lo || b.hi < x <= maxInput) ==> f(x) as real <= b.bestProfit as real + 2.0 * delta
  }

  lemma NarrowLosesNothing(f: nat -> int, g: nat -> real, delta: real, b: Bracket, maxInput: nat)
    requires Concave(g) && Within(f, g, delta) && Tracks(f, b, maxInput) && b.lo + 3 <= b.hi
    requires NothingLost(f, b, maxInput, delta)
    ensures NothingLost(f, Narrow(f, b), maxInput, delta)
  {
    hide Concave, Within, Tracks;
    InRange(f, b, maxInput);
    NarrowTracks(f, b, maxInput);
    NoNegativeGap(f, g, delta);
    var c := Narrow(f, b);
    forall x: nat | 1 <= x < c.lo || c.hi < x <= maxInput
      ensures f(x) as real <= c.bestProfit as real + 2.0 * delta
    {
      if !(x < b.lo || b.hi < x) { CutOff(f, g, delta, b, x); }
    }
  }

  /** An input the step cuts off. */
  lemma CutOff(f: nat -> int, g: nat -> real, delta: real, b: Bracket, x: nat)
    requires Concave(g) && Within(f, g, delta) && 0 < b.lo && b.lo + 3 <= b.hi && b.lo <= x <= b.hi && b.bestProfit >= 0
    requires x < Narrow(f, b).lo || Narrow(f, b).hi < x
    ensures f(x) as real <= Narrow(f, b).bestProfit as real + 2.0 * delta
  {
    hide Concave, Within;
    var m1, m2 := b.lo + (b.hi - b.lo) / 3, b.hi - (b.hi - b.lo) / 3;
    if x < m1 {
      FarSide(f, g, delta, x, m1, m2);
    } else if f(m1) <= 0 {
      NoNegativeGap(f, g, delta);
      PastLoss(f, g, delta, m1, x);
    } else {
      FarSide(f, g, delta, x, m2, m1);
    }
  }

  lemma NoNegativeGap(f: nat -> int, g: nat -> real, delta: real)
    requires Within(f, g, delta)
    ensures delta >= 0.0
  {
    assert g(0) <= f(0) as real <= g(0) + delta;
  }

  lemma {:induction false} SearchLosesNothing(f: nat -> int, g: nat -> real, delta: real, b: Bracket, maxInput: nat, n: nat)
    requires Concave(g) && Within(f, g, delta) && Tracks(f, b, maxInput) && NothingLost(f, b, maxInput, delta)
    ensures NothingLost(f, Search(f, b, n), maxInput, delta)
    decreases n
  {
    hide Concave, Within, Tracks, Narrow, NothingLost;
    if n > 0 && b.hi >= b.lo + 3 {
      NarrowTracks(f, b, maxInput);
      NarrowLosesNothing(f, g, delta, b, maxInput);
      SearchLosesNothing(f, g, delta, Narrow(f, b), maxInput, n - 1);
    }
  }

  /** For a profit within delta of a concave one: no input outside the final bracket is better than the one found by
      more than 2 delta, and none inside by more than the ratio of its ends and delta; no unimodality is needed. */
  lemma SearchNearBest(f: nat -> int, g: nat -> real, delta: real, maxInput: nat, n: nat)
    requires 1 <= maxInput && Concave(g) && Within(f, g, delta)
    ensures var r := Search(f, Whole(maxInput), n);
            && Tracks(f, r, maxInput)
            && (forall x: nat :: 1 <= x < r.lo || r.hi < x <= maxInput ==> f(x) as real <= r.bestProfit as real + 2.0 * delta)
            && (r.lo > 1 ==> forall x: nat :: r.lo <= x <= r.hi ==> InsideBound(f, r, x, delta))
  {
    hide Search, Concave, Within;
    var b := Whole(maxInput);
    WholeTracks(f, maxInput);
    SearchTracks(f, b, maxInput, n);
    SearchLosesNothing(f, g, delta, b, maxInput, n);
    var r := Search(f, b, n);
    if r.lo > 1 {
      forall x: nat | r.lo <= x <= r.hi ensures InsideBound(f, r, x, delta) {
        Inside(f, g, delta, r, maxInput, x);
      }
    }
  }

  /** lo f(x) <= hi best + lo delta */
  ghost predicate InsideBound(f: nat -> int, r: Bracket, x: nat, delta: real)
  {
    r.lo as real * f(x) as real <= r.hi as real * r.bestProfit as real + r.lo as real * delta
  }

  lemma Inside(f: nat -> int, g: nat -> real, delta: real, r: Bracket, maxInput: nat, x: nat)
    requires Concave(g) && Within(f, g, delta) && Tracks(f, r, maxInput) && 1 < r.lo <= x <= r.hi
    ensures InsideBound(f, r, x, delta)
  {
    NoNegativeGap(f, g, delta);
    var l, y, h, best := r.lo as real, x as real, r.hi as real, r.bestProfit as real;
    assert f(r.lo) as real <= best;
    assert g(x) <= f(x) as real <= g(x) + delta && g(r.lo) <= f(r.lo) as real;
    if x > r.lo {
      assert ThreePoint(g, 0, r.lo, x);
      assert l * g(x) <= y * g(r.lo);
      ScaledBound(l, y, h, g(x), g(r.lo), best, f(x) as real, delta);
    } else {
      ScaledBound(l, y, h, g(x), g(r.lo), best, f(x) as real, delta);
    }
  }

  lemma ScaledBound(l: real, y: real, h: real, gx: real, gl: real, best: real, fx: real, delta: real)
    requires 0.0 < l <= y <= h && l * gx <= y * gl && gl <= best && 0.0 <= best && fx <= gx + delta
    ensures l * fx <= h * best + l * delta
  {
    SignOf(gx + delta - fx, l);
    assert l * (gx + delta - fx) == l * gx + l * delta - l * fx;
    SignOf(best - gl, y);
    assert y * (best - gl) == y * best - y * gl;
    Larger(y, h, best);
  }

  lemma Larger(y: real, h: real, best: real)
    requires y <= h && best >= 0.0
    ensures y * best <= h * best
  {
    assert (h - y) * best >= 0.0;
  }

  /** A step of the other search costs at most 2 delta. */
  lemma {:induction false} ShrinkLoss(f: nat -> int, g: nat -> real, delta: real, i: Interval, n: nat, x: nat) returns (y: nat)
    requires Concave(g) && Within(f, g, delta) && 1 <= i.lo <= x <= i.hi
    ensures var r := Shrink(f, i, n); r.lo <= y <= r.hi
    ensures f(x) as real <= f(y) as real + 2.0 * n as real * delta
    decreases n
  {
    hide Concave, Within, Shrink;
    NoNegativeGap(f, g, delta);
    if n == 0 || i.lo >= i.hi {
      y := x;
      ShrinkEnds(f, i, n);
      Steps(n, 0, delta);
    } else {
      var m1, m2, next := ShrinkStep(f, i, n);
      var x' := StepLoss(f, g, delta, i, x, m1, m2, next);
      y := ShrinkLoss(f, g, delta, next, n - 1, x');
      Steps(n - 1, 1, delta);
    }
  }

  /** Some input that is kept is at most 2 delta worse. */
  lemma StepLoss(f: nat -> int, g: nat -> real, delta: real, i: Interval, x: nat, m1: nat, m2: nat, next: Interval)
    returns (x': nat)
    requires Concave(g) && Within(f, g, delta) && i.lo <= x <= i.hi
    requires i.lo <= m1 < m2 <= i.hi && m1 - i.lo == i.hi - m2 <= m2 - m1
    requires next == if f(m1) < f(m2) then Interval(m1 + 1, i.hi) else Interval(i.lo, m2 - 1)
    ensures next.lo <= x' <= next.hi && f(x) as real <= f(x') as real + 2.0 * delta
  {
    hide Concave, Within;
    NoNegativeGap(f, g, delta);
    if f(m1) < f(m2) {
      x' := if x <= m1 then m2 else x;
      if x < m1 { FarSide(f, g, delta, x, m1, m2); }
    } else {
      x' := if x >= m2 then m1 else x;
      if x > m2 { FarSide(f, g, delta, x, m2, m1); }
    }
  }

  lemma Steps(n: nat, k: nat, delta: real)
    requires delta >= 0.0
    ensures 2.0 * n as real * delta + 2.0 * k as real * delta == 2.0 * (n + k) as real * delta
    ensures 2.0 * n as real * delta >= 0.0
  {}

  /** So the answer is within 2 delta a step of the best profit in range, if the steps leave three candidates. */
  lemma OptimumNearBest(f: nat -> int, g: nat -> real, delta: real, maxInput: nat, steps: nat, x: nat)
    requires Concave(g) && Within(f, g, delta) && InReach(maxInput, steps) && 1 <= x <= maxInput
    ensures f(x) as real <= Optimum(f, maxInput, steps).1 as real + 2.0 * steps as real * delta
  {
    hide Shrink, Scan, InReach, Concave, Within;
    var i := Shrink(f, Interval(1, maxInput), steps);
    AllLeft(f, maxInput, steps);
    var y := ShrinkLoss(f, g, delta, Interval(1, maxInput), steps, x);
    ScanBest(f, i.lo, Candidates(i));
  }
}
