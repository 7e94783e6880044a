/** The locator of MMC_SCAN.py: sample the target on an `np.linspace` grid,
    take the first qualifying cell, refine it by a bisection loop with a
    tolerance and an iteration cap, and report a status record. */
module Mmc {
  import opened Scan

  /** The record `mmc_scan` returns. `InvalidSampleCount` stands for the
      `ValueError` that `np.linspace` raises for a negative sample count. */
  datatype Status =
    | NoCrossing
    | Ok(sigmaStar: real, slope: real, iterations: nat)
    | InvalidSampleCount

  /** `np.linspace(start, stop, num)`: num evenly spaced points, the first at
      start and, when there are at least two, the last at stop. */
  function Linspace(start: real, stop: real, num: nat): (xs: seq<real>)
    ensures |xs| == num
    ensures num >= 1 ==> xs[0] == start
    ensures num >= 2 ==> xs[num - 1] == stop
  {
    var step := if num >= 2 then (stop - start) / (num - 1) as real else 0.0;
    seq(num, k requires 0 <= k < num => start + k as real * step)
  }

  /** Adjacent linspace points are (stop - start) / (num - 1) apart, so the
      cell the bisection starts on has that width. */
  lemma LinspaceSpacing(start: real, stop: real, num: nat, k: nat)
    requires k + 1 < num
    ensures Linspace(start, stop, num)[k + 1] - Linspace(start, stop, num)[k]
            == (stop - start) / (num - 1) as real
  {
    var step := (stop - start) / (num - 1) as real;
    var xs := Linspace(start, stop, num);
    assert xs[k] == start + k as real * step;
    assert xs[k + 1] == start + (k + 1) as real * step;
  }

  /** The defaults `sigma_min = 0.05, sigma_max = 0.95, grid = 400`: 400
      samples from 0.05 to 0.95, 0.9/399 apart. */
  lemma DefaultSamples(k: nat)
    requires k < 399
    ensures |Linspace(0.05, 0.95, 400)| == 400
    ensures Linspace(0.05, 0.95, 400)[0] == 0.05 && Linspace(0.05, 0.95, 400)[399] == 0.95
    ensures Linspace(0.05, 0.95, 400)[k + 1] - Linspace(0.05, 0.95, 400)[k] == 0.9 / 399.0
  {
    LinspaceSpacing(0.05, 0.95, 400, k);
  }

  function Pow2(n: nat): (p: real)
    ensures p >= 1.0
  {
    if n == 0 then 1.0 else 2.0 * Pow2(n - 1)
  }

  lemma {:induction false} Pow2Add(m: nat, n: nat)
    ensures Pow2(m + n) == Pow2(m) * Pow2(n)
  {
    if n > 0 {
      Pow2Add(m, n - 1);
      assert Pow2(m + n) == 2.0 * Pow2(m + n - 1);
    }
  }

  /** w halved n times. */
  function Halved(w: real, n: nat): real
  {
    if n == 0 then w else Halved(w, n - 1) / 2.0
  }

  /** Halving n times divides by 2^n. */
  lemma {:induction false} HalvedIsDivision(w: real, n: nat)
    ensures Halved(w, n) == w / Pow2(n)
  {
    if n > 0 {
      HalvedIsDivision(w, n - 1);
      assert w / Pow2(n - 1) / 2.0 == w / (2.0 * Pow2(n - 1));
    }
  }

  /** Halving more often never gives a wider bracket. */
  lemma {:induction false} HalvedShrinks(w: real, m: nat, n: nat)
    requires w >= 0.0 && m <= n
    ensures 0.0 <= Halved(w, n) <= Halved(w, m)
    decreases n
  {
    if n > m {
      HalvedShrinks(w, m, n - 1);
    } else if n > 0 {
      HalvedShrinks(w, n - 1, n - 1);
    }
  }

  /** x lies in the closed interval with end points lo and hi, in either order. */
  predicate Between(lo: real, x: real, hi: real)
  {
    (lo <= x <= hi) || (hi <= x <= lo)
  }

  /** The bracket n halvings of the loop reach from [a, b]: each step keeps
      the left half when its ends are not of one strict sign (`Sa*Sm <= 0`)
      and the right half otherwise. */
  ghost function Bisection(f: real -> real, a: real, b: real, n: nat): (real, real)
  {
    if n == 0 then (a, b)
    else
      var (a', b') := Bisection(f, a, b, n - 1);
      var m := 0.5 * (a' + b');
      if Opposed(f(a'), f(m)) then (a', m) else (m, b')
  }

  /** Every one of the first `it` steps of a bisection from a cell of width w
      was taken with the loop guard true: the bracket was still wider than
      tol and fewer than maxIter steps had been taken. */
  ghost predicate StepsTaken(w: real, tol: real, maxIter: int, it: nat)
  {
    forall n: nat {:trigger Halved(w, n)} :: n < it ==> Halved(w, n) > tol && n < maxIter
  }

  /** What the bisection loop of `mmc_scan` guarantees for a run started on
      the cell [a0, b0] that ends on the bracket [a, b] after it steps: the
      bracket is the one `Bisection` reaches in it steps; it lies inside the
      starting cell, has been halved it times, keeps
      the sign change it started with, stays pinned at a0 when the target is
      exactly zero there, and the loop stopped on the first step at which the
      tolerance or the cap was reached. */
  ghost predicate Bisected(f: real -> real, a0: real, b0: real, tol: real, maxIter: int,
                           a: real, b: real, it: nat)
  {
    && (a, b) == Bisection(f, a0, b0, it)
    && Between(a0, a, b0) && Between(a0, b, b0)
    && (a0 <= b0 ==> a0 <= a <= b <= b0)
    && b - a == Halved(b0 - a0, it)
    && (Opposed(f(a0), f(b0)) ==> Opposed(f(a), f(b)))
    && (f(a0) == 0.0 ==> a == a0)
    && (it == 0 || it <= maxIter)
    && StepsTaken(b0 - a0, tol, maxIter, it)
    && (b - a <= tol || it >= maxIter)
  }

  /** The state of the bisection loop after it steps from [a0, b0]: sa and
      sb are the target's values at the ends, the bracket lies in the
      starting cell with its width halved it times, a sign change present at
      the start is still present, and a start on an exact zero at a0 keeps a
      there, and every step so far was taken with the loop guard true. */
  ghost predicate Halving(f: real -> real, a0: real, b0: real, tol: real, maxIter: int,
                          a: real, b: real, sa: real, sb: real, it: nat)
  {
    && sa == f(a) && sb == f(b)
    && (a, b) == Bisection(f, a0, b0, it)
    && (a0 <= b0 ==> a0 <= a <= b <= b0)
    && (b0 < a0 ==> b0 <= b <= a <= a0)
    && b - a == Halved(b0 - a0, it)
    && (Opposed(f(a0), f(b0)) ==> Opposed(sa, sb))
    && (f(a0) == 0.0 ==> a == a0 && sa == 0.0)
    && StepsTaken(b0 - a0, tol, maxIter, it)
  }

  /** One pass of the loop body: evaluate the midpoint and keep the half
      whose ends still have no strict same-sign pair. Either half is nested
      in the current bracket, so a never moves away from b, nor b from a. */
  lemma HalvingStep(f: real -> real, a0: real, b0: real, tol: real, maxIter: int,
                    a: real, b: real, sa: real, sb: real, it: nat)
    requires Halving(f, a0, b0, tol, maxIter, a, b, sa, sb, it)
    requires b - a > tol && it < maxIter
    ensures Between(a, 0.5 * (a + b), b)
    ensures var m := 0.5 * (a + b);
            if Opposed(sa, f(m)) then Halving(f, a0, b0, tol, maxIter, a, m, sa, f(m), it + 1)
            else Halving(f, a0, b0, tol, maxIter, m, b, f(m), sb, it + 1)
  {
    assert Halved(b0 - a0, it) > tol;
  }

  /** The bisection loop of `mmc_scan` (evaluating the target at both ends of
      the chosen cell, then halving while the bracket is wider than tol and
      fewer than maxIter steps were taken). */
  method Bisect(f: real -> real, a0: real, b0: real, tol: real, maxIter: int)
    returns (a: real, b: real, it: nat)
    ensures Bisected(f, a0, b0, tol, maxIter, a, b, it)
  {
    a, b := a0, b0;
    var sa, sb := f(a), f(b);
    it := 0;
    while b - a > tol && it < maxIter
      invariant Halving(f, a0, b0, tol, maxIter, a, b, sa, sb, it)
      invariant it == 0 || it <= maxIter
      decreases maxIter - it
    {
      var m := 0.5 * (a + b);
      var sm := f(m);
      HalvingStep(f, a0, b0, tol, maxIter, a, b, sa, sb, it);
      OpposedIsProduct(sa, sm);
      if sa * sm <= 0.0 {
        b, sb := m, sm;
      } else {
        a, sa := m, sm;
      }
      it := it + 1;
    }
  }

  /** The stopping rule pins the run: two runs from the same cell with the
      same tolerance and cap take the same number of steps and end on the
      same bracket. */
  lemma BisectedStepsUnique(f: real -> real, a0: real, b0: real, tol: real, maxIter: int,
                            a: real, b: real, it: nat, a': real, b': real, it': nat)
    requires Bisected(f, a0, b0, tol, maxIter, a, b, it)
    requires Bisected(f, a0, b0, tol, maxIter, a', b', it')
    ensures it == it' && a == a' && b == b'
  {
    // Each run's exit test, at its own step count, is a guard the other run
    // would have had to pass had it gone further.
    assert Halved(b0 - a0, it) == b - a && Halved(b0 - a0, it') == b' - a';
  }

  /** A unit cell with tolerance 0.5 and cap 80 is halved exactly once,
      whatever the target: the loop stops as soon as the width reaches tol. */
  lemma OneHalvingReachesTol(f: real -> real, a: real, b: real, it: nat)
    requires Bisected(f, 0.0, 1.0, 0.5, 80, a, b, it)
    ensures it == 1 && b - a == 0.5
  {
    assert Halved(1.0, 0) == 1.0 && Halved(1.0, 1) == 0.5;
  }

  /** On the cell [0, 1] with tolerance 0.3 and cap 80, a target negative at
      0, 0.5 and 0.75 and positive at 1 ends the loop on [0.75, 1] after two
      steps, both keeping the right half, whatever the target does elsewhere. */
  lemma TwoRightHalves(f: real -> real, a: real, b: real, it: nat)
    requires f(0.0) < 0.0 && f(0.5) < 0.0 && f(0.75) < 0.0 && f(1.0) > 0.0
    requires Bisected(f, 0.0, 1.0, 0.3, 80, a, b, it)
    ensures it == 2 && a == 0.75 && b == 1.0
  {
    assert Halved(1.0, 0) == 1.0 && Halved(1.0, 1) == 0.5 && Halved(1.0, 2) == 0.25;
    assert Bisection(f, 0.0, 1.0, 1) == (0.5, 1.0);
    assert Bisection(f, 0.0, 1.0, 2) == (0.75, 1.0);
  }

  /** With the default tolerance 1e-10 and cap 80, a run on a cell of the
      default grid takes exactly 25 steps: the width first drops to the
      tolerance there, well before the cap. */
  lemma DefaultRunSteps(f: real -> real, x0: real, x1: real, a: real, b: real, it: nat)
    requires x1 - x0 == 0.9 / 399.0
    requires Bisected(f, x0, x1, 0.0000000001, 80, a, b, it)
    ensures it == 25
  {
    DefaultWidths();
    if it < 25 {
      HalvedShrinks(0.9 / 399.0, it, 24);
    }
  }

  /** The default cell width, 0.9/399, halved 24 times is still above 1e-10
      and halved 25 times is not. */
  lemma DefaultWidths()
    ensures Halved(0.9 / 399.0, 24) > 0.0000000001 >= Halved(0.9 / 399.0, 25)
  {
    HalvedIsDivision(0.9 / 399.0, 24);
    HalvedIsDivision(0.9 / 399.0, 25);
    assert Pow2(2) == 4.0;
    Pow2Add(2, 2);
    Pow2Add(4, 4);
    Pow2Add(8, 8);
    Pow2Add(16, 8);
    assert Pow2(25) == 2.0 * Pow2(24) == 33554432.0;
  }

  /** What a reported point promises about the cell [x0, x1] it was refined
      from: it is the midpoint of the bracket `Bisection` reaches in
      `iterations` steps, whose half-width h is the cell's width over
      2^(iterations + 1); that bracket lies in the cell and keeps
      the cell's sign change; an exact zero at x0 pins the bracket there; the
      loop ran at most maxIter steps, each with the guard true, and ended on
      the tolerance or the cap. */
  ghost predicate RefinedOn(f: real -> real, x0: real, x1: real, tol: real, maxIter: int,
                            sigmaStar: real, iterations: nat)
  {
    var h := Halved(x1 - x0, iterations + 1);
    && sigmaStar == 0.5 * (Bisection(f, x0, x1, iterations).0 + Bisection(f, x0, x1, iterations).1)
    && Between(x0, sigmaStar, x1)
    && (Opposed(f(x0), f(x1)) ==> Opposed(f(sigmaStar - h), f(sigmaStar + h)))
    && (f(x0) == 0.0 ==> sigmaStar == x0 + h)
    && (iterations == 0 || iterations <= maxIter)
    && StepsTaken(x1 - x0, tol, maxIter, iterations)
    && (2.0 * h <= tol || iterations >= maxIter)
  }

  /** The midpoint of the bracket a bisection run ends on keeps the promises
      of `RefinedOn` for the cell the run started on. */
  lemma MidpointRefines(f: real -> real, x0: real, x1: real, tol: real, maxIter: int,
                        a: real, b: real, it: nat)
    requires Bisected(f, x0, x1, tol, maxIter, a, b, it)
    ensures RefinedOn(f, x0, x1, tol, maxIter, 0.5 * (a + b), it)
  {
  }

  /** What an `ok` record promises about the grid xs it was computed on: its
      point is refined from the first qualifying cell, and its slope is the
      slope oracle at that point. */
  ghost predicate Refined(f: real -> real, slope: real -> real, xs: seq<real>,
                          tol: real, maxIter: int, r: Status)
    requires r.Ok?
  {
    match FirstCrossing(Samples(f, xs))
    case None => false
    case Some(i) =>
      && RefinedOn(f, xs[i], xs[i + 1], tol, maxIter, r.sigmaStar, r.iterations)
      && Opposed(f(xs[i]), f(xs[i + 1]))
      && r.slope == slope(r.sigmaStar)
  }

  /** The cell the scan stops at has no strict same-sign pair of samples at
      its ends, so the bisection starts on a bracket. */
  lemma CellHasSignChange(f: real -> real, xs: seq<real>, i: nat)
    requires FirstCrossing(Samples(f, xs)) == Some(i)
    ensures i + 1 < |xs| && Opposed(f(xs[i]), f(xs[i + 1]))
  {
    var vs := Samples(f, xs);
    assert vs[i] == f(xs[i]) && vs[i + 1] == f(xs[i + 1]);
    if vs[i] != 0.0 {
      assert vs[i] * vs[i + 1] < 0.0;
    }
  }

  /** The record built from a bisection run on the first qualifying cell
      keeps the promises of `Refined`. */
  lemma ReportIsRefined(f: real -> real, slope: real -> real, xs: seq<real>, tol: real,
                        maxIter: int, i: nat, a: real, b: real, it: nat)
    requires FirstCrossing(Samples(f, xs)) == Some(i)
    requires Bisected(f, xs[i], xs[i + 1], tol, maxIter, a, b, it)
    ensures Refined(f, slope, xs, tol, maxIter, Ok(0.5 * (a + b), slope(0.5 * (a + b)), it))
  {
    CellHasSignChange(f, xs, i);
    MidpointRefines(f, xs[i], xs[i + 1], tol, maxIter, a, b, it);
  }

  /** The `for` loop of `mmc_scan` that sets `sign_idx` and breaks: the index
      of the first qualifying cell, left to right, or none. */
  method SignIndex(sVals: seq<real>) returns (signIdx: Option<nat>)
    ensures signIdx == FirstCrossing(sVals)
  {
    signIdx := None;
    var i := 0;
    while i + 1 < |sVals|
      invariant i <= |sVals|
      invariant forall j: nat :: j < i ==> !Crosses(sVals, j)
    {
      if sVals[i] == 0.0 || sVals[i] * sVals[i + 1] < 0.0 {
        signIdx := Some(i);
        FirstCrossingAt(sVals, i);
        break;
      }
      i := i + 1;
    }
  }

  /** `mmc_scan`: `grid` samples from sigmaMin to sigmaMax; no qualifying cell
      gives `no-crossing` without any bisection, otherwise the first one is
      refined. */
  method MmcScan(f: real -> real, slope: real -> real, sigmaMin: real, sigmaMax: real,
                 grid: int, tol: real, maxIter: int) returns (r: Status)
    ensures r == InvalidSampleCount <==> grid < 0
    ensures grid >= 0 ==>
              (r == NoCrossing <==> FirstCrossing(Samples(f, Linspace(sigmaMin, sigmaMax, grid))) == None)
    ensures r.Ok? ==> grid >= 2
    ensures r.Ok? ==> Refined(f, slope, Linspace(sigmaMin, sigmaMax, grid), tol, maxIter, r)
  {
    if grid < 0 {
      return InvalidSampleCount;
    }
    var sigmas := Linspace(sigmaMin, sigmaMax, grid);
    var sVals := Samples(f, sigmas);
    var signIdx := SignIndex(sVals);
    if signIdx == None {
      return NoCrossing;
    }
    var k := signIdx.value;
    var a, b, it := Bisect(f, sigmas[k], sigmas[k + 1], tol, maxIter);
    ReportIsRefined(f, slope, sigmas, tol, maxIter, k, a, b, it);
    var sigmaStar := 0.5 * (a + b);
    r := Ok(sigmaStar, slope(sigmaStar), it);
  }
}
