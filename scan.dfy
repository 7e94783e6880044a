/** What the four root locators share: the samples of the target on a grid,
    the test a grid cell must pass to be handed on, and the left-to-right
    choice of the first cell that passes it.

    The target S(sigma, t) at a fixed t is an oracle `f: real -> real`; the
    external root finder, already bound to that target, is an oracle from a
    bracket (a, b) to `Some(root)`, or to `None` where it raises. */
module Scan {

  datatype Option<T> = None | Some(value: T)

  /** How a locator call ends: it returns a number, it returns Python's
      `None`, or an exception escapes to the caller. */
  datatype Outcome = Returns(x: real) | ReturnsNone | Raises

  /** The outcome of returning whatever the root finder gives back: its root
      when it has one, the exception it raised otherwise. */
  function FromFinder(answer: Option<real>): (r: Outcome)
    ensures r != ReturnsNone
    ensures answer.Some? ==> r == Returns(answer.value)
    ensures r.Raises? <==> answer.None?
  {
    match answer
    case Some(x) => Returns(x)
    case None => Raises
  }

  /** The sample values, one evaluation of the target per grid point. */
  function Samples(f: real -> real, xs: seq<real>): (vs: seq<real>)
    ensures |vs| == |xs|
    ensures forall k :: 0 <= k < |xs| ==> vs[k] == f(xs[k])
  {
    seq(|xs|, k requires 0 <= k < |xs| => f(xs[k]))
  }

  /** x and y are not both of one strict sign; stated without a product, it
      is the source's test x * y <= 0 (see `OpposedIsProduct`). */
  predicate Opposed(x: real, y: real)
  {
    (x <= 0.0 && 0.0 <= y) || (y <= 0.0 && 0.0 <= x)
  }

  lemma OpposedIsProduct(x: real, y: real)
    ensures Opposed(x, y) <==> x * y <= 0.0
  {
    if x > 0.0 && y > 0.0 {
      assert x * y > 0.0;
    } else if x < 0.0 && y < 0.0 {
      assert x * y > 0.0;
    } else if x >= 0.0 && y <= 0.0 {
      assert x * y <= 0.0;
    } else {
      assert x * y <= 0.0;
    }
  }

  /** Cell i, between samples i and i + 1, qualifies when its left sample is
      an exact zero or its two samples have strictly opposite signs. */
  predicate Crosses(vs: seq<real>, i: nat)
  {
    i + 1 < |vs| && (vs[i] == 0.0 || vs[i] * vs[i + 1] < 0.0)
  }

  /** The first qualifying cell at or after cell k, scanning left to right. */
  function FirstCrossingFrom(vs: seq<real>, k: nat): (r: Option<nat>)
    ensures r.Some? ==> k <= r.value && Crosses(vs, r.value)
    ensures forall j: nat :: k <= j && (r.None? || j < r.value) ==> !Crosses(vs, j)
    decreases |vs| - k
  {
    if k + 1 >= |vs| then None
    else if Crosses(vs, k) then Some(k)
    else FirstCrossingFrom(vs, k + 1)
  }

  /** The cell a scan of the whole grid stops at, if any. */
  function FirstCrossing(vs: seq<real>): (r: Option<nat>)
    ensures r.Some? ==> r.value + 1 < |vs| && Crosses(vs, r.value)
    ensures r.Some? ==> forall j: nat :: j < r.value ==> !Crosses(vs, j)
    ensures r.None? <==> forall j: nat :: !Crosses(vs, j)
  {
    FirstCrossingFrom(vs, 0)
  }

  /** A qualifying cell with no qualifying cell to its left is the one the
      scan stops at. */
  lemma FirstCrossingAt(vs: seq<real>, i: nat)
    requires Crosses(vs, i)
    requires forall j: nat :: j < i ==> !Crosses(vs, j)
    ensures FirstCrossing(vs) == Some(i)
  {
  }

  /** The scan never looks past the cell it stops at: samples to the right of
      that cell can be anything without changing the choice. */
  lemma LaterSamplesIgnored(vs: seq<real>, ws: seq<real>, i: nat)
    requires FirstCrossing(vs) == Some(i)
    requires i + 2 <= |ws| && ws[..i + 2] == vs[..i + 2]
    ensures FirstCrossing(ws) == Some(i)
  {
    assert forall k :: 0 <= k < i + 2 ==> ws[k] == vs[k] by {
      forall k | 0 <= k < i + 2 ensures ws[k] == vs[k] {
        assert ws[..i + 2][k] == vs[..i + 2][k];
      }
    }
    forall j: nat | j < i ensures !Crosses(ws, j) {
      assert !Crosses(vs, j);
    }
    FirstCrossingAt(ws, i);
  }

  /** The last sample is only ever the right end of a cell and is never tested
      for an exact zero on its own: a target that is positive at every other
      grid point and exactly zero at the last one reports no crossing. */
  lemma FinalZeroMissed(vs: seq<real>)
    requires |vs| >= 2 && vs[|vs| - 1] == 0.0
    requires forall j :: 0 <= j < |vs| - 1 ==> vs[j] > 0.0
    ensures FirstCrossing(vs) == None
  {
    forall j: nat ensures !Crosses(vs, j) {
      if j + 1 < |vs| {
        assert vs[j] > 0.0 && vs[j + 1] >= 0.0;
        assert vs[j] * vs[j + 1] >= 0.0;
      }
    }
  }
}
