/** `find_root_near_half`, the locator of FLUX5.py: call the root finder
    starting from 0.45 and 0.55; only if that raises, scan 51 points from
    0.45 to 0.55 and hand the first qualifying cell to the root finder, this
    time outside any handler. */
module NearHalf {
  import opened Scan

  /** The fallback points `0.45 + k * (0.10 / 50)`, k = 0 .. 50. */
  function FallbackGrid(): (xs: seq<real>)
    ensures |xs| == 51 && xs[0] == 0.45 && xs[50] == 0.55
    ensures forall k :: 0 <= k < 51 ==> 0.45 <= xs[k] <= 0.55
  {
    seq(51, k requires 0 <= k < 51 => 0.45 + k as real * (0.10 / 50.0))
  }

  /** Adjacent fallback points are 0.002 apart. */
  lemma FallbackSpacing(k: nat)
    requires k < 50
    ensures FallbackGrid()[k + 1] - FallbackGrid()[k] == 0.002
  {
    var xs := FallbackGrid();
    assert xs[k] == 0.45 + k as real * 0.002;
    assert xs[k + 1] == 0.45 + (k + 1) as real * 0.002;
  }

  /** What the fallback scan returns on the grid xs: None when no cell
      qualifies, otherwise whatever the root finder does on the first
      qualifying cell, an exact zero at its left end included. */
  ghost predicate FallbackAnswers(f: real -> real, findRoot: (real, real) -> Option<real>,
                                  xs: seq<real>, r: Outcome)
  {
    match FirstCrossing(Samples(f, xs))
    case None => r == ReturnsNone
    case Some(i) => r == FromFinder(findRoot(xs[i], xs[i + 1]))
  }

  /** `find_root_near_half(t)`, with the target f = S(., t) and the root
      finder findRoot already bound to it. */
  method FindRootNearHalf(f: real -> real, findRoot: (real, real) -> Option<real>)
    returns (r: Outcome)
    ensures findRoot(0.45, 0.55).Some? ==> r == Returns(findRoot(0.45, 0.55).value)
    ensures findRoot(0.45, 0.55).None? ==> FallbackAnswers(f, findRoot, FallbackGrid(), r)
    ensures r == ReturnsNone <==>
              findRoot(0.45, 0.55).None? && FirstCrossing(Samples(f, FallbackGrid())) == None
  {
    var primary := findRoot(0.45, 0.55);
    if primary.Some? {
      return Returns(primary.value);
    }
    var sigs := FallbackGrid();
    var vals := Samples(f, sigs);
    var i := 0;
    while i + 1 < |sigs|
      invariant i <= |sigs|
      invariant forall j: nat :: j < i ==> !Crosses(vals, j)
    {
      var a, b, fa, fb := sigs[i], sigs[i + 1], vals[i], vals[i + 1];
      if fa == 0.0 || fa * fb < 0.0 {
        FirstCrossingAt(vals, i);
        return FromFinder(findRoot(a, b));
      }
      i := i + 1;
    }
    return ReturnsNone;
  }
}
