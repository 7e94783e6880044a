/** `find_sigma_star`, the locator of FLUX_8.py and, in the same words, of
    FLUX_7.py: a uniform grid of `grid + 1` points from left to right, a scan
    that returns an exactly-zero sample at once or stops at the first strict
    sign change, and a hand-off of that bracket to the external root finder. */
module SigmaStar {
  import opened Scan

  /** Grid point k, `left + k * (right - left) / grid`. */
  function GridPoint(left: real, right: real, grid: int, k: int): real
    requires grid != 0
  {
    left + k as real * (right - left) / grid as real
  }

  /** The list `[left + k * (right - left) / grid for k in range(grid + 1)]`.
      For grid = 0 Python raises ZeroDivisionError, which the caller models;
      a negative grid gives an empty range. */
  function Grid(left: real, right: real, grid: int): (xs: seq<real>)
    requires grid != 0
    ensures grid < 0 ==> xs == []
    ensures grid > 0 ==> |xs| == grid + 1 && xs[0] == left && xs[grid] == right
  {
    if grid < 0 then []
    else
      EndPoints(left, right, grid);
      seq(grid + 1, k requires 0 <= k <= grid => GridPoint(left, right, grid, k))
  }

  lemma MultipleOverSelf(g: real, d: real)
    requires g != 0.0
    ensures g * d / g == d
  {
    var q := g * d / g;
    assert q * g == g * d;
    assert (q - d) * g == 0.0;
  }

  /** Grid point 0 is left and grid point grid is right. */
  lemma EndPoints(left: real, right: real, grid: int)
    requires grid > 0
    ensures GridPoint(left, right, grid, 0) == left
    ensures GridPoint(left, right, grid, grid) == right
  {
    MultipleOverSelf(grid as real, right - left);
  }

  lemma NextMultiple(k: real, d: real, g: real)
    requires g != 0.0
    ensures (k + 1.0) * d / g - k * d / g == d / g
  {
    assert (k + 1.0) * d == k * d + d;
  }

  /** Adjacent grid points are (right - left) / grid apart. */
  lemma GridSpacing(left: real, right: real, grid: int, k: nat)
    requires grid > 0 && k < grid
    ensures Grid(left, right, grid)[k + 1] - Grid(left, right, grid)[k] == (right - left) / grid as real
  {
    NextMultiple(k as real, right - left, grid as real);
    assert GridPoint(left, right, grid, k + 1) - GridPoint(left, right, grid, k) == (right - left) / grid as real;
  }

  /** What `find_sigma_star` returns on the grid xs: None when no cell
      qualifies; the sample point itself when the first qualifying cell
      starts on an exact zero; otherwise that cell has a strict sign change
      and the result is the root finder's on it. */
  ghost predicate Answers(f: real -> real, findRoot: (real, real) -> Option<real>,
                          xs: seq<real>, r: Outcome)
  {
    var vs := Samples(f, xs);
    match FirstCrossing(vs)
    case None => r == ReturnsNone
    case Some(i) =>
      if vs[i] == 0.0 then r == Returns(xs[i])
      else vs[i] * vs[i + 1] < 0.0 && r == FromFinder(findRoot(xs[i], xs[i + 1]))
  }

  /** `find_sigma_star(t, left, right, grid)`, with the target f = S(., t)
      and the root finder findRoot already bound to it. */
  method FindSigmaStar(f: real -> real, findRoot: (real, real) -> Option<real>,
                       left: real, right: real, grid: int) returns (r: Outcome)
    ensures grid == 0 ==> r == Raises
    ensures grid != 0 ==> Answers(f, findRoot, Grid(left, right, grid), r)
    ensures r == ReturnsNone <==> grid != 0 && FirstCrossing(Samples(f, Grid(left, right, grid))) == None
  {
    if grid == 0 {
      return Raises;
    }
    var sigs := Grid(left, right, grid);
    var vals := Samples(f, sigs);
    var br: Option<(real, real)> := None;
    var i := 0;
    while i + 1 < |sigs|
      invariant i <= |sigs|
      invariant forall j: nat :: j < i ==> !Crosses(vals, j)
      invariant br == None
    {
      var a, b, fa, fb := sigs[i], sigs[i + 1], vals[i], vals[i + 1];
      if fa == 0.0 {
        FirstCrossingAt(vals, i);
        return Returns(a);
      }
      if fa * fb < 0.0 {
        FirstCrossingAt(vals, i);
        br := Some((a, b));
        break;
      }
      i := i + 1;
    }
    if br == None {
      return ReturnsNone;
    }
    r := FromFinder(findRoot(br.value.0, br.value.1));
  }

  /** The defaults of both files, `left = 0.3, right = 0.7, grid = 400`: 401
      points from 0.3 to 0.7, one thousandth apart. */
  lemma DefaultGrid(k: nat)
    requires k < 400
    ensures |Grid(0.3, 0.7, 400)| == 401
    ensures Grid(0.3, 0.7, 400)[0] == 0.3 && Grid(0.3, 0.7, 400)[400] == 0.7
    ensures Grid(0.3, 0.7, 400)[k + 1] - Grid(0.3, 0.7, 400)[k] == 0.001
  {
    GridSpacing(0.3, 0.7, 400, k);
  }

  /** A bracket handed to the root finder is one grid cell, of width
      (right - left) / grid, whose end values have strictly opposite signs. */
  lemma FinderBracket(f: real -> real, left: real, right: real, grid: int, i: nat)
    requires grid != 0
    requires FirstCrossing(Samples(f, Grid(left, right, grid))) == Some(i)
    requires f(Grid(left, right, grid)[i]) != 0.0
    ensures grid > 0 && i < grid
    ensures Grid(left, right, grid)[i + 1] - Grid(left, right, grid)[i] == (right - left) / grid as real
    ensures f(Grid(left, right, grid)[i]) * f(Grid(left, right, grid)[i + 1]) < 0.0
  {
    var xs := Grid(left, right, grid);
    var vs := Samples(f, xs);
    assert vs[i] == f(xs[i]) && vs[i + 1] == f(xs[i + 1]);
    GridSpacing(left, right, grid, i);
  }
}
