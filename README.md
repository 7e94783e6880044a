# Sign-flux root locators, modelled in Dafny

The repository's scripts look for σ*(t), the place where the sign-flux function
S(σ, t) (the σ-derivative of log|ξ(σ + it)|) changes sign at a fixed height t.
Four functions do this with the same recipe: sample S on a grid of σ values,
take the first grid cell, left to right, that brackets a sign change, and
refine it. This project models those four functions and proves what each one
returns:

- `mmc_scan` (MMC_SCAN.py) samples `np.linspace(sigma_min, sigma_max, grid)`.
  It takes the first cell whose left sample is exactly zero or whose samples
  have strictly opposite signs. It refines that cell with its own bisection
  loop, which has a tolerance and an iteration cap. It returns a `no-crossing`
  record, or an `ok` record holding `sigma_star`, `slope` and `iterations`.
- `find_sigma_star` (FLUX_8.py, and word for word FLUX_7.py) samples
  `grid + 1` evenly spaced points. It returns a sample point at once when the
  sample there is exactly zero and the scan reaches it as the left end of a
  cell. Otherwise it hands the first cell with a strict sign change to the
  external root finder. It returns `None` when no cell qualifies.
- `find_root_near_half` (FLUX5.py) first calls the root finder with the two
  starting points 0.45 and 0.55. Only if that raises does it scan 51 points
  from 0.45 to 0.55.
  It hands the first qualifying cell to the root finder, an exact zero
  included, and here a failure of the root finder is no longer caught.

S(·, t) at the fixed t is an abstract oracle `f: real -> real`. `mp.findroot`,
already bound to that f, is an oracle from a bracket `(a, b)` to `Some(root)`,
or to `None` where it raises. The slope `S_prime_sigma(·, t)` that `mmc_scan`
reports is a third oracle, `slope: real -> real`. Everything is computed over
`real`, where the bisection facts hold exactly.

Modules, one per source file (FLUX_7.py shares FLUX_8.py's):

- `scan.dfy`, module `Scan`: the pieces the locators share. `Samples` is the
  list of target values, one per grid point (the comprehensions at
  MMC_SCAN.py:17, FLUX_8.py:35 and FLUX5.py:31). `Crosses` is the test a
  cell must pass (MMC_SCAN.py:20, FLUX_8.py:38-40, FLUX5.py:33).
  `FirstCrossing` is the reference definition of the left-to-right choice.
  `Outcome` is how a call ends: a number, `None`, or an exception.
  `FromFinder` encodes `return mp.findroot(...)` (FLUX_8.py:45, FLUX_7.py:35,
  FLUX5.py:28 and 34): the root finder's root, or the exception it raised.
- `mmc_scan.dfy`, module `Mmc`: `Status`, the returned dict (`no-crossing`,
  or `ok` with `sigma_star`, `slope` and `iterations`), `Linspace`, the
  sign-index loop `SignIndex`, the bisection loop `Bisect`, the reference
  definition `Bisection` of the bracket n halvings reach, and `MmcScan`.
- `sigma_star.dfy`, module `SigmaStar`: `Grid` and `FindSigmaStar`.
- `near_half.dfy`, module `NearHalf`: `FallbackGrid` and `FindRootNearHalf`.

The source tests `Sa*Sm <= 0` and `fa*fb < 0` with products. The model keeps
the products in the loops. In the contracts it uses the product-free predicate
`Opposed(x, y)` ("not both of one strict sign"), and the lemma
`Scan.OpposedIsProduct` proves that `Opposed(x, y)` is exactly `x * y <= 0`.

Facts about the code that the model keeps:

- `mmc_scan` samples `grid` points; `find_sigma_star` samples `grid + 1`.
- `mmc_scan` does not return an exact zero directly. It bisects from it, and
  the bracket then stays pinned at that sample. `find_sigma_star` returns an
  exact zero as it is; `find_root_near_half` hands it to the root finder.
- The `ok` record carries the slope S' at σ*, not S(σ*).
- No function checks its arguments up front. A negative sample count makes
  `np.linspace` raise. `grid = 0` raises a division by zero in FLUX_8.py's
  list comprehension. A negative `grid` in FLUX_8.py gives an empty grid and
  `None`.
- In the bisection loop a cap `maxiter <= 0` ends the loop at once. A
  tolerance `tol <= 0` does not: on an ascending cell the loop then runs to
  the cap.
- The loop stops at the first step where the width is at most `tol` or the
  cap is reached, so the step count is fixed by the cell, `tol` and
  `maxiter`. With the defaults (0.05, 0.95, 400, 1e-10, 80) every cell is
  0.9/399 wide and a run takes exactly 25 steps.

## Model

| member | source | states |
|---|---|---|
| `Scan.FirstCrossingFrom` | MMC_SCAN.py:19-22 | the scan from cell k returns the first qualifying cell at or after k, or none when no later cell qualifies |
| `Scan.FirstCrossing` | FLUX_8.py:37-41 | the whole-grid scan picks a qualifying cell with no qualifying cell to its left; it gives none exactly when no cell qualifies |
| `Scan.FirstCrossingAt` | FLUX_7.py:27-31 | a qualifying cell with no qualifying cell to its left is the one the scan stops at (first one, left to right) |
| `Scan.LaterSamplesIgnored` | FLUX_8.py:37-41 | samples to the right of the chosen cell can be changed arbitrarily without changing the choice: later pairs are never examined |
| `Scan.FinalZeroMissed` | FLUX_8.py:37-38 | the last sample is only ever a right end: a target positive at every other grid point and exactly zero at the last one reports no crossing |
| `Scan.OpposedIsProduct` | MMC_SCAN.py:31 | the product-free sign test used in the contracts is exactly the source's `x*y <= 0` |
| `Mmc.Linspace` | MMC_SCAN.py:16 | `np.linspace`: `num` points, the first at start and, for two or more, the last at stop |
| `Mmc.LinspaceSpacing` | MMC_SCAN.py:16 | adjacent linspace points are (stop - start)/(num - 1) apart |
| `Mmc.DefaultSamples` | MMC_SCAN.py:15-16 | the defaults 0.05, 0.95, 400 give 400 samples from 0.05 to 0.95, 0.9/399 apart |
| `Mmc.SignIndex` | MMC_SCAN.py:18-22 | the `for`/`break` loop sets `sign_idx` to exactly the first qualifying cell, left to right, or leaves it `None` when none qualifies |
| `Mmc.HalvedIsDivision` | MMC_SCAN.py:29-33 | halving a width n times is division by 2^n |
| `Mmc.HalvedShrinks` | MMC_SCAN.py:28-33 | more halvings never give a wider bracket, and a width never turns negative |
| `Mmc.HalvingStep` | MMC_SCAN.py:28-33 | one bisection step taken with the guard true keeps the loop invariant in both branches: the left half is kept when `Sa*Sm <= 0`, else the right half; the new bracket is nested in the old one, its width is halved, the sign change and a pinned zero end are kept, and every step so far passed the guard |
| `Mmc.Bisect` | MMC_SCAN.py:25-33 | the loop ends on exactly the bracket `Bisection` reaches in `it` halvings (left half kept when `Sa*Sm <= 0`, right half otherwise); that bracket lies inside the starting cell (a ≤ b for an ascending cell), width = cell width / 2^it, sign change kept, a pinned on an exact zero at the left end, it ≤ maxiter; each of the it steps was taken with width > tol and fewer than maxiter steps done, and at the end width ≤ tol or it ≥ maxiter |
| `Mmc.BisectedStepsUnique` | MMC_SCAN.py:28 | the stopping rule fixes the run: two runs from the same cell, tolerance and cap take the same number of steps and end on the same bracket |
| `Mmc.TwoRightHalves` | MMC_SCAN.py:28-33 | on [0, 1] with tol 0.3, a target negative at 0, 0.5 and 0.75 and positive at 1 ends the loop on [0.75, 1] after two steps, both keeping the right half |
| `Mmc.OneHalvingReachesTol` | MMC_SCAN.py:28 | on a unit cell with tol 0.5 and cap 80 the loop stops after exactly one step (0.5 ≤ 0.5 ends it) |
| `Mmc.DefaultRunSteps` | MMC_SCAN.py:15-33 | with the default tol 1e-10 and cap 80, a run on a default-grid cell takes exactly 25 steps |
| `Mmc.DefaultWidths` | MMC_SCAN.py:28 | the default cell width 0.9/399 halved 24 times is still above 1e-10, and halved 25 times is not |
| `Mmc.MidpointRefines` | MMC_SCAN.py:34 | σ* = (a+b)/2 is the midpoint of the bracket `Bisection` reaches in `iterations` halvings; it lies in the cell and is the centre of a bracket of half-width cellwidth/2^(it+1) that keeps the sign change; the stopping facts carry over to `iterations` |
| `Mmc.CellHasSignChange` | MMC_SCAN.py:20 | the chosen cell's end values are not of one strict sign, so `Sa*Sb <= 0` at loop entry |
| `Mmc.ReportIsRefined` | MMC_SCAN.py:25-36 | the `ok` record built from a bisection run on the first qualifying cell keeps all the promises of `Refined` |
| `Mmc.MmcScan` | MMC_SCAN.py:15-36 | S is sampled once per linspace point (line 17); `no-crossing` exactly when no cell qualifies; a negative grid raises; an `ok` record has σ* equal to the midpoint of the bracket that `iterations` halvings of the first qualifying cell reach, inside that cell, as the centre of a sign-change bracket, `iterations` ≤ maxiter with every step taken while the width exceeded tol, tolerance or cap reached at the end, σ* = left end + half-width when that end is an exact zero, and slope = S'(σ*) |
| `SigmaStar.Grid` | FLUX_8.py:34 | `grid + 1` points from `left` to `right` (empty for a negative grid) |
| `SigmaStar.GridSpacing` | FLUX_8.py:34 | adjacent grid points are (right - left)/grid apart |
| `SigmaStar.FindSigmaStar` | FLUX_8.py:32-45 | S is sampled once per grid point (line 35); `grid = 0` raises; `None` exactly when no cell qualifies; an exact zero at the left end of the first qualifying cell returns that sample (before the sign test); otherwise that cell has `fa*fb < 0` and the root finder's answer or exception is the result |
| `SigmaStar.DefaultGrid` | FLUX_7.py:22-24 | the defaults 0.3, 0.7, 400 give 401 points from 0.3 to 0.7, 0.001 apart |
| `SigmaStar.FinderBracket` | FLUX_7.py:24-35 | a bracket handed to the root finder is one grid cell of width (right - left)/grid with `fa*fb < 0` |
| `NearHalf.FallbackGrid` | FLUX5.py:30 | 51 points from 0.45 to 0.55, all inside that window |
| `NearHalf.FallbackSpacing` | FLUX5.py:30 | adjacent fallback points are 0.002 apart |
| `NearHalf.FindRootNearHalf` | FLUX5.py:24-35 | a successful primary call from the starting points 0.45 and 0.55 is returned with no scan; S is sampled once per fallback point (line 31); after a failure, the first qualifying cell, an exact zero included, goes to the root finder, whose failure now escapes; `None` exactly when the primary call fails and no cell qualifies |

## Left out

- The evaluators `xi`, `xi_eval`, `L`, `S_sigma`, `dS_dsigma`, `S_prime_sigma` and `xi_prime_complex_step`: arbitrary-precision ζ, Γ and digamma arithmetic and finite differences. S(·, t) and its slope are oracles.
- The evaluators are modelled as total, so an exception raised while sampling S is not modelled.
- `mp.findroot` itself: an oracle that returns a root or raises. Nothing is assumed about the root it returns, not even that it lies between its starting points.
- Floating point: `float(...)` conversions, `np.linspace` rounding, `mp.dps` precision. The model computes over exact reals, so `0.45 + k*(0.10/50)` hits 0.55 exactly, and a bisection width never stalls at machine precision.
- The second evaluation of S at the two ends of the chosen cell in `mmc_scan` is kept inside `Mmc.Bisect`. S is modelled as pure, so these values equal the samples already taken.
- `mmc_scan`'s `ok` record states the final bracket through σ* and `iterations`, because the record holds no bracket ends.
- The module-level script code and its `print` reporting in every file.
- FLUX_1.py to FLUX_4.py and FLUX_6.py: plotting, residual checks and symbolic algebra, with no root search.
