# Optimal spherical cap height — a Dafny model

This project models the computational core of the two Python scripts of
optimalSphericalCapHeight. The core is the cap-height solver
`optimize_cap_height(R, num_caps, tolerance)` and its two area helpers.
The solver bisects the interval `[0, R]` to find the height `h` at which
`num_caps` spherical caps, each of area `2*pi*R*h`, together have the area
`4*pi*R*R` of the whole sphere. The exact answer is `2R/num_caps`.
The two scripts carry identical copies of the solver.

- `optimal_cap_height.dfy`, module `OptimalSphericalCapHeight`, models
  optimalSphericalCapHeight.py. It holds the area functions and the loop as
  the method `OptimizeCapHeight`. It also holds a functional reference for
  the loop: `Bisect` is the loop run from a given interval, and `Solve` is
  the loop run from `[0, R]`. The lemmas are proved about `Solve`. The method's
  contract ties its result to `Solve`, so they apply to the method too.
- `plot_spherical_caps.dfy`, module `PlotSphericalCapsOnSphere`, models the
  copies in plotSphericalCapsOnSphere.py. Its own loop is proved to return
  exactly `OptimalSphericalCapHeight.Solve`, so the properties carry over.

Modelling choices:

- All numbers are exact `real`s.
- pi (`math.pi`, `np.pi`) is a parameter `pi` of every member that
  involves an area. Every property assumes only `pi > 0`. The branch condition
  `num_caps * 2*pi*R*h > 4*pi*R*R` is shown equivalent to
  `num_caps * h > 2R` when `R > 0` (the contract of `OverCovers`). `MathPi` (the decimal
  Python prints for `math.pi`) is used only in the worked example.
- The only precondition is `tolerance > 0`. Without it the exact-real loop
  need not stop. The source checks nothing about `R` or `num_caps`, so the
  model accepts any values and states each property under the hypotheses it
  needs.
- The default argument `tolerance=1e-6` is the constant `DefaultTolerance`.
  Callers pass it explicitly.
- Termination uses the measure `floor((h_max - h_min) / tolerance)`.
  A ghost iteration counter `k` records `h_max - h_min == R / 2^k`.
  The method also returns the final interval and `k` as ghost values.
- Monotonicity in the cap count is proved in two forms. More caps never
  give a greater height, for every input (`SolveAntitoneInCount`). Strictly
  smaller heights hold when the two exact roots lie more than twice the
  tolerance apart (`SolveStrictlyAntitoneInCount`). That covers the counts
  2, 4, 6, 8, 12 and 20 on the unit sphere (`MainCountsStrictlyDecrease`). It cannot hold
  for every input: for `R <= tolerance` every count gives `R/2`.

## Model

| member | source | states |
|---|---|---|
| `OptimalSphericalCapHeight.SphericalCapSurfaceArea` | optimalSphericalCapHeight.py:3-4 | a cap's area is non-negative when pi, R and h are |
| `OptimalSphericalCapHeight.CapAreaStrictlyIncreasing` | optimalSphericalCapHeight.py:3-4 | for pi > 0 and R > 0 a cap's area is strictly increasing in h |
| `OptimalSphericalCapHeight.TotalSurfaceAreaOfCaps` | optimalSphericalCapHeight.py:6-7 | the total area is non-negative for a non-negative count and non-negative pi, R, h |
| `OptimalSphericalCapHeight.TotalAreaCountsCaps` | optimalSphericalCapHeight.py:6-7 | zero caps cover nothing and each further cap adds exactly one cap's area |
| `OptimalSphericalCapHeight.TotalAreaStrictlyIncreasing` | optimalSphericalCapHeight.py:6-7 | with at least one cap the total area is strictly increasing in h |
| `OptimalSphericalCapHeight.OverCovers` | optimalSphericalCapHeight.py:16-18 | the branch test total_area > 4*pi*R*R; it holds exactly when num_caps * h > 2R, for any pi > 0 and R > 0 |
| `OptimalSphericalCapHeight.OverCoversMonotoneInCount` | optimalSphericalCapHeight.py:16-18 | a height that over-covers with some caps also over-covers with more |
| `OptimalSphericalCapHeight.HalvingShrinksMeasure` | optimalSphericalCapHeight.py:14-15 | halving an interval wider than the tolerance lowers the whole number of tolerances in its width, so the loop terminates |
| `OptimalSphericalCapHeight.Bisect` | optimalSphericalCapHeight.py:14-23 | the loop as a recursive function from a given interval and midpoint; every midpoint lies in the interval it halves, so the result lies in the starting interval (its other properties are the Bisect* lemmas) |
| `OptimalSphericalCapHeight.StepKeepsBrackets` | optimalSphericalCapHeight.py:15-21 | one step keeps 0 <= h_min <= h_max <= R, num_caps*h_min <= 2R, and h_max == R or num_caps*h_max > 2R |
| `OptimalSphericalCapHeight.BracketsLocateRoot` | optimalSphericalCapHeight.py:14-21 | under that invariant the root 2R/num_caps lies in [h_min, h_max] for num_caps >= 2, and h_max is still R for num_caps <= 1 |
| `OptimalSphericalCapHeight.BisectConverges` | optimalSphericalCapHeight.py:14-23 | from a bracketing interval the loop ends within tolerance of 2R/num_caps (num_caps >= 2), or within tolerance below R (num_caps <= 1) |
| `OptimalSphericalCapHeight.BisectAntitoneInCount` | optimalSphericalCapHeight.py:14-23 | two runs over intervals of equal width, the first equal to or wholly below the second, with at least as many caps in the first: the first result is not above the second |
| `OptimalSphericalCapHeight.LoopStep` | optimalSphericalCapHeight.py:14-21 | one iteration keeps the loop invariant: width R/2^k, bounds, bracketing, agreement with the reference; it also lowers the termination measure |
| `OptimalSphericalCapHeight.Solve` | optimalSphericalCapHeight.py:9-23 | optimize_cap_height as a function, the loop started on [0, R] with midpoint R/2; for R >= 0 the result lies in [0, R]; if R <= tolerance the loop body never runs and the result is R/2 (its other properties are the Solve* lemmas) |
| `OptimalSphericalCapHeight.SolveNearRoot` | optimalSphericalCapHeight.py:9-23 | for pi > 0, R > 0, num_caps >= 2 the result is within tolerance of 2R/num_caps |
| `OptimalSphericalCapHeight.SolveSingleCap` | optimalSphericalCapHeight.py:14-23 | for num_caps <= 1 the `>` branch never fires and the result is within tolerance below R |
| `OptimalSphericalCapHeight.SolveAreaNearSphere` | optimalSphericalCapHeight.py:16-23 | the caps at the result miss 4*pi*R*R by at most num_caps*2*pi*R*tolerance |
| `OptimalSphericalCapHeight.AreaGapBound` | optimalSphericalCapHeight.py:16-18 | any height within tolerance of 2R/num_caps gives caps whose area misses 4*pi*R*R by at most num_caps*2*pi*R*tolerance |
| `OptimalSphericalCapHeight.SolveAntitoneInCount` | optimalSphericalCapHeight.py:9-23 | for fixed R and tolerance, more caps never give a greater height |
| `OptimalSphericalCapHeight.SolveStrictlyAntitoneInCount` | optimalSphericalCapHeight.py:9-23 | for R > 0 and 2 <= fewer <= more caps whose roots lie more than 2*tolerance apart, more caps give a strictly smaller height |
| `OptimalSphericalCapHeight.MainCountsStrictlyDecrease` | optimalSphericalCapHeight.py:32-38 | for main's counts on the unit sphere with tolerance 1e-6, 20, 12, 8, 6, 4 and 2 caps give strictly increasing heights in that order |
| `OptimalSphericalCapHeight.FourCapsApproachRootFromAbove` | optimalSphericalCapHeight.py:18-21 | with 4 caps the first midpoint R/2 meets 4*pi*R*R exactly; the strict `>` moves h_min up to it, so the result lies in [R/2, R/2 + tolerance] |
| `OptimalSphericalCapHeight.SixCapsOnUnitSphere` | optimalSphericalCapHeight.py:32-38 | R = 1, six caps, tolerance 1e-6: the result is within 1e-6 of 1/3 |
| `OptimalSphericalCapHeight.OptimizeCapHeight` | optimalSphericalCapHeight.py:9-23 | the loop returns Solve; on exit h_max - h_min = R/2^k <= tolerance, and k is the first such count; k = 0 exactly when R <= tolerance, and then h = R/2; otherwise h is h_min or h_max; the result and the interval lie in [0, R]; the root is bracketed and h is within tolerance of it (num_caps >= 2), or h_max = R and h is within tolerance below R (num_caps <= 1) |
| `PlotSphericalCapsOnSphere.CapSurfaceArea` | plotSphericalCapsOnSphere.py:5-6 | a cap's area is non-negative when pi, R and h are |
| `PlotSphericalCapsOnSphere.TotalSurfaceAreaOfCaps` | plotSphericalCapsOnSphere.py:8-9 | the total area is non-negative for a non-negative count and non-negative pi, R, h |
| `PlotSphericalCapsOnSphere.AreasAgree` | plotSphericalCapsOnSphere.py:5-9 | both helpers equal those of optimalSphericalCapHeight.py on every input |
| `PlotSphericalCapsOnSphere.CapAreaStrictlyIncreasing` | plotSphericalCapsOnSphere.py:5-6 | for pi > 0 and R > 0 a cap's area is strictly increasing in h |
| `PlotSphericalCapsOnSphere.OptimizeCapHeight` | plotSphericalCapsOnSphere.py:11-25 | the copy of the loop returns exactly what the other file's loop returns; the final width is at most tolerance; h = R/2 when R <= tolerance, else h is the final h_min or h_max; h lies in [0, R]; it is within tolerance of 2R/num_caps (num_caps >= 2), or h_max stays R and h is within tolerance below R (num_caps <= 1) |

## Left out

- `phi_from_height` and `arc_length_from_phi` (optimalSphericalCapHeight.py:25-29): they are built on `asin` and `sin`, which have no exact real model here.
- `plot_spherical_caps_on_sphere` (plotSphericalCapsOnSphere.py:27-54): meshgrid construction and matplotlib rendering, including the `cos`/`sin`/`arccos` cap-centre computation.
- Both `main` functions: printing and literal parameters. The R = 1, six-cap case of optimalSphericalCapHeight.py is kept as the lemma `SixCapsOnUnitSphere`.
- Floating-point rounding: the model computes with exact reals. In doubles, a midpoint can round onto an interval end. The width can then stop shrinking if the tolerance is below one unit in the last place. The model does not capture this.
- Placing caps at the vertices of regular polyhedra, and rotation matrices that align vectors: neither appears in the two source files, so neither is modelled.
