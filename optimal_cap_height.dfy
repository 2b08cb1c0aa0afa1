/** Model of optimalSphericalCapHeight.py: the area of a spherical cap, the
    total area of a number of equal caps, and the bisection that finds the cap
    height at which the caps together cover exactly the sphere's surface.

    All quantities are exact reals. The value of pi is a parameter `pi`
    (math.pi in the source); every property below needs only `pi > 0`. */
module OptimalSphericalCapHeight {

  /** The decimal value Python prints for math.pi. */
  const MathPi: real := 3.141592653589793

  /** The default `tolerance` of optimize_cap_height, 1e-6. */
  const DefaultTolerance: real := 0.000001

  /** Area 2*pi*R*h of a spherical cap of height `h` on a sphere of radius `radius`. */
  function SphericalCapSurfaceArea(pi: real, radius: real, h: real): (area: real)
    ensures pi >= 0.0 && radius >= 0.0 && h >= 0.0 ==> area >= 0.0
  {
    2.0 * pi * radius * h
  }

  /** Combined area of `numCaps` caps of height `h`. */
  function TotalSurfaceAreaOfCaps(pi: real, radius: real, h: real, numCaps: int): (area: real)
    ensures numCaps >= 0 && pi >= 0.0 && radius >= 0.0 && h >= 0.0 ==> area >= 0.0
  {
    (numCaps as real) * SphericalCapSurfaceArea(pi, radius, h)
  }

  /** The branch condition of the loop: the caps cover more than 4*pi*R*R,
      the area of the whole sphere. pi drops out of it: for pi > 0 and R > 0
      the caps over-cover exactly when numCaps * h > 2 * R. */
  predicate OverCovers(pi: real, radius: real, h: real, numCaps: int)
    ensures pi > 0.0 && radius > 0.0 ==>
              (OverCovers(pi, radius, h, numCaps) <==> (numCaps as real) * h > 2.0 * radius)
  {
    TotalSurfaceAreaOfCaps(pi, radius, h, numCaps) > 4.0 * pi * radius * radius
  }

  /** The height at which `numCaps` caps cover the sphere exactly. */
  function ExactRoot(radius: real, numCaps: int): real
    requires numCaps != 0
  {
    2.0 * radius / (numCaps as real)
  }

  /** 2 to the power `k`, as a real. */
  function Pow2(k: nat): (p: real)
    ensures p >= 1.0
  {
    if k == 0 then 1.0 else 2.0 * Pow2(k - 1)
  }

  /** The loop of optimize_cap_height as a function: from the interval
      [hMin, hMax] and the last midpoint hMid, the value the loop returns.
      Every midpoint lies in the interval it halves, so the result lies in
      the starting interval. */
  function Bisect(pi: real, radius: real, numCaps: int, tolerance: real,
                  hMin: real, hMax: real, hMid: real): (h: real)
    requires tolerance > 0.0
    ensures hMin <= hMid <= hMax ==> hMin <= h <= hMax
    decreases ((hMax - hMin) / tolerance).Floor
  {
    if hMax - hMin > tolerance then
      HalvingShrinksMeasure(hMax - hMin, tolerance);
      var mid := (hMin + hMax) / 2.0;
      if OverCovers(pi, radius, mid, numCaps) then
        Bisect(pi, radius, numCaps, tolerance, hMin, mid, mid)
      else
        Bisect(pi, radius, numCaps, tolerance, mid, hMax, mid)
    else
      hMid
  }

  /** What optimize_cap_height(R, numCaps, tolerance) returns: the loop
      started on [0, R] with midpoint R/2. For R >= 0 the result lies in
      [0, R]; with no room for a single halving (R <= tolerance) the loop
      body never runs and the result is the initial midpoint R/2. */
  function Solve(pi: real, radius: real, numCaps: int, tolerance: real): (h: real)
    requires tolerance > 0.0
    ensures radius >= 0.0 ==> 0.0 <= h <= radius
    ensures radius <= tolerance ==> h == radius / 2.0
  {
    Bisect(pi, radius, numCaps, tolerance, 0.0, radius, radius / 2.0)
  }

  /** Halving an interval wider than the tolerance lowers the termination
      measure, the whole number of tolerances that fit in its width. */
  lemma HalvingShrinksMeasure(width: real, tolerance: real)
    requires tolerance > 0.0 && width > tolerance
    ensures 0 <= ((width / 2.0) / tolerance).Floor < (width / tolerance).Floor
  {
    var x := width / tolerance;
    assert x * tolerance == width;
    assert x > 1.0;
    assert (width / 2.0) / tolerance == x / 2.0;
  }

  // ---------------------------------------------------------------------
  // The area helpers

  /** A cap's area grows strictly with its height on a sphere of positive radius. */
  lemma CapAreaStrictlyIncreasing(pi: real, radius: real, h1: real, h2: real)
    requires pi > 0.0 && radius > 0.0 && h1 < h2
    ensures SphericalCapSurfaceArea(pi, radius, h1) < SphericalCapSurfaceArea(pi, radius, h2)
  {
  }

  /** Each further cap adds one cap's area, and no caps cover nothing: the
      total of `numCaps` caps is `numCaps` times the area of one. */
  lemma TotalAreaCountsCaps(pi: real, radius: real, h: real, numCaps: int)
    ensures TotalSurfaceAreaOfCaps(pi, radius, h, 0) == 0.0
    ensures TotalSurfaceAreaOfCaps(pi, radius, h, numCaps + 1)
         == TotalSurfaceAreaOfCaps(pi, radius, h, numCaps) + SphericalCapSurfaceArea(pi, radius, h)
  {
  }

  /** With at least one cap, the total area grows strictly with the height. */
  lemma TotalAreaStrictlyIncreasing(pi: real, radius: real, h1: real, h2: real, numCaps: int)
    requires pi > 0.0 && radius > 0.0 && h1 < h2 && numCaps > 0
    ensures TotalSurfaceAreaOfCaps(pi, radius, h1, numCaps) < TotalSurfaceAreaOfCaps(pi, radius, h2, numCaps)
  {
    CapAreaStrictlyIncreasing(pi, radius, h1, h2);
    var n := numCaps as real;
    var a1 := SphericalCapSurfaceArea(pi, radius, h1);
    var a2 := SphericalCapSurfaceArea(pi, radius, h2);
    assert n * a2 - n * a1 == n * (a2 - a1);
  }

  /** The covering count grows the area too: whatever over-covers with some
      caps over-covers with more of them. */
  lemma OverCoversMonotoneInCount(pi: real, radius: real, h: real, fewer: int, more: int)
    requires pi >= 0.0 && radius >= 0.0 && h >= 0.0 && fewer <= more
    requires OverCovers(pi, radius, h, fewer)
    ensures OverCovers(pi, radius, h, more)
  {
    var a := SphericalCapSurfaceArea(pi, radius, h);
    var d := (more - fewer) as real;
    assert a >= 0.0 && d >= 0.0;
    assert d * a >= 0.0;
    assert (more as real) * a == (fewer as real) * a + d * a;
  }

  // ---------------------------------------------------------------------
  // The bisection

  /** The bracketing invariant of the loop: the lower end does not over-cover
      (numCaps * hMin <= 2R), and the upper end is still R or over-covers. */
  predicate Brackets(radius: real, numCaps: int, hMin: real, hMax: real)
  {
    0.0 <= hMin <= hMax <= radius
    && (numCaps as real) * hMin <= 2.0 * radius
    && (hMax == radius || (numCaps as real) * hMax > 2.0 * radius)
  }

  /** One step of the loop keeps the bracketing invariant. */
  lemma StepKeepsBrackets(pi: real, radius: real, numCaps: int, hMin: real, hMax: real)
    requires pi > 0.0 && radius > 0.0
    requires Brackets(radius, numCaps, hMin, hMax)
    ensures var mid := (hMin + hMax) / 2.0;
            if OverCovers(pi, radius, mid, numCaps) then Brackets(radius, numCaps, hMin, mid)
            else Brackets(radius, numCaps, mid, hMax)
  {
  }

  /** Cancelling a positive factor from an inequality. */
  lemma CancelPositiveFactor(n: real, a: real, b: real)
    requires n > 0.0 && n * a <= n * b
    ensures a <= b
  {
  }

  /** Inside a bracketing interval, the exact root 2R/numCaps lies within the
      interval when numCaps >= 2, and the upper end stays at R when numCaps <= 1. */
  lemma BracketsLocateRoot(radius: real, numCaps: int, hMin: real, hMax: real)
    requires radius > 0.0
    requires Brackets(radius, numCaps, hMin, hMax)
    ensures numCaps >= 2 ==> hMin <= ExactRoot(radius, numCaps) <= hMax
    ensures numCaps <= 1 ==> hMax == radius
  {
    var n := numCaps as real;
    if numCaps >= 2 {
      var root := ExactRoot(radius, numCaps);
      assert n * root == 2.0 * radius;
      CancelPositiveFactor(n, hMin, root);
      if hMax == radius {
        assert n * radius - 2.0 * radius == (n - 2.0) * radius;
        CancelPositiveFactor(n, root, radius);
      } else {
        CancelPositiveFactor(n, root, hMax);
      }
    } else {
      assert hMax - n * hMax == (1.0 - n) * hMax;
      assert n * hMax <= hMax;
    }
  }

  /** The loop converges on the root: started from a bracketing interval, its
      result is within `tolerance` of 2R/numCaps when numCaps >= 2, and within
      `tolerance` below R when numCaps <= 1. */
  lemma {:induction false} BisectConverges(pi: real, radius: real, numCaps: int, tolerance: real,
                                           hMin: real, hMax: real, hMid: real)
    requires tolerance > 0.0 && pi > 0.0 && radius > 0.0
    requires Brackets(radius, numCaps, hMin, hMax)
    requires hMin <= hMid <= hMax
    ensures var h := Bisect(pi, radius, numCaps, tolerance, hMin, hMax, hMid);
            numCaps >= 2 ==> -tolerance <= h - ExactRoot(radius, numCaps) <= tolerance
    ensures var h := Bisect(pi, radius, numCaps, tolerance, hMin, hMax, hMid);
            numCaps <= 1 ==> radius - tolerance <= h <= radius
    decreases ((hMax - hMin) / tolerance).Floor
  {
    if hMax - hMin > tolerance {
      HalvingShrinksMeasure(hMax - hMin, tolerance);
      var mid := (hMin + hMax) / 2.0;
      StepKeepsBrackets(pi, radius, numCaps, hMin, hMax);
      if OverCovers(pi, radius, mid, numCaps) {
        BisectConverges(pi, radius, numCaps, tolerance, hMin, mid, mid);
      } else {
        BisectConverges(pi, radius, numCaps, tolerance, mid, hMax, mid);
      }
    } else {
      BracketsLocateRoot(radius, numCaps, hMin, hMax);
    }
  }

  /** Two runs of the loop on intervals of equal width where the first has
      at least as many caps: the first run's result is never above the
      second's. The intervals are either equal or the first lies wholly
      below the second, and halving keeps that so. */
  lemma {:induction false} BisectAntitoneInCount(pi: real, radius: real, more: int, fewer: int, tolerance: real,
                                                 lo1: real, hi1: real, mid1: real,
                                                 lo2: real, hi2: real, mid2: real)
    requires tolerance > 0.0 && pi >= 0.0 && radius >= 0.0 && fewer <= more
    requires 0.0 <= lo1 && 0.0 <= lo2
    requires lo1 <= mid1 <= hi1 && lo2 <= mid2 <= hi2
    requires hi1 - lo1 == hi2 - lo2
    requires mid1 <= mid2
    requires (lo1 == lo2 && hi1 == hi2) || hi1 <= lo2
    ensures Bisect(pi, radius, more, tolerance, lo1, hi1, mid1)
         <= Bisect(pi, radius, fewer, tolerance, lo2, hi2, mid2)
    decreases ((hi1 - lo1) / tolerance).Floor
  {
    if hi1 - lo1 > tolerance {
      HalvingShrinksMeasure(hi1 - lo1, tolerance);
      var m1 := (lo1 + hi1) / 2.0;
      var m2 := (lo2 + hi2) / 2.0;
      var over1 := OverCovers(pi, radius, m1, more);
      var over2 := OverCovers(pi, radius, m2, fewer);
      if lo1 == lo2 && over2 {
        OverCoversMonotoneInCount(pi, radius, m1, fewer, more);
      }
      var nlo1, nhi1 := if over1 then lo1 else m1, if over1 then m1 else hi1;
      var nlo2, nhi2 := if over2 then lo2 else m2, if over2 then m2 else hi2;
      assert (nlo1 == nlo2 && nhi1 == nhi2) || nhi1 <= nlo2;
      BisectAntitoneInCount(pi, radius, more, fewer, tolerance, nlo1, nhi1, m1, nlo2, nhi2, m2);
    }
  }

  // ---------------------------------------------------------------------
  // What optimize_cap_height returns

  /** For R > 0 and numCaps >= 2 the result is within `tolerance` of the
      exact root 2R/numCaps. */
  lemma SolveNearRoot(pi: real, radius: real, numCaps: int, tolerance: real)
    requires tolerance > 0.0 && pi > 0.0 && radius > 0.0 && numCaps >= 2
    ensures -tolerance <= Solve(pi, radius, numCaps, tolerance) - ExactRoot(radius, numCaps) <= tolerance
  {
    BisectConverges(pi, radius, numCaps, tolerance, 0.0, radius, radius / 2.0);
  }

  /** The degenerate case numCaps <= 1 (one cap cannot cover the sphere): the
      upper end never moves, and the result is within `tolerance` below R. */
  lemma SolveSingleCap(pi: real, radius: real, numCaps: int, tolerance: real)
    requires tolerance > 0.0 && pi > 0.0 && radius > 0.0 && numCaps <= 1
    ensures radius - tolerance <= Solve(pi, radius, numCaps, tolerance) <= radius
  {
    BisectConverges(pi, radius, numCaps, tolerance, 0.0, radius, radius / 2.0);
  }

  /** In area terms: the caps at the returned height miss the sphere's area
      4*pi*R*R by at most numCaps * 2*pi*R * tolerance. */
  lemma SolveAreaNearSphere(pi: real, radius: real, numCaps: int, tolerance: real)
    requires tolerance > 0.0 && pi > 0.0 && radius > 0.0 && numCaps >= 2
    ensures var h := Solve(pi, radius, numCaps, tolerance);
            var gap := TotalSurfaceAreaOfCaps(pi, radius, h, numCaps) - 4.0 * pi * radius * radius;
            var bound := (numCaps as real) * 2.0 * pi * radius * tolerance;
            -bound <= gap <= bound
  {
    SolveNearRoot(pi, radius, numCaps, tolerance);
    AreaGapBound(pi, radius, numCaps, Solve(pi, radius, numCaps, tolerance), tolerance);
  }

  /** A height within `tolerance` of the root gives caps whose area misses
      the sphere's by at most numCaps * 2*pi*R * tolerance. */
  lemma AreaGapBound(pi: real, radius: real, numCaps: int, h: real, tolerance: real)
    requires pi > 0.0 && radius > 0.0 && numCaps >= 2
    requires -tolerance <= h - ExactRoot(radius, numCaps) <= tolerance
    ensures var gap := TotalSurfaceAreaOfCaps(pi, radius, h, numCaps) - 4.0 * pi * radius * radius;
            var bound := (numCaps as real) * 2.0 * pi * radius * tolerance;
            -bound <= gap <= bound
  {
    var root := ExactRoot(radius, numCaps);
    var n := numCaps as real;
    var c := n * 2.0 * pi * radius;
    var d := h - root;
    assert c > 0.0;
    assert n * root == 2.0 * radius;
    assert c * root == 4.0 * pi * radius * radius;
    assert TotalSurfaceAreaOfCaps(pi, radius, h, numCaps) == c * h;
    assert c * h - c * root == c * d;
    assert c * tolerance - c * d == c * (tolerance - d);
    assert c * d + c * tolerance == c * (d + tolerance);
  }

  /** More caps never call for a greater height: for fixed R and tolerance
      the result is antitone in numCaps. */
  lemma SolveAntitoneInCount(pi: real, radius: real, more: int, fewer: int, tolerance: real)
    requires tolerance > 0.0 && pi >= 0.0 && radius >= 0.0 && fewer <= more
    ensures Solve(pi, radius, more, tolerance) <= Solve(pi, radius, fewer, tolerance)
  {
    BisectAntitoneInCount(pi, radius, more, fewer, tolerance,
                          0.0, radius, radius / 2.0, 0.0, radius, radius / 2.0);
  }

  /** When the two exact roots lie more than twice the tolerance apart, more
      caps give a strictly smaller height. */
  lemma SolveStrictlyAntitoneInCount(pi: real, radius: real, more: int, fewer: int, tolerance: real)
    requires tolerance > 0.0 && pi > 0.0 && radius > 0.0 && 2 <= fewer <= more
    requires ExactRoot(radius, fewer) - ExactRoot(radius, more) > 2.0 * tolerance
    ensures Solve(pi, radius, more, tolerance) < Solve(pi, radius, fewer, tolerance)
  {
    SolveNearRoot(pi, radius, more, tolerance);
    SolveNearRoot(pi, radius, fewer, tolerance);
  }

  /** The cap counts of main() on the unit sphere, default tolerance: 20,
      12, 8, 6, 4 and 2 caps give strictly increasing heights. */
  lemma MainCountsStrictlyDecrease(pi: real)
    requires pi > 0.0
    ensures Solve(pi, 1.0, 20, DefaultTolerance) < Solve(pi, 1.0, 12, DefaultTolerance)
            < Solve(pi, 1.0, 8, DefaultTolerance) < Solve(pi, 1.0, 6, DefaultTolerance)
            < Solve(pi, 1.0, 4, DefaultTolerance) < Solve(pi, 1.0, 2, DefaultTolerance)
  {
    SolveStrictlyAntitoneInCount(pi, 1.0, 20, 12, DefaultTolerance);
    SolveStrictlyAntitoneInCount(pi, 1.0, 12, 8, DefaultTolerance);
    SolveStrictlyAntitoneInCount(pi, 1.0, 8, 6, DefaultTolerance);
    SolveStrictlyAntitoneInCount(pi, 1.0, 6, 4, DefaultTolerance);
    SolveStrictlyAntitoneInCount(pi, 1.0, 4, 2, DefaultTolerance);
  }

  /** The comparison is the strict `>`: with four caps the first midpoint R/2
      is exactly the root, it does not over-cover, so hMin moves up to it and
      the result approaches the root from above. */
  lemma FourCapsApproachRootFromAbove(pi: real, radius: real, tolerance: real)
    requires tolerance > 0.0 && pi > 0.0 && radius > tolerance
    ensures radius / 2.0 <= Solve(pi, radius, 4, tolerance) <= radius / 2.0 + tolerance
  {
    var mid := radius / 2.0;
    assert !OverCovers(pi, radius, mid, 4);
    HalvingShrinksMeasure(radius, tolerance);
    assert Solve(pi, radius, 4, tolerance) == Bisect(pi, radius, 4, tolerance, mid, radius, mid);
    SolveNearRoot(pi, radius, 4, tolerance);
  }

  /** The example of main(): six caps on the unit sphere, default tolerance,
      give a height within 1e-6 of 1/3. */
  lemma SixCapsOnUnitSphere()
    ensures var h := Solve(MathPi, 1.0, 6, DefaultTolerance);
            1.0 / 3.0 - DefaultTolerance <= h <= 1.0 / 3.0 + DefaultTolerance
  {
    SolveNearRoot(MathPi, 1.0, 6, DefaultTolerance);
  }

  // ---------------------------------------------------------------------
  // The loop itself

  /** optimize_cap_height: bisection on [0, R] for the height at which
      `numCaps` caps cover the sphere's area. Besides the result `h` it
      reports, as ghost values, the final interval and the iteration count. */
  method OptimizeCapHeight(pi: real, radius: real, numCaps: int, tolerance: real)
    returns (h: real, ghost hMinOut: real, ghost hMaxOut: real, ghost iterations: nat)
    requires tolerance > 0.0
    ensures h == Solve(pi, radius, numCaps, tolerance)
    // the final interval: width the radius halved `iterations` times, at most the tolerance
    ensures hMaxOut - hMinOut == radius / Pow2(iterations)
    ensures hMaxOut - hMinOut <= tolerance
    ensures iterations > 0 ==> radius / Pow2(iterations - 1) > tolerance
    // no iteration exactly when R <= tolerance, and then the result is R/2
    ensures iterations == 0 <==> radius <= tolerance
    ensures iterations == 0 ==> h == radius / 2.0
    ensures iterations > 0 ==> h == hMinOut || h == hMaxOut
    ensures radius >= 0.0 ==> 0.0 <= hMinOut <= h <= hMaxOut <= radius
    // bracketing, and closeness to the root
    ensures pi > 0.0 && radius > 0.0 ==> Brackets(radius, numCaps, hMinOut, hMaxOut)
    ensures pi > 0.0 && radius > 0.0 && numCaps >= 2 ==>
              hMinOut <= ExactRoot(radius, numCaps) <= hMaxOut
              && -tolerance <= h - ExactRoot(radius, numCaps) <= tolerance
    ensures pi > 0.0 && radius > 0.0 && numCaps <= 1 ==>
              hMaxOut == radius && radius - tolerance <= h <= radius
  {
    var hMin := 0.0;
    var hMax := radius;
    var hMid := (hMin + hMax) / 2.0;
    ghost var k: nat := 0;

    while hMax - hMin > tolerance
      invariant LoopInvariant(pi, radius, numCaps, tolerance, hMin, hMax, hMid, k)
      decreases ((hMax - hMin) / tolerance).Floor
    {
      ghost var lo, hi, mid := hMin, hMax, hMid;
      hMid := (hMin + hMax) / 2.0;
      var totalArea := TotalSurfaceAreaOfCaps(pi, radius, hMid, numCaps);
      if totalArea > 4.0 * pi * radius * radius {
        hMax := hMid;
      } else {
        hMin := hMid;
      }
      LoopStep(pi, radius, numCaps, tolerance, lo, hi, mid, k);
      k := k + 1;
    }

    if pi > 0.0 && radius > 0.0 {
      BracketsLocateRoot(radius, numCaps, hMin, hMax);
    }
    h, hMinOut, hMaxOut, iterations := hMid, hMin, hMax, k;
  }

  /** The invariant of the loop of optimize_cap_height after `k` iterations. */
  ghost predicate LoopInvariant(pi: real, radius: real, numCaps: int, tolerance: real,
                                hMin: real, hMax: real, hMid: real, k: nat)
    requires tolerance > 0.0
  {
    // the width is R halved k times, and was above the tolerance one halving earlier
    && hMax - hMin == radius / Pow2(k)
    && (k > 0 ==> radius / Pow2(k - 1) > tolerance && radius > tolerance)
    // the initial state, and afterwards hMid is the end that moved
    && (k == 0 ==> hMin == 0.0 && hMax == radius && hMid == radius / 2.0)
    && (k > 0 ==> hMid == hMin || hMid == hMax)
    // 0 <= hMin <= hMax <= R
    && (radius >= 0.0 ==> 0.0 <= hMin <= hMid <= hMax <= radius)
    // the root stays bracketed
    && (pi > 0.0 && radius > 0.0 ==> Brackets(radius, numCaps, hMin, hMax))
    // what is still to run gives the result of the whole loop
    && Bisect(pi, radius, numCaps, tolerance, hMin, hMax, hMid) == Solve(pi, radius, numCaps, tolerance)
  }

  /** One iteration of the loop keeps its invariant and lowers its measure. */
  lemma LoopStep(pi: real, radius: real, numCaps: int, tolerance: real,
                 hMin: real, hMax: real, hMid: real, k: nat)
    requires tolerance > 0.0 && hMax - hMin > tolerance
    requires LoopInvariant(pi, radius, numCaps, tolerance, hMin, hMax, hMid, k)
    ensures var mid := (hMin + hMax) / 2.0;
            var over := 4.0 * pi * radius * radius < TotalSurfaceAreaOfCaps(pi, radius, mid, numCaps);
            var (lo, hi) := if over then (hMin, mid) else (mid, hMax);
            LoopInvariant(pi, radius, numCaps, tolerance, lo, hi, mid, k + 1)
            && 0 <= ((hi - lo) / tolerance).Floor < ((hMax - hMin) / tolerance).Floor
  {
    HalvingShrinksMeasure(hMax - hMin, tolerance);
    HalveWidth(radius, k);
    if pi > 0.0 && radius > 0.0 {
      StepKeepsBrackets(pi, radius, numCaps, hMin, hMax);
    }
  }

  /** Half of R / 2^k is R / 2^(k+1). */
  lemma HalveWidth(radius: real, k: nat)
    ensures (radius / Pow2(k)) / 2.0 == radius / Pow2(k + 1)
  {
  }
}
