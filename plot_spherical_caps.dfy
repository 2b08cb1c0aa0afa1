/** Model of the computational part of plotSphericalCapsOnSphere.py: its own
    copies of the cap-area helpers and of the cap-height bisection. They are
    shown here to compute exactly what the functions of
    optimalSphericalCapHeight.py compute, so every property proved there
    carries over. pi (np.pi in the source) is again a parameter `pi`. */
module PlotSphericalCapsOnSphere {
  import Opt = OptimalSphericalCapHeight

  /** Area 2*pi*R*h of one cap. */
  function CapSurfaceArea(pi: real, radius: real, h: real): (area: real)
    ensures pi >= 0.0 && radius >= 0.0 && h >= 0.0 ==> area >= 0.0
  {
    2.0 * pi * radius * h
  }

  /** Combined area of `numCaps` caps of height `h`. */
  function TotalSurfaceAreaOfCaps(pi: real, radius: real, h: real, numCaps: int): (area: real)
    ensures numCaps >= 0 && pi >= 0.0 && radius >= 0.0 && h >= 0.0 ==> area >= 0.0
  {
    (numCaps as real) * CapSurfaceArea(pi, radius, h)
  }

  /** The helpers here and in optimalSphericalCapHeight.py agree on every input. */
  lemma AreasAgree(pi: real, radius: real, h: real, numCaps: int)
    ensures CapSurfaceArea(pi, radius, h) == Opt.SphericalCapSurfaceArea(pi, radius, h)
    ensures TotalSurfaceAreaOfCaps(pi, radius, h, numCaps) == Opt.TotalSurfaceAreaOfCaps(pi, radius, h, numCaps)
  {
  }

  /** A cap's area grows strictly with its height when R > 0. */
  lemma CapAreaStrictlyIncreasing(pi: real, radius: real, h1: real, h2: real)
    requires pi > 0.0 && radius > 0.0 && h1 < h2
    ensures CapSurfaceArea(pi, radius, h1) < CapSurfaceArea(pi, radius, h2)
  {
    AreasAgree(pi, radius, h1, 1);
    AreasAgree(pi, radius, h2, 1);
    Opt.CapAreaStrictlyIncreasing(pi, radius, h1, h2);
  }

  /** optimize_cap_height of this file: the same bisection on [0, R]. Its
      result is the one of optimalSphericalCapHeight.py, so it lies in
      [0, R], is R/2 when the loop does not run, is within `tolerance` of
      2R/numCaps for numCaps >= 2 and within `tolerance` below R for
      numCaps <= 1. The final interval is reported as ghost values. */
  method OptimizeCapHeight(pi: real, radius: real, numCaps: int, tolerance: real)
    returns (h: real, ghost hMinOut: real, ghost hMaxOut: real)
    requires tolerance > 0.0
    ensures h == Opt.Solve(pi, radius, numCaps, tolerance)
    ensures hMaxOut - hMinOut <= tolerance
    ensures radius <= tolerance ==> h == radius / 2.0
    ensures radius > tolerance ==> h == hMinOut || h == hMaxOut
    ensures radius >= 0.0 ==> 0.0 <= hMinOut <= h <= hMaxOut <= radius
    ensures pi > 0.0 && radius > 0.0 && numCaps >= 2 ==>
              hMinOut <= Opt.ExactRoot(radius, numCaps) <= hMaxOut
              && -tolerance <= h - Opt.ExactRoot(radius, numCaps) <= tolerance
    ensures pi > 0.0 && radius > 0.0 && numCaps <= 1 ==>
              hMaxOut == radius && radius - tolerance <= h <= radius
  {
    var hMin := 0.0;
    var hMax := radius;
    var hMid := (hMin + hMax) / 2.0;
    ghost var k: nat := 0;

    while hMax - hMin > tolerance
      invariant Opt.LoopInvariant(pi, radius, numCaps, tolerance, hMin, hMax, hMid, k)
      decreases ((hMax - hMin) / tolerance).Floor
    {
      ghost var lo, hi, mid := hMin, hMax, hMid;
      hMid := (hMin + hMax) / 2.0;
      var totalArea := TotalSurfaceAreaOfCaps(pi, radius, hMid, numCaps);
      AreasAgree(pi, radius, hMid, numCaps);
      if totalArea > 4.0 * pi * radius * radius {
        hMax := hMid;
      } else {
        hMin := hMid;
      }
      Opt.LoopStep(pi, radius, numCaps, tolerance, lo, hi, mid, k);
      k := k + 1;
    }

    if pi > 0.0 && radius > 0.0 {
      Opt.BracketsLocateRoot(radius, numCaps, hMin, hMax);
    }
    h, hMinOut, hMaxOut := hMid, hMin, hMax;
  }
}
