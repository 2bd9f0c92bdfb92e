/** The objective comparison `bb_better` of lp_lib.c, in exact arithmetic with symbolic tolerances. */
module BoundTests {
  import opened Reals

  const INFINITE: real := 1000000000000000000000000000000.0

  /** `offset` is epsprimal; the two gaps and the improvement step are user settings. */
  datatype Gaps = Gaps(absgap: real, relgap: real, deltaOF: real, offset: real)

  datatype Target = Relaxed | Incumbent | UserBreak | Heuristic | DualLimit

  /** better exclusive / inclusive, not equal, worse inclusive / exclusive */
  datatype Mode = BT | BE | NE | WE | WT

  function ChSign(flip: bool, x: real): real {
    if flip then -x else x
  }

  function RelDiff(x: real, y: real): real {
    (x - y) / (1.0 + Abs(y))
  }

  /** The window added to the test value before it is compared. */
  function Window(g: Gaps, target: Target, relgap: bool, delta: bool): real {
    var eps := if relgap then g.relgap else g.absgap;
    if delta then Max(eps, g.deltaOF - eps)
    else ChSign(target.UserBreak? || target.Heuristic? || target.DualLimit?, eps)
  }

  function BbBetter(g: Gaps, ismax: bool, target: Target, mode: Mode, relgap: bool, delta: bool,
                    test: real, ref: real): bool
  {
    var moved := test + ChSign(ismax, Window(g, target, relgap, delta));
    var diff := if relgap then RelDiff(moved, ref) else moved - ref;
    if mode.NE? then Abs(diff) >= g.offset
    else ChSign(ismax, ChSign(mode.WE? || mode.WT?, diff)) < g.offset
  }

  /** The exclusive and inclusive modes that the routine's header tells apart are the same test. */
  lemma ModesCollapse(g: Gaps, ismax: bool, target: Target, relgap: bool, delta: bool, test: real, ref: real)
    ensures BbBetter(g, ismax, target, BT, relgap, delta, test, ref) == BbBetter(g, ismax, target, BE, relgap, delta, test, ref)
    ensures BbBetter(g, ismax, target, WT, relgap, delta, test, ref) == BbBetter(g, ismax, target, WE, relgap, delta, test, ref)
  {
  }

  /** Maximizing is minimizing the mirrored objective. */
  lemma Mirror(g: Gaps, target: Target, mode: Mode, relgap: bool, delta: bool, test: real, ref: real)
    ensures BbBetter(g, true, target, mode, relgap, delta, test, ref)
         == BbBetter(g, false, target, mode, relgap, delta, -test, -ref)
  {
    var w := Window(g, target, relgap, delta);
    assert Abs(-ref) == Abs(ref);
    var d := 1.0 + Abs(ref);
    assert d > 0.0;
    NegQuotient(test - w - ref, d);
    assert -test + w - -ref == -(test - w - ref);
  }

  lemma NegQuotient(x: real, d: real)
    requires d > 0.0
    ensures (-x) / d == -(x / d)
  {
    assert (x / d) * d == x;
    assert ((-x) / d) * d == -x;
    assert ((-x) / d + x / d) * d == 0.0;
  }

  // ------------------------------------------------------------------ incumbents

  /** The test an open relaxation, and then an integer solution, must pass against the incumbent. */
  predicate Improves(g: Gaps, z: real, best: real) {
    && BbBetter(g, false, Incumbent, BE, true, true, z, best)
    && BbBetter(g, false, Incumbent, BE, false, true, z, best)
  }

  function AbsStep(g: Gaps): real {
    Window(g, Incumbent, false, true)
  }

  function RelStep(g: Gaps): real {
    Window(g, Incumbent, true, true)
  }

  lemma Product(x: real, y: real)
    requires x >= 0.0 && y >= 0.0
    ensures x * y >= 0.0
  {
  }

  lemma QuotientBelow(x: real, d: real, t: real)
    requires d > 0.0
    ensures x / d < t <==> x < t * d
  {
    var q := x / d;
    assert q * d == x;
    if q < t {
      assert (t - q) * d > 0.0;
    } else {
      assert (q - t) * d >= 0.0;
    }
  }

  lemma ImprovesThreshold(g: Gaps, z: real, best: real)
    ensures Improves(g, z, best) <==>
            z + AbsStep(g) - best < g.offset && z + RelStep(g) - best < g.offset * (1.0 + Abs(best))
  {
    QuotientBelow(z + RelStep(g) - best, 1.0 + Abs(best), g.offset);
  }

  /** The same in the settings themselves. */
  lemma ImprovesIs(g: Gaps, z: real, best: real)
    ensures Improves(g, z, best) <==>
            && z + Max(g.absgap, g.deltaOF - g.absgap) - best < g.offset
            && z + Max(g.relgap, g.deltaOF - g.relgap) - best < g.offset * (1.0 + Abs(best))
  {
    ImprovesThreshold(g, z, best);
  }

  /** What is not an improvement is not below the incumbent by more than the largest of gaps and step. */
  lemma NotImproving(g: Gaps, z: real, best: real)
    requires 0.0 <= g.offset && 0.0 <= g.absgap && 0.0 <= g.relgap && !Improves(g, z, best)
    ensures z >= best - Max(g.deltaOF, Max(g.absgap, g.relgap))
  {
    ImprovesIs(g, z, best);
    Product(g.offset, 1.0 + Abs(best));
  }

  /** With gaps below the step, a value that is below the incumbent by the step is an improvement. */
  lemma StepImproves(g: Gaps, z: real, best: real)
    requires 0.0 <= g.absgap < g.deltaOF && 0.0 <= g.relgap < g.deltaOF
    requires 0.0 <= g.offset && 0.0 < g.offset + g.absgap && 0.0 < g.offset + g.relgap
    requires z <= best - g.deltaOF
    ensures Improves(g, z, best)
  {
    ImprovesIs(g, z, best);
    var b := Abs(best);
    assert g.offset * (1.0 + b) == g.offset + g.offset * b;
    Product(g.offset, b);
  }

  ghost predicate NeverWorsens(g: Gaps) {
    forall z: real, best: real :: Improves(g, z, best) ==> z <= best
  }

  /** A solution accepted as an improvement is never worse than the incumbent it replaces exactly
      when the tolerance does not exceed the improvement step. */
  lemma IncumbentNeverWorsens(g: Gaps)
    requires g.absgap >= 0.0 && g.relgap >= 0.0
    ensures NeverWorsens(g) <==> g.offset <= AbsStep(g)
  {
    if g.offset <= AbsStep(g) {
      forall z: real, best: real | Improves(g, z, best) ensures z <= best {
        ImprovesThreshold(g, z, best);
      }
    } else {
      var off, a, r := g.offset, AbsStep(g), RelStep(g);
      assert off > a >= 0.0 && r >= 0.0;
      var best := (r + off) / off;
      assert best * off == r + off;
      QuotientBelow(r + off, off, 0.0);
      var z := best + (off - a) / 2.0;
      assert best >= 0.0 && Abs(best) == best;
      assert off * (1.0 + best) == off + best * off == off + r + off;
      assert z + r - best == (off - a) / 2.0 + r;
      assert (off - a) / 2.0 < off + off;
      ImprovesThreshold(g, z, best);
      assert Improves(g, z, best) && z > best;
    }
  }

  /** How much worse than the incumbent an accepted improvement can be. */
  function Drift(g: Gaps): real {
    Max(0.0, g.offset - AbsStep(g))
  }

  /** Everything below an improvement is one. */
  lemma ImprovesDown(g: Gaps, z: real, fy: real, best: real)
    requires Improves(g, fy, best) && z <= fy
    ensures Improves(g, z, best)
  {
    hide *;
    ImprovesThreshold(g, z, best);
    ImprovesThreshold(g, fy, best);
  }

  /** An improvement is worse by less than the drift, and a value that is no improvement is above every
      value that is. */
  lemma ImprovesBelow(g: Gaps, z: real, fy: real, best: real)
    requires Improves(g, z, best)
    ensures z < best + (g.offset - AbsStep(g)) && z <= best + Drift(g)
    ensures !Improves(g, fy, best) ==> fy > z
  {
    ImprovesThreshold(g, z, best);
    ImprovesThreshold(g, fy, best);
  }

  /** The settings that lp_solve starts with when the objective has no known step: tolerance 1e-10 and
      gaps 1e-11. */
  const DEFAULTS: Gaps := Gaps(0.00000000001, 0.00000000001, 0.0, 0.0000000001)

  /** With the default settings every incumbent counts as an improvement on itself, and so does a value that
      is worse by 8e-11; the drift is 9e-11. */
  lemma DefaultsDrift(best: real)
    ensures Drift(DEFAULTS) == 0.00000000009 && !NeverWorsens(DEFAULTS)
    ensures Improves(DEFAULTS, best, best) && Improves(DEFAULTS, best + 0.00000000008, best)
  {
    IncumbentNeverWorsens(DEFAULTS);
    ImprovesThreshold(DEFAULTS, best, best);
    ImprovesThreshold(DEFAULTS, best + 0.00000000008, best);
  }

  /** With default tolerances and an objective of step 1, an improvement by the step is one. */
  lemma UnitStep()
    ensures Improves(Gaps(0.00000000001, 0.00000000001, 1.0, 0.0000000001), 9.0, 10.0)
  {
    StepImproves(Gaps(0.00000000001, 0.00000000001, 1.0, 0.0000000001), 9.0, 10.0);
  }

  lemma DriftIs(g: Gaps)
    ensures Drift(g) == Max(0.0, g.offset - Max(g.absgap, g.deltaOF - g.absgap))
  {
  }

  /** Once a value does not improve on the incumbent it does not improve on any later one. */
  lemma ThresholdDescends(g: Gaps, z: real, best: real, next: real)
    requires 0.0 <= g.offset <= 1.0
    requires next <= best && !Improves(g, z, best)
    ensures !Improves(g, z, next)
  {
    ImprovesThreshold(g, z, best);
    ImprovesThreshold(g, z, next);
    var off := g.offset;
    assert off * (1.0 + Abs(next)) - off * (1.0 + Abs(best)) <= best - next by {
      var d := Abs(next) - Abs(best);
      assert d <= best - next;
      assert off * (1.0 + Abs(next)) - off * (1.0 + Abs(best)) == off * d;
      if d >= 0.0 {
        Product(1.0 - off, d);
        assert (1.0 - off) * d == d - off * d;
      } else {
        Product(off, -d);
        assert off * (-d) == -(off * d);
      }
    }
  }
}
