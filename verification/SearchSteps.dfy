/** What the branch-and-bound driver relies on and keeps: the contract of the simplex code, the settled
    objective values, and the effect of its steps on the stack of nodes. */
module SearchSteps {
  import opened Reals
  import opened BoundTests
  import opened Branching
  import opened UndoLadders
  import opened SearchTree

  /** A simplex basis, as `push_basis` saves it. */
  datatype Basis = Basis(varBasic: seq<int>, isLower: seq<bool>)

  /** User settings and tolerances. `limitLevel` is bb_limitlevel, `rcost` the reduced-cost fixing mode. */
  datatype Config = Config(gaps: Gaps, heuristicOF: real, limitLevel: int, rcost: bool,
                           margin: real, tol: real, epsint: real, epspivot: real)

  const DEF_BB_LIMITLEVEL: int := -50

  ghost predicate ValidConfig(c: Config) {
    && 0.0 <= c.gaps.absgap && 0.0 <= c.gaps.relgap
    && 0.0 <= c.gaps.offset && 0.0 < c.gaps.offset + c.gaps.absgap
    && 0.0 <= c.margin < 0.5 && 0.0 <= c.tol && 0.0 < c.epspivot
  }

  /** The outcome of one simplex run: a solution with the bound state and reduced cost of each column
      and the list of columns whose reduced cost is not zero, or infeasibility; and the final basis. */
  datatype LpResult =
    | Infeasible(basis: Basis)
    | Solved(x: seq<real>, isBasic: seq<bool>, isLower: seq<bool>, drow: seq<real>, nzdrow: seq<nat>, basis: Basis)

  /** The contract of the simplex code: it decides feasibility in the box, minimizes the objective, puts
      nonbasic columns at a bound, and its reduced costs bound the objective of every feasible point. */
  ghost predicate Exact(m: Model, b: Box, r: LpResult) {
    match r
    case Infeasible(_) => forall y :: InBox(y, b) ==> !m.feasible(y)
    case Solved(x, isBasic, isLower, drow, nzdrow, _) =>
      && InBox(x, b) && m.feasible(x)
      && |x| == |isBasic| == |isLower| == |drow| == m.n + 1
      && (forall i :: 0 <= i < |nzdrow| ==> 1 <= nzdrow[i] <= m.n)
      && (forall i, j :: 0 <= i < j < |nzdrow| ==> nzdrow[i] != nzdrow[j])
      && (forall j :: 1 <= j <= m.n && !isBasic[j] ==> x[j] == if isLower[j] then b.lo[j] else b.up[j])
      && (forall y :: InBox(y, b) && m.feasible(y) ==> m.objective(x) <= m.objective(y))
      && (forall y, j :: InBox(y, b) && m.feasible(y) && 1 <= j <= m.n && !isBasic[j] ==>
            m.objective(y) >= m.objective(x) +
              ChSign(!isLower[j], drow[j]) * (if isLower[j] then y[j] - b.lo[j] else b.up[j] - y[j]))
  }

  ghost predicate ExactLp(m: Model, lp: (nat, Box, Basis) -> LpResult) {
    forall c: nat, b: Box, s: Basis :: Sized(m, b) ==> Exact(m, b, lp(c, b, s))
  }

  /** Objective values stay below the value that stands for infinity. */
  ghost predicate Finite(m: Model, c: Config) {
    forall y :: InBox(y, Root(m)) && m.feasible(y) ==>
      -INFINITE < m.objective(y) && m.objective(y) < INFINITE && m.objective(y) + RelStep(c.gaps) < INFINITE
  }

  // ------------------------------------------------------------------ settled objective values

  /** An objective value that need not be searched for any more. After `count` incumbents: it does not
      improve on the last one, or it is no better than that one but for the drift of the replacements. While
      there is no incumbent: it does not pass the heuristic limit. */
  ghost predicate Settled(c: Config, count: nat, best: real, z: real) {
    if count == 0 then !BbBetter(c.gaps, false, Heuristic, BE, false, false, z, c.heuristicOF)
    else !Improves(c.gaps, z, best) || z >= best - Drifted(c, count - 1)
  }

  /** How far `n` replacements can have moved the incumbent upward. */
  function Drifted(c: Config, n: nat): (d: real)
    ensures d >= 0.0
  {
    if n == 0 then 0.0 else Drifted(c, n - 1) + Drift(c.gaps)
  }

  lemma {:induction false} DriftedIs(c: Config, n: nat)
    ensures Drifted(c, n) == n as real * Drift(c.gaps)
  {
    if n > 0 {
      DriftedIs(c, n - 1);
      assert n as real == (n - 1) as real + 1.0;
    }
  }

  lemma SettledUpward(c: Config, count: nat, best: real, z: real, fy: real)
    requires Settled(c, count, best, z) && z <= fy
    ensures Settled(c, count, best, fy)
  {
    hide Improves;
    if count > 0 && Improves(c.gaps, fy, best) {
      ImprovesDown(c.gaps, z, fy, best);
    }
  }

  /** A value no better than the incumbent is settled. */
  lemma WorseIsSettled(c: Config, count: nat, best: real, fy: real)
    requires count > 0 && best <= fy
    ensures Settled(c, count, best, fy)
  {
  }

  /** What is settled stays settled when a value that is not abandoned becomes the incumbent. */
  lemma SettledStays(c: Config, count: nat, best: real, z: real, fy: real)
    requires !Abandoned(c, count, best, z) && Settled(c, count, best, fy)
    ensures Settled(c, count + 1, z, fy)
  {
    if count > 0 {
      ImprovesBelow(c.gaps, z, fy, best);
    }
  }

  /** When the tolerance does not exceed the improvement step, nothing drifts and exactly the values that
      do not improve on the incumbent are settled. */
  lemma NoDrift(c: Config, count: nat, best: real, z: real)
    requires c.gaps.offset <= AbsStep(c.gaps) && count > 0
    ensures Drifted(c, count - 1) == 0.0 && (Settled(c, count, best, z) <==> !Improves(c.gaps, z, best))
  {
    DriftedIs(c, count - 1);
    ImprovesThreshold(c.gaps, z, best);
  }

  /** What settled means in plain numbers, after at least one incumbent: at best below the last one by the
      largest of gaps and step, or by the drift. */
  lemma SettledNear(c: Config, count: nat, best: real, z: real)
    requires ValidConfig(c) && count > 0 && Settled(c, count, best, z)
    ensures z >= best - Max(Max(c.gaps.deltaOF, Max(c.gaps.absgap, c.gaps.relgap)),
                            Steps(count - 1, Max(0.0, c.gaps.offset - Max(c.gaps.absgap, c.gaps.deltaOF - c.gaps.absgap))))
  {
    hide *;
    DriftedSteps(c, count - 1);
    SettledIs(c, count, best, z);
    ConfigIs(c);
    MaxAbove(Max(c.gaps.deltaOF, Max(c.gaps.absgap, c.gaps.relgap)), Drifted(c, count - 1));
    if !Improves(c.gaps, z, best) {
      NotImproving(c.gaps, z, best);
    }
  }

  lemma DriftedSteps(c: Config, n: nat)
    ensures Drifted(c, n) == Steps(n, Max(0.0, c.gaps.offset - Max(c.gaps.absgap, c.gaps.deltaOF - c.gaps.absgap)))
    ensures Drifted(c, n) >= 0.0
  {
    DriftedIs(c, n);
    DriftIs(c.gaps);
    hide Drift, Drifted;
  }

  lemma SettledIs(c: Config, count: nat, best: real, z: real)
    requires count > 0
    ensures Settled(c, count, best, z) <==> !Improves(c.gaps, z, best) || z >= best - Drifted(c, count - 1)
  {
  }

  lemma ConfigIs(c: Config)
    requires ValidConfig(c)
    ensures 0.0 <= c.gaps.absgap && 0.0 <= c.gaps.relgap && 0.0 <= c.gaps.offset && 0.0 < c.gaps.offset + c.gaps.absgap
  {
  }

  lemma MaxAbove(x: real, y: real)
    ensures x <= Max(x, y) && y <= Max(x, y)
  {
  }

  /** On a grid of the step nothing that is settled is below the incumbent, as long as the gaps and the drift
      are below the step. */
  lemma SettledOnGrid(c: Config, count: nat, best: real, z: real, k: int)
    requires ValidConfig(c) && count > 0 && Settled(c, count, best, z) && z - best == Steps(k, c.gaps.deltaOF)
    requires c.gaps.absgap < c.gaps.deltaOF && c.gaps.relgap < c.gaps.deltaOF && 0.0 < c.gaps.offset + c.gaps.relgap
    requires Steps(count - 1, Max(0.0, c.gaps.offset - Max(c.gaps.absgap, c.gaps.deltaOF - c.gaps.absgap))) < c.gaps.deltaOF
    ensures z >= best
  {
    hide *;
    DriftedSteps(c, count - 1);
    SettledIs(c, count, best, z);
    ConfigIs(c);
    if z < best {
      StepsBelow(k, c.gaps.deltaOF);
      StepImproves(c.gaps, z, best);
    }
  }

  /** A whole number of steps. */
  function Steps(k: int, step: real): real {
    k as real * step
  }

  lemma StepsBelow(k: int, step: real)
    requires step > 0.0 && Steps(k, step) < 0.0
    ensures Steps(k, step) <= -step
  {
    if k >= 0 {
      Product(k as real, step);
    } else {
      Product((-1 - k) as real, step);
      assert (-1 - k) as real == -1.0 - k as real;
      assert (-1.0 - k as real) * step == -step - k as real * step;
    }
  }

  /** The objective values of integer points differ by multiples of `step`. */
  ghost predicate OnGrid(m: Model, step: real) {
    forall x, y :: IntPoint(m, x) && IntPoint(m, y) ==> GridApart(m.objective(x), m.objective(y), step)
  }

  ghost predicate GridApart(a: real, b: real, step: real) {
    exists k: int :: a - b == Steps(k, step)
  }

  /** The test for a new incumbent passes for every value that was not abandoned. */
  lemma LeafIsBetter(c: Config, count: nat, best: real, z: real)
    requires ValidConfig(c) && !Abandoned(c, count, best, z)
    requires count == 0 ==> best == INFINITE && z + RelStep(c.gaps) < INFINITE
    ensures count == 0 || BbBetter(c.gaps, false, Incumbent, BT, false, true, z, best)
    ensures BbBetter(c.gaps, false, Incumbent, BT, true, true, z, best)
  {
    ModesCollapse(c.gaps, false, Incumbent, true, true, z, best);
    ModesCollapse(c.gaps, false, Incumbent, false, true, z, best);
    if count == 0 {
      QuotientBelow(z + RelStep(c.gaps) - best, 1.0 + Abs(best), c.gaps.offset);
      Product(c.gaps.offset, 1.0 + Abs(best));
    }
  }

  /** The test that guards against numerical trouble passes for every value no better than the root's. */
  lemma RelaxedPasses(g: Gaps, z: real, root: real)
    requires 0.0 < g.offset + g.absgap
    ensures BbBetter(g, false, Relaxed, WE, false, false, z, root) <==> z > root - (g.absgap + g.offset)
    ensures root <= z ==> BbBetter(g, false, Relaxed, WE, false, false, z, root)
  {
  }

  /** The tests by which `findnode_BB` abandons a relaxation are exactly those of a settled value. */
  predicate Abandoned(c: Config, count: nat, best: real, z: real) {
    || (count == 0 && !BbBetter(c.gaps, false, Heuristic, BE, false, false, z, c.heuristicOF))
    || (count > 0 && (!BbBetter(c.gaps, false, Incumbent, BE, true, true, z, best) ||
                      !BbBetter(c.gaps, false, Incumbent, BE, false, true, z, best)))
  }

  /** An abandoned value is settled, in whatever number of incumbents; one that is not abandoned lies below
      the incumbent, up to the drift. */
  lemma NotAbandoned(c: Config, count: nat, accepted: nat, best: real, z: real)
    requires count == 0 <==> accepted == 0
    ensures Abandoned(c, count, best, z) == Abandoned(c, accepted, best, z)
    ensures Abandoned(c, count, best, z) ==> Settled(c, accepted, best, z)
    ensures count > 0 && !Abandoned(c, count, best, z) ==> Improves(c.gaps, z, best) && z <= best + Drift(c.gaps)
  {
    if count > 0 && !Abandoned(c, count, best, z) {
      ImprovesBelow(c.gaps, z, z, best);
    }
  }

  lemma RcfFeasible(isBasic: bool, isLower: bool, isInt: bool, drow: real, lo: real, up: real,
                    deltaOF: real, tol: real, epsint: real, epspivot: real)
    requires epspivot > 0.0 && tol >= 0.0 && deltaOF >= 0.0
    ensures var r := RcfBound(isBasic, isLower, isInt, drow, lo, up, deltaOF, tol, epsint, epspivot);
            r.Tighten? ==> r.feasible
  {
    var rc := ChSign(!isLower, drow);
    if rc >= epspivot {
      QuotientBelow(deltaOF, rc, 0.0);
    }
  }

  // ------------------------------------------------------------------ coverage

  /** Every integer point is settled, or in the box `cur`, or in a branch not started yet. */
  ghost predicate Covered(m: Model, c: Config, count: nat, best: real, stack: seq<BBrec>, bases: seq<Box>, cur: Box)
    requires |stack| == |bases|
  {
    forall y :: IntPoint(m, y) ==> Settled(c, count, best, m.objective(y)) || InBox(y, cur) || OpenIn(stack, bases, y)
  }

  /** Every integer point is settled or in a branch not started yet. */
  ghost predicate CoveredByOpen(m: Model, c: Config, count: nat, best: real, stack: seq<BBrec>, bases: seq<Box>)
    requires |stack| == |bases|
  {
    forall y :: IntPoint(m, y) ==> Settled(c, count, best, m.objective(y)) || OpenIn(stack, bases, y)
  }

  /** Replacing the top record by one with the same branches changes nothing that matters. */
  lemma SameNode(m: Model, stack: seq<BBrec>, bases: seq<Box>, r: BBrec)
    requires stack != [] && ChainOk(m, stack, bases)
    requires var t := stack[|stack| - 1]; r.(nodessolved := t.nodessolved, lastrcf := t.lastrcf) == t
    ensures var s := stack[|stack| - 1 := r];
            && ChainOk(m, s, bases) && Outer(Root(m), s, bases) == Outer(Root(m), stack, bases)
            && Remaining(m, s, bases) == Remaining(m, stack, bases)
            && (forall y :: OpenIn(s, bases, y) == OpenIn(stack, bases, y))
            && (forall k :: Depth(s, k) == Depth(stack, k))
  {
    var l := |stack| - 1;
    var s := stack[l := r];
    assert s[..l] == stack[..l];
    assert Branched(bases[l], r) == Branched(bases[l], stack[l]);
    assert Sibling(bases[l], r) == Sibling(bases[l], stack[l]);
  }

  /** Starting the branch that is left. */
  function Advance(r: BBrec): BBrec {
    r.(isfloor := !r.isfloor, nodesleft := r.nodesleft - 1)
  }

  lemma AdvanceNode(m: Model, stack: seq<BBrec>, bases: seq<Box>)
    requires ValidModel(m) && stack != [] && ChainOk(m, stack, bases) && stack[|stack| - 1].nodesleft > 0
    ensures var l := |stack| - 1; var s := stack[l := Advance(stack[l])];
            ChainOk(m, s, bases) && forall k :: Depth(s, k) == Depth(stack, k)
  {
    var l := |stack| - 1;
    var s := stack[l := Advance(stack[l])];
    assert s[..l] == stack[..l];
    assert NodeOk(m, bases[l], s[l]);
  }

  /** The ladders do not depend on which branch of the top node is active. */
  lemma RungsAnyBranch(fs: seq<Frame>, stack: seq<BBrec>, bases: seq<Box>, root: Box, upper: bool, r: BBrec)
    requires stack != [] && |stack| == |bases| && Rungs(fs, stack, bases, root, upper)
    requires r.varno == stack[|stack| - 1].varno && Track(r, upper) == Track(stack[|stack| - 1], upper)
    ensures Rungs(fs, stack[|stack| - 1 := r], bases, root, upper)
  {
    assert stack[|stack| - 1 := r][..|stack| - 1] == stack[..|stack| - 1];
  }

  lemma TopNode(m: Model, stack: seq<BBrec>, bases: seq<Box>)
    requires stack != [] && ChainOk(m, stack, bases)
    ensures var l := |stack| - 1;
            && NodeOk(m, bases[l], stack[l]) && stack[l].varno <= m.n
            && |bases[l].lo| == |bases[l].up| == m.n + 1
            && SubBox(bases[l], Outer(Root(m), stack[..l], bases[..l]))
  {
  }

  /** Recording the value the top node's column was created with keeps the ladder in shape. */
  lemma RungsRecord(fs: seq<Frame>, stack: seq<BBrec>, bases: seq<Box>, root: Box, upper: bool)
    requires stack != [] && |stack| == |bases| && Rungs(fs, stack, bases, root, upper)
    ensures var top, k, base := |fs| - 1, stack[|stack| - 1].varno, Side(bases[|bases| - 1], upper);
            k < |base| && fs != [] && Rungs(fs[top := fs[top] + [Change(k, base[k])]], stack, bases, root, upper)
  {
    var l, top := |stack| - 1, |fs| - 1;
    var k, base := stack[l].varno, Side(bases[l], upper);
    var t := Track(stack[l], upper);
    RungRecord(fs, k, t, base, Side(Outer(root, stack[..l], bases[..l]), upper));
    var g := fs[top := fs[top] + [Change(k, base[k])]];
    assert g[..|g| - t] == fs[..|fs| - t];
    hide Rung, Joint, Outer, Replay;
  }

  lemma RungRecord(fs: seq<Frame>, k: nat, t: nat, base: seq<real>, outer: seq<real>)
    requires Rung(fs, k, t, base, outer)
    ensures k < |base| && Rung(fs[|fs| - 1 := fs[|fs| - 1] + [Change(k, base[k])]], k, t, base, outer)
  {
  }

  /** The top frame of a ladder belongs to the top node. */
  lemma TopFrame(fs: seq<Frame>, stack: seq<BBrec>, bases: seq<Box>, root: Box, upper: bool)
    requires stack != [] && |stack| == |bases| && Rungs(fs, stack, bases, root, upper)
    ensures fs != [] && OwnFrame(fs[|fs| - 1], stack[|stack| - 1].varno, Side(bases[|bases| - 1], upper))
  {
  }

  lemma AdvanceWork(m: Model, stack: seq<BBrec>, bases: seq<Box>)
    requires ValidModel(m) && stack != [] && ChainOk(m, stack, bases) && stack[|stack| - 1].nodesleft > 0
    ensures var l := |stack| - 1; var s := stack[l := Advance(stack[l])];
            && ChainOk(m, s, bases) && Work(m, s, bases) <= Remaining(m, stack, bases)
  {
    AdvanceNode(m, stack, bases);
    var l := |stack| - 1;
    var s := stack[l := Advance(stack[l])];
    assert s[..l] == stack[..l];
    var c := Sibling(bases[l], stack[l]);
    assert Outer(Root(m), s, bases) == c;
    assert s[l].nodesleft == 0;
    assert Remaining(m, s, bases) == Remaining(m, stack[..l], bases[..l]);
    OuterInRoot(m, s, bases);
    assert Remaining(m, stack, bases) == Remaining(m, stack[..l], bases[..l]) + Tree(TotalWidth(m, c));
  }

  lemma AdvanceCovers(m: Model, c: Config, count: nat, best: real, stack: seq<BBrec>, bases: seq<Box>)
    requires ValidModel(m) && stack != [] && ChainOk(m, stack, bases) && stack[|stack| - 1].nodesleft > 0
    requires CoveredByOpen(m, c, count, best, stack, bases)
    ensures var l := |stack| - 1; var s := stack[l := Advance(stack[l])];
            Covered(m, c, count, best, s, bases, Outer(Root(m), s, bases))
  {
    var l := |stack| - 1;
    var s := stack[l := Advance(stack[l])];
    assert s[..l] == stack[..l];
    assert Branched(bases[l], s[l]) == Sibling(bases[l], stack[l]);
    forall y | IntPoint(m, y) && OpenIn(stack, bases, y)
      ensures InBox(y, Outer(Root(m), s, bases)) || OpenIn(s, bases, y)
    {
      if OpenIn(stack[..l], bases[..l], y) && s[l].nodesleft <= 0 {
        assert OpenIn(s, bases, y);
      }
    }
  }

  /** Abandoning a relaxation that is settled leaves only the branches not started yet. */
  lemma PruneCovers(m: Model, c: Config, count: nat, best: real, stack: seq<BBrec>, bases: seq<Box>, b: Box, r: LpResult)
    requires ValidConfig(c) && |stack| == |bases| && Covered(m, c, count, best, stack, bases, b)
    requires Exact(m, b, r) && (r.Solved? ==> Settled(c, count, best, m.objective(r.x)))
    ensures CoveredByOpen(m, c, count, best, stack, bases)
  {
    forall y | IntPoint(m, y) && InBox(y, b) ensures Settled(c, count, best, m.objective(y)) {
      if r.Solved? {
        SettledUpward(c, count, best, m.objective(r.x), m.objective(y));
      }
    }
  }

  /** So does accepting a relaxation that was not abandoned as the new incumbent. */
  lemma LeafCovers(m: Model, c: Config, count: nat, best: real, stack: seq<BBrec>, bases: seq<Box>, b: Box, r: LpResult)
    requires |stack| == |bases| && Covered(m, c, count, best, stack, bases, b)
    requires r.Solved? && Exact(m, b, r) && !Abandoned(c, count, best, m.objective(r.x))
    ensures CoveredByOpen(m, c, count + 1, m.objective(r.x), stack, bases)
  {
    var z := m.objective(r.x);
    forall y | IntPoint(m, y) ensures Settled(c, count + 1, z, m.objective(y)) || OpenIn(stack, bases, y) {
      if Settled(c, count, best, m.objective(y)) {
        SettledStays(c, count, best, z, m.objective(y));
      } else if InBox(y, b) {
        WorseIsSettled(c, count + 1, z, m.objective(y));
      }
    }
  }

  /** The optimum over the root box as incumbent settles everything. */
  lemma RootCovers(m: Model, c: Config, count: nat, stack: seq<BBrec>, bases: seq<Box>, r: LpResult)
    requires |stack| == |bases| && r.Solved? && Exact(m, Root(m), r) && count > 0
    ensures CoveredByOpen(m, c, count, m.objective(r.x), stack, bases)
  {
    forall y | IntPoint(m, y) ensures Settled(c, count, m.objective(r.x), m.objective(y)) {
      WorseIsSettled(c, count, m.objective(r.x), m.objective(y));
    }
  }

  /** Branching keeps every point that could still improve: it is in one of the two new branches. */
  lemma PushCovers(m: Model, c: Config, count: nat, best: real, stack: seq<BBrec>, bases: seq<Box>, b0: Box, r: BBrec, b: Box)
    requires ValidConfig(c) && |stack| == |bases| && Covered(m, c, count, best, stack, bases, b0)
    requires NodeOk(m, b, r) && r.varno > 0 && r.nodesleft == 1
    requires b == b0 || (count > 0 && CutsOnlyWorse(m, best, b0, b))
    ensures Covered(m, c, count, best, stack + [r], bases + [b], Branched(b, r))
  {
    var s, t := stack + [r], bases + [b];
    assert s[..|stack|] == stack && t[..|stack|] == bases;
    forall y | IntPoint(m, y)
      ensures Settled(c, count, best, m.objective(y)) || InBox(y, Branched(b, r)) || OpenIn(s, t, y)
    {
      if InBox(y, b) {
        BranchesCover(m, b, r, y);
      } else if InBox(y, b0) {
        WorseIsSettled(c, count, best, m.objective(y));
      }
    }
  }

  lemma ChainBelow(m: Model, stack: seq<BBrec>, bases: seq<Box>)
    requires stack != [] && ChainOk(m, stack, bases)
    ensures var l := |stack| - 1;
            && ChainOk(m, stack[..l], bases[..l]) && NodeOk(m, bases[l], stack[l])
            && forall k :: Depth(stack[..l], k) == Depth(stack, k) - if stack[l].varno == k then 1 else 0
  {
  }

  lemma PopNode(m: Model, c: Config, count: nat, best: real, stack: seq<BBrec>, bases: seq<Box>)
    requires stack != [] && ChainOk(m, stack, bases) && stack[|stack| - 1].nodesleft <= 0
    ensures var l := |stack| - 1;
            && ChainOk(m, stack[..l], bases[..l]) && Remaining(m, stack[..l], bases[..l]) == Remaining(m, stack, bases)
            && (CoveredByOpen(m, c, count, best, stack, bases) ==> CoveredByOpen(m, c, count, best, stack[..l], bases[..l]))
  {
  }

  lemma PushNode(m: Model, stack: seq<BBrec>, bases: seq<Box>, r: BBrec, b: Box)
    requires ValidModel(m) && ChainOk(m, stack, bases) && NodeOk(m, b, r) && r.varno > 0 && r.nodesleft == 1
    requires SubBox(b, Outer(Root(m), stack, bases)) && stack != []
    ensures ChainOk(m, stack + [r], bases + [b])
    ensures Work(m, stack + [r], bases + [b]) < Work(m, stack, bases)
    ensures forall k :: Depth(stack + [r], k) == Depth(stack, k) + if k == r.varno then 1 else 0
    ensures forall y :: OpenIn(stack + [r], bases + [b], y) <==> InBox(y, Sibling(b, r)) || OpenIn(stack, bases, y)
  {
    var s, t := stack + [r], bases + [b];
    assert s[..|stack|] == stack && t[..|stack|] == bases;
    OuterInRoot(m, stack, bases);
    SubtreeShrinks(m, Outer(Root(m), stack, bases), b, r);
    assert ChainOk(m, s, t);
    assert Outer(Root(m), s, t) == Branched(b, r);
    OuterInRoot(m, s, t);
    hide NodeOk, SubBox, IntegralBox, Branched, Tree, WidthTo;
  }

  lemma SubtreeShrinks(m: Model, c: Box, b: Box, r: BBrec)
    requires IntegralBox(m, c) && NodeOk(m, b, r) && r.varno > 0 && SubBox(b, c)
    ensures Sized(m, Branched(b, r)) && Sized(m, Sibling(b, r))
    ensures Tree(TotalWidth(m, Branched(b, r))) + Tree(TotalWidth(m, Sibling(b, r))) < Tree(TotalWidth(m, c))
  {
    var w := TotalWidth(m, b);
    WidthToShrinks(m, b, c, m.n);
    BranchNarrower(m, b, r);
    TreeMonotone(w, TotalWidth(m, c));
    TreeMonotone(TotalWidth(m, Branched(b, r)), w - 1);
    TreeMonotone(TotalWidth(m, Sibling(b, r)), w - 1);
  }

  /** The relaxation of a node lies in the root box; that of the root bounds every objective value. */
  lemma RootObjective(m: Model, c: Config, stack: seq<BBrec>, bases: seq<Box>, r: LpResult)
    requires ValidModel(m) && Finite(m, c) && ChainOk(m, stack, bases) && stack != []
    requires bases[0] == Root(m) && stack[0].varno == 0
    requires r.Solved? && Exact(m, Outer(Root(m), stack, bases), r)
    ensures InBox(r.x, Root(m)) && m.feasible(r.x) && |r.x| == m.n + 1
    ensures Abs(m.objective(r.x)) < INFINITE && m.objective(r.x) + RelStep(c.gaps) < INFINITE
    ensures |stack| == 1 ==> forall y :: InBox(y, Root(m)) && m.feasible(y) ==> m.objective(r.x) <= m.objective(y)
  {
    OuterInRoot(m, stack, bases);
    var b := Outer(Root(m), stack, bases);
    assert |stack| == 1 ==> b == Root(m) by { RootOuter(m, stack, bases); }
    ExactParts(m, b, r);
    hide Exact, Outer, ChainOk, IntegralBox, RelStep, ValidModel;
    SubBoxPoint(b, Root(m), r.x);
  }

  lemma RootOuter(m: Model, stack: seq<BBrec>, bases: seq<Box>)
    requires ChainOk(m, stack, bases) && stack != [] && bases[0] == Root(m) && stack[0].varno == 0
    ensures |stack| == 1 ==> Outer(Root(m), stack, bases) == Root(m)
  {
  }

  lemma ExactParts(m: Model, b: Box, r: LpResult)
    requires r.Solved? && Exact(m, b, r)
    ensures InBox(r.x, b) && m.feasible(r.x) && |r.x| == m.n + 1
    ensures forall y :: InBox(y, b) && m.feasible(y) ==> m.objective(r.x) <= m.objective(y)
  {
  }

  lemma NzdrowOk(m: Model, b: Box, r: LpResult)
    requires r.Solved? && Exact(m, b, r)
    ensures forall i :: 0 <= i < |r.nzdrow| ==> 1 <= r.nzdrow[i] <= m.n
    ensures forall i, j :: 0 <= i < j < |r.nzdrow| ==> r.nzdrow[i] != r.nzdrow[j]
  {
  }

  lemma SubBoxPoint(b: Box, a: Box, x: seq<real>)
    requires SubBox(b, a) && InBox(x, b)
    ensures InBox(x, a)
  {
  }

  // ------------------------------------------------------------------ reduced-cost tightening

  /** `b` keeps every integer point of `b0` whose objective is not above `best`. */
  ghost predicate CutsOnlyWorse(m: Model, best: real, b0: Box, b: Box) {
    && SubBox(b, b0) && IntegralBox(m, b)
    && forall y :: IntPoint(m, y) && InBox(y, b0) ==> InBox(y, b) || m.objective(y) > best
  }

  /** The reduced-cost test `push_BB` makes for column `j` of the box `b`. */
  function ColumnRcf(m: Model, c: Config, r: LpResult, j: nat, lo: real, up: real, best: real): Rcf
    requires r.Solved? && 1 <= j <= m.n && |m.isInt| == |r.isBasic| == |r.isLower| == |r.drow| == m.n + 1
    requires c.epspivot > 0.0
  {
    RcfBound(r.isBasic[j], r.isLower[j], m.isInt[j], r.drow[j], lo, up, best - m.objective(r.x), c.tol, c.epsint, c.epspivot)
  }

  /** One tightened bound keeps all points that could still improve on the incumbent, keeps integer
      columns integral and never empties the column's range. */
  lemma TightenStep(m: Model, c: Config, b0: Box, b: Box, r: LpResult, j: nat, best: real)
    requires ValidConfig(c) && IntegralBox(m, b0) && r.Solved? && Exact(m, b0, r)
    requires CutsOnlyWorse(m, best, b0, b) && 1 <= j <= m.n && b.lo[j] == b0.lo[j] && b.up[j] == b0.up[j]
    requires ColumnRcf(m, c, r, j, b.lo[j], b.up[j], best).Tighten?
    ensures var t := ColumnRcf(m, c, r, j, b.lo[j], b.up[j], best);
            var v := Clamped(t, b.lo[j], b.up[j]);
            && b.lo[j] <= v <= b.up[j] && !r.isBasic[j]
            && CutsOnlyWorse(m, best, b0, if t.upper then Box(b.lo, b.up[j := v]) else Box(b.lo[j := v], b.up))
  {
    assert |m.isInt| == m.n + 1;
    hide IntPoint, RcfBound, IntegralBox;
    var t := ColumnRcf(m, c, r, j, b.lo[j], b.up[j], best);
    var v := Clamped(t, b.lo[j], b.up[j]);
    NonbasicRange(m, c, b0, r, j, b.lo[j], b.up[j], best);
    TightenIntegral(m, c, r, j, b.lo[j], b.up[j], best);
    IntegralUpdate(m, b, j, v, t.upper);
    var b' := if t.upper then Box(b.lo, b.up[j := v]) else Box(b.lo[j := v], b.up);
    forall y | IntPoint(m, y) && InBox(y, b0) ensures InBox(y, b') || m.objective(y) > best {
      if InBox(y, b) {
        TightenPoint(m, c, b0, r, j, y, best);
      }
    }
  }

  lemma NonbasicRange(m: Model, c: Config, b0: Box, r: LpResult, j: nat, lo: real, up: real, best: real)
    requires r.Solved? && 1 <= j <= m.n && |m.isInt| == |r.isBasic| == |r.isLower| == |r.drow| == m.n + 1
    requires c.epspivot > 0.0 && c.tol >= 0.0 && ColumnRcf(m, c, r, j, lo, up, best).Tighten?
    requires IntegralBox(m, b0) && b0.lo[j] == lo && b0.up[j] == up
    ensures lo < up && !r.isBasic[j] && (m.isInt[j] ==> IsInt(lo) && IsInt(up))
  {
  }

  lemma ObjectiveBound(m: Model, b: Box, r: LpResult, j: nat, y: seq<real>)
    requires IntegralBox(m, b) && r.Solved? && Exact(m, b, r) && 1 <= j <= m.n && !r.isBasic[j]
    requires IntPoint(m, y) && InBox(y, b)
    ensures m.objective(y) >= m.objective(r.x) + Slope(r.isLower[j], r.drow[j], b.lo[j], b.up[j], y[j])
    ensures b.lo[j] <= y[j] <= b.up[j] && (m.isInt[j] ==> IsInt(y[j]))
  {
  }

  lemma ColumnRcfIs(m: Model, c: Config, r: LpResult, j: nat, lo: real, up: real, best: real)
    requires r.Solved? && 1 <= j <= m.n && |m.isInt| == |r.isBasic| == |r.isLower| == |r.drow| == m.n + 1 && c.epspivot > 0.0
    ensures ColumnRcf(m, c, r, j, lo, up, best)
         == RcfBound(r.isBasic[j], r.isLower[j], m.isInt[j], r.drow[j], lo, up, best - m.objective(r.x), c.tol, c.epsint, c.epspivot)
  {
  }

  /** A point on the far side of the new bound is worse than the incumbent; so is every point, when the
      relaxation is worse itself. */
  lemma TightenPoint(m: Model, c: Config, b: Box, r: LpResult, j: nat, y: seq<real>, best: real)
    requires ValidConfig(c) && IntegralBox(m, b) && r.Solved? && Exact(m, b, r)
    requires 1 <= j <= m.n && IntPoint(m, y) && InBox(y, b)
    requires ColumnRcf(m, c, r, j, b.lo[j], b.up[j], best).Tighten?
    ensures var t := ColumnRcf(m, c, r, j, b.lo[j], b.up[j], best);
            (if t.upper then y[j] > Clamped(t, b.lo[j], b.up[j]) else y[j] < Clamped(t, b.lo[j], b.up[j]))
            ==> m.objective(y) > best
  {
    assert |m.isInt| == m.n + 1 && c.epspivot > 0.0 && c.tol >= 0.0;
    assert |r.isBasic| == |r.isLower| == |r.drow| == m.n + 1;
    assert |b.lo| == |b.up| == m.n + 1 == |y|;
    hide *;
    ColumnRcfIs(m, c, r, j, b.lo[j], b.up[j], best);
    NonbasicRange(m, c, b, r, j, b.lo[j], b.up[j], best);
    ObjectiveBound(m, b, r, j, y);
    RelaxationBelow(m, b, r, y);
    if m.objective(r.x) <= best {
      ClampSound(r.isBasic[j], r.isLower[j], m.isInt[j], r.drow[j], b.lo[j], b.up[j], best - m.objective(r.x),
               c.tol, c.epsint, c.epspivot, y[j], m.objective(r.x), m.objective(y));
    }
  }

  lemma RelaxationBelow(m: Model, b: Box, r: LpResult, y: seq<real>)
    requires r.Solved? && Exact(m, b, r) && IntPoint(m, y) && InBox(y, b)
    ensures m.objective(r.x) <= m.objective(y)
  {
  }

  lemma IntegralUpdate(m: Model, b: Box, j: nat, v: real, upper: bool)
    requires IntegralBox(m, b) && 1 <= j <= m.n && (m.isInt[j] ==> IsInt(v))
    ensures IntegralBox(m, if upper then Box(b.lo, b.up[j := v]) else Box(b.lo[j := v], b.up))
  {
  }

  lemma TightenIntegral(m: Model, c: Config, r: LpResult, j: nat, lo: real, up: real, best: real)
    requires r.Solved? && 1 <= j <= m.n && |m.isInt| == |r.isBasic| == |r.isLower| == |r.drow| == m.n + 1
    requires c.epspivot > 0.0 && lo <= up && (m.isInt[j] ==> IsInt(lo) && IsInt(up))
    ensures var t := ColumnRcf(m, c, r, j, lo, up, best);
            t.Tighten? ==> (m.isInt[j] ==> IsInt(Clamped(t, lo, up))) && lo <= Clamped(t, lo, up) <= up
  {
    var t := ColumnRcf(m, c, r, j, lo, up, best);
    if t.Tighten? && m.isInt[j] {
      var dist := (best - m.objective(r.x)) / ChSign(!r.isLower[j], r.drow[j]);
      if t.upper {
        assert t.bound == (lo.Floor + (dist + c.tol).Floor) as real;
      } else {
        assert t.bound == (up.Floor - Ceil(dist + c.tol)) as real;
      }
    }
  }

  /** The frame `f` has recorded every difference between `cur` and `orig`, all at the columns in `done`. */
  ghost predicate Tracked(f: Frame, cur: seq<real>, orig: seq<real>, done: seq<nat>) {
    && InRange(f, |cur|) && |cur| == |orig| && Replay(f, cur) == orig
    && (forall e :: 0 <= e < |f| ==> f[e].item in done)
    && (forall i :: 0 <= i < |cur| && i !in done ==> cur[i] == orig[i])
  }

  lemma TrackedExtend(f: Frame, cur: seq<real>, orig: seq<real>, done: seq<nat>, j: nat, v: real)
    requires Tracked(f, cur, orig, done) && j !in done && j < |cur|
    ensures Tracked(f + [Change(j, cur[j])], cur[j := v], orig, done + [j])
  {
    Untouched(f, j);
    ReplayExtend(f, cur, j, v);
  }

  /** A node's frames on top of a ladder that leads to the node's outer box make up a ladder again. */
  lemma RungsIs(fs: seq<Frame>, stack: seq<BBrec>, bases: seq<Box>, root: Box, upper: bool)
    requires |stack| == |bases| && |stack| > 1
    requires var l := |stack| - 1;
             var t := Track(stack[l], upper);
             var outer := Side(Outer(root, stack[..l], bases[..l]), upper);
             && Rung(fs, stack[l].varno, t, Side(bases[l], upper), outer)
             && Rungs(fs[..|fs| - t], stack[..l], bases[..l], root, upper)
             && Joint(fs[..|fs| - t], stack[l - 1].varno, Side(bases[l - 1], upper), outer)
    ensures Rungs(fs, stack, bases, root, upper)
  {
    hide Rung, Joint, Outer, Side, Track;
  }

  lemma RungsPush(fs: seq<Frame>, stack: seq<BBrec>, bases: seq<Box>, root: Box, upper: bool, r: BBrec, b: Box)
    requires stack != [] && |stack| == |bases|
    requires var outer := Side(Outer(root, stack, bases), upper);
             var t := Track(r, upper);
             && Rung(fs, r.varno, t, Side(b, upper), outer)
             && Rungs(fs[..|fs| - t], stack, bases, root, upper)
             && Joint(fs[..|fs| - t], stack[|stack| - 1].varno, Side(bases[|bases| - 1], upper), outer)
    ensures Rungs(fs, stack + [r], bases + [b], root, upper)
  {
    var st, bs := stack + [r], bases + [b];
    assert st[..|stack|] == stack && bs[..|stack|] == bases && st[|stack|] == r && bs[|stack|] == b;
    hide *;
    RungsIs(fs, st, bs, root, upper);
  }

  lemma RungPush(fs: seq<Frame>, f: Frame, k: nat, base: seq<real>, outer: seq<real>)
    requires |base| == |outer| && InRange(f, |outer|) && Replay(f, base) == outer && k < |base|
    ensures Rung(if f == [] then fs + [[]] else fs + [f, []], k, if f == [] then 1 else 2, base, outer)
  {
  }

  /** A fractional integer column is basic, because nonbasic columns sit at integral bounds. */
  lemma FractionalIsBasic(m: Model, b: Box, r: LpResult, j: nat)
    requires IntegralBox(m, b) && r.Solved? && Exact(m, b, r)
    requires 1 <= j <= m.n && m.isInt[j] && !IsInt(r.x[j])
    ensures r.isBasic[j]
  {
  }

  lemma CutsInside(m: Model, best: real, b0: Box, b: Box, root: Box)
    requires CutsOnlyWorse(m, best, b0, b) && SubBox(b0, root)
    ensures SubBox(b, b0) && SubBox(b, root) && IntegralBox(m, b)
  {
  }

  lemma NodeColumn(m: Model, b: Box, r: BBrec)
    requires NodeOk(m, b, r)
    ensures r.varno <= m.n
  {
  }

  /** The record `push_BB` builds for a fractional column is well formed. */
  lemma NewNode(m: Model, b: Box, k: nat, v: real, margin: real, floorFirst: bool, ut: nat, lt: nat)
    requires ValidModel(m) && IntegralBox(m, b) && SubBox(b, Root(m)) && 0.0 <= margin < 0.5
    requires 1 <= k <= m.n && m.isInt[k] && !IsInt(v) && b.lo[k] <= v <= b.up[k]
    ensures var f := FillBranches(v, m.lower[k], m.upper[k], b.lo[k], b.up[k], margin, floorFirst);
            && f.nodesleft == 2 && f.isfloor == floorFirst
            && NodeOk(m, b, Advance(BBrec(k, f.nodesleft, 0, !f.isfloor, f.upBound, f.loBound, ut, lt, 0)))
  {
    assert IsInt(b.lo[k]) && IsInt(b.up[k]) && m.lower[k] <= b.lo[k] && b.up[k] <= m.upper[k];
    IntegralNode(v, m.lower[k], m.upper[k], b.lo[k], b.up[k], margin, floorFirst);
  }
}
