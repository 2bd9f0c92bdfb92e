/** The non-recursive branch-and-bound driver of lp_mipbb.c. All nodes share one pair of bound vectors;
    each node records in the two undo ladders what it overwrites. */
module BranchAndBound {
  import opened Reals
  import opened BoundTests
  import opened Branching
  import opened UndoLadders
  import opened SearchTree
  import opened SearchSteps

  /** `vals` is what a bound vector holds after each of the `track` steps that take the top node off:
      drop the top frame, then replay the frame below it. */
  ghost predicate UnwindPlan(fs: seq<Frame>, track: nat, vals: seq<seq<real>>) {
    && track <= |fs| && |vals| == track + 1
    && forall d :: 1 <= d <= track ==>
         if d == |fs| then vals[d] == vals[d - 1]
         else InRange(fs[|fs| - d - 1], |vals[d - 1]|) && vals[d] == Replay(fs[|fs| - d - 1], vals[d - 1])
  }

  /** The steps lead to the box of the node below as it was created, or to the root box. */
  lemma UnwindReaches(fs: seq<Frame>, stack: seq<BBrec>, bases: seq<Box>, root: Box, upper: bool) returns (vals: seq<seq<real>>)
    requires stack != [] && |stack| == |bases| && Rungs(fs, stack, bases, root, upper)
    ensures UnwindPlan(fs, Track(stack[|stack| - 1], upper), vals)
    ensures vals[0] == Side(bases[|stack| - 1], upper)
    ensures vals[|vals| - 1] == Side(BaseBelow(root, bases), upper)
  {
    var l := |stack| - 1;
    var t, base := Track(stack[l], upper), Side(bases[l], upper);
    var outer := Side(Outer(root, stack[..l], bases[..l]), upper);
    var below := Side(BaseBelow(root, bases), upper);
    vals := if t == 2 then [base, outer, below] else [base, below];
    if l > 0 {
      UndoableRestores(fs[|fs| - t - 1], stack[l - 1].varno, Side(bases[l - 1], upper), outer);
    } else {
      assert Rungs(fs[..|fs| - t], stack[..l], bases[..l], root, upper);
    }
  }

  lemma RungsBelow(fs: seq<Frame>, stack: seq<BBrec>, bases: seq<Box>, root: Box, upper: bool)
    requires stack != [] && |stack| == |bases| && Rungs(fs, stack, bases, root, upper)
    ensures var l, t := |stack| - 1, Track(stack[|stack| - 1], upper);
            1 <= t <= |fs| && Rungs(fs[..|fs| - t], stack[..l], bases[..l], root, upper)
  {
  }

  /** Takes the top node's changes back off one bound vector: what `pop_BB` does to each ladder. The
      frame of the node below is replayed as well. */
  method Unwind(ladder: UndoLadder, target: array<real>, track: nat,
                ghost stack: seq<BBrec>, ghost bases: seq<Box>, ghost root: Box, ghost upper: bool)
    requires ladder.Valid() && stack != [] && |stack| == |bases|
    requires Rungs(ladder.frames, stack, bases, root, upper) && track == Track(stack[|stack| - 1], upper)
    requires ladder.frames != []
    requires Undoable(ladder.frames[|ladder.frames| - 1], stack[|stack| - 1].varno,
                      Side(bases[|stack| - 1], upper), target[..])
    modifies ladder, target
    ensures ladder.Valid() && Rungs(ladder.frames, stack[..|stack| - 1], bases[..|stack| - 1], root, upper)
    ensures target[..] == Side(BaseBelow(root, bases), upper)
  {
    hide UndoLadder.Valid, Rungs;
    ghost var fs := ladder.frames;
    ghost var vals := UnwindReaches(fs, stack, bases, root, upper);
    RungsBelow(fs, stack, bases, root, upper);
    UndoableRestores(fs[|fs| - 1], stack[|stack| - 1].varno, Side(bases[|stack| - 1], upper), target[..]);
    ladder.Restore(target);
    UnwindFrames(ladder, target, track, fs, vals);
  }

  method CopyOf(s: seq<real>) returns (a: array<real>)
    ensures fresh(a) && a[..] == s && a.Length == |s|
  {
    a := new real[|s|](i requires 0 <= i < |s| => s[i]);
  }

  lemma ModelSizes(m: Model)
    requires ValidModel(m)
    ensures |m.lower| == |m.upper| == |m.isInt| == m.n + 1
  {
  }

  lemma UnwindStep(fs: seq<Frame>, track: nat, vals: seq<seq<real>>, d: nat)
    requires UnwindPlan(fs, track, vals) && 1 <= d <= track
    ensures d <= |fs| && d < |vals|
    ensures var gs := fs[..|fs| - d];
            if gs == [] then vals[d] == vals[d - 1]
            else InRange(gs[|gs| - 1], |vals[d - 1]|) && vals[d] == Replay(gs[|gs| - 1], vals[d - 1])
  {
  }

  method UnwindFrames(ladder: UndoLadder, target: array<real>, track: nat, ghost fs: seq<Frame>, ghost vals: seq<seq<real>>)
    requires ladder.Valid() && ladder.frames == fs && UnwindPlan(fs, track, vals) && target[..] == vals[0]
    modifies ladder, target
    ensures ladder.Valid() && ladder.frames == fs[..|fs| - track] && target[..] == vals[track]
  {
    assert |vals| == track + 1 && track <= |fs|;
    hide UndoLadder.Valid, UnwindPlan, Replay, InRange;
    var t := track;
    while t > 0
      invariant ladder.Valid() && 0 <= t <= track
      invariant ladder.frames == fs[..|fs| - (track - t)]
      invariant target[..] == vals[track - t]
    {
      ladder.Decrement();
      t := t - 1;
      ghost var d := track - t;
      assert fs[..|fs| - (d - 1)][..|fs| - d] == fs[..|fs| - d];
      UnwindStep(fs, track, vals, d);
      ladder.Restore(target);
    }
  }

  /** Imposes a branch bound on the top node's column and records what it overwrites. */
  method ImposeSide(ladder: UndoLadder, target: array<real>, k: nat, v: real,
                    ghost stack: seq<BBrec>, ghost bases: seq<Box>, ghost root: Box, ghost upper: bool)
    requires ladder.Valid() && stack != [] && |stack| == |bases| && k == stack[|stack| - 1].varno
    requires Rungs(ladder.frames, stack, bases, root, upper) && target[..] == Side(bases[|bases| - 1], upper)
    modifies ladder, target
    ensures ladder.Valid() && Rungs(ladder.frames, stack, bases, root, upper)
    ensures k < target.Length && target[..] == Side(bases[|bases| - 1], upper)[k := v]
    ensures ladder.frames != [] && Undoable(ladder.frames[|ladder.frames| - 1], k, Side(bases[|bases| - 1], upper), target[..])
  {
    hide UndoLadder.Valid, Rungs;
    TopFrame(ladder.frames, stack, bases, root, upper);
    RungsRecord(ladder.frames, stack, bases, root, upper);
    ladder.Modify(k, target, v);
    TopFrame(ladder.frames, stack, bases, root, upper);
  }

  /** The top frame of the ladder has recorded all that happened to `cur` since it was `orig`, and the
      frames below it are those of `fs`. */
  ghost predicate TopTracks(ladder: UndoLadder, fs: seq<Frame>, cur: seq<real>, orig: seq<real>, done: seq<nat>)
    reads ladder
  {
    && ladder.Valid() && |ladder.frames| == |fs| > 0 && ladder.frames[..|fs| - 1] == fs[..|fs| - 1]
    && Tracked(ladder.frames[|fs| - 1], cur, orig, done)
  }

  /** One recorded change to a column that has not been changed yet. */
  method RecordChange(ladder: UndoLadder, target: array<real>, j: nat, v: real,
                      ghost fs: seq<Frame>, ghost orig: seq<real>, ghost done: seq<nat>)
    requires TopTracks(ladder, fs, target[..], orig, done) && j < target.Length && j !in done
    modifies ladder, target
    ensures TopTracks(ladder, fs, target[..], orig, done + [j]) && target[..] == old(target[..])[j := v]
  {
    hide UndoLadder.Valid, Tracked;
    TrackedExtend(ladder.frames[|fs| - 1], target[..], orig, done, j, v);
    ladder.Modify(j, target, v);
  }

  /** Replays the top node's own frame. */
  method RestoreSide(ladder: UndoLadder, target: array<real>, ghost k: nat, ghost base: seq<real>)
    requires ladder.Valid() && ladder.frames != []
    requires Undoable(ladder.frames[|ladder.frames| - 1], k, base, target[..])
    modifies ladder`colEnd, ladder`entries, target
    ensures ladder.Valid() && target[..] == base
  {
    UndoableRestores(ladder.frames[|ladder.frames| - 1], k, base, target[..]);
    ladder.Restore(target);
  }

  class BBTree {
    const m: Model
    const cfg: Config
    const lp: (nat, Box, Basis) -> LpResult
    const intVars: nat
    const upbo: array<real>
    const lowbo: array<real>
    const varactive: array<int>
    const upChange: UndoLadder
    const loChange: UndoLadder

    var stack: seq<BBrec>
    var basis: Basis
    var bbBasis: seq<Basis>
    var lpr: LpResult
    var calls: nat
    var totalnodes: nat
    var solutioncount: nat
    var bestOF: real
    var bestX: seq<real>
    var realSolution: real
    var curtailed: bool

    /** The box each node had when it was created, and the basis that was current then. */
    ghost var bases: seq<Box>
    ghost var saved: seq<Basis>
    /** The basis the last relaxation was started from. */
    ghost var startBasis: Basis
    /** How many incumbents have been stored (`solutioncount` is set back to 1 by each). */
    ghost var accepted: nat
    /** The stack at each relaxation so far. */
    ghost var history: seq<seq<BBrec>>

    ghost predicate Ready() {
      && ValidModel(m) && ValidConfig(cfg) && ExactLp(m, lp) && Finite(m, cfg)
      && intVars == IntCount(m, m.n)
    }

    ghost predicate Sizes() {
      && upbo.Length == lowbo.Length == varactive.Length == m.n + 1
      && upbo != lowbo && upChange != loChange
    }

    ghost predicate Nodes()
      reads `stack, `bases
    {
      && |stack| == |bases| && ChainOk(m, stack, bases)
      && (stack != [] ==> stack[0].varno == 0 && bases[0] == Root(m))
      && (forall i :: 0 < i < |stack| ==> stack[i].varno > 0)
    }

    ghost predicate Laddered()
      reads `stack, `bases, upChange, loChange
    {
      && |stack| == |bases| && upChange.Valid() && loChange.Valid()
      && Rungs(upChange.frames, stack, bases, Root(m), true)
      && Rungs(loChange.frames, stack, bases, Root(m), false)
    }

    /** bb_varactive counts the nodes that branch on each column. */
    ghost predicate Counted()
      reads `stack, varactive
    {
      forall k :: 1 <= k <= m.n && k < varactive.Length ==> varactive[k] == Depth(stack, k)
    }

    /** Each node has saved the basis that was current when it was created. */
    ghost predicate BasesSaved()
      reads `stack, `saved, `bbBasis
    {
      |saved| == |stack| <= |bbBasis| && bbBasis[|bbBasis| - |saved|..] == saved
    }

    ghost predicate Shape()
      reads `stack, `bases, `saved, `bbBasis, varactive, upChange, loChange
    {
      Ready() && Sizes() && Nodes() && Laddered() && Counted() && BasesSaved()
    }

    ghost function Current(): Box
      reads upbo, lowbo
    {
      Box(lowbo[..], upbo[..])
    }

    /** The shared bounds are those the top node was created with. */
    ghost predicate AtBase()
      reads `stack, `bases, upbo, lowbo
    {
      stack != [] && |bases| == |stack| && Current() == bases[|bases| - 1]
    }

    /** The shared bounds are those of the top node's active branch. */
    ghost predicate AtBranch()
      reads `stack, `bases, upbo, lowbo
    {
      stack != [] && |bases| == |stack| && Current() == Outer(Root(m), stack, bases)
    }

    /** Replaying the top frames leads back to the bounds the top node was created with. */
    ghost predicate TopUndoable()
      reads `stack, `bases, upbo, lowbo, upChange, loChange
    {
      && stack != [] && |bases| == |stack| && upChange.frames != [] && loChange.frames != []
      && var l := |stack| - 1;
      && Undoable(upChange.frames[|upChange.frames| - 1], stack[l].varno, bases[l].up, upbo[..])
      && Undoable(loChange.frames[|loChange.frames| - 1], stack[l].varno, bases[l].lo, lowbo[..])
    }

    ghost predicate Backtrackable()
      reads `stack, `bases, `saved, `bbBasis, upbo, lowbo, varactive, upChange, loChange
    {
      Shape() && stack != [] && TopUndoable() && (stack[|stack| - 1].nodessolved == 0 ==> AtBase())
    }

    /** The relaxation of the root bounds every objective value from below. */
    ghost predicate RootBound()
      reads `realSolution
    {
      Abs(realSolution) < INFINITE && forall y :: InBox(y, Root(m)) && m.feasible(y) ==> realSolution <= m.objective(y)
    }

    ghost predicate Results()
      reads `stack, `solutioncount, `accepted, `bestOF, `bestX, `realSolution, `curtailed
    {
      && (solutioncount == 0 <==> accepted == 0)
      && (solutioncount == 0 ==> bestOF == INFINITE)
      && (solutioncount > 0 ==> bestOF == m.objective(bestX) && bestOF < INFINITE)
      && (solutioncount > 0 && (cfg.limitLevel != 1 || intVars == 0) ==> IntPoint(m, bestX))
      && (solutioncount > 0 && !curtailed ==> IntPoint(m, bestX))
      && ((realSolution == INFINITE && |stack| <= 1) || RootBound())
    }

    /** Unless a depth limit has cut something off, every integer point is settled, or in the top node's
        active branch, or in a branch not started yet. */
    ghost predicate StillCovered()
      reads `stack, `bases, `accepted, `bestOF, `curtailed
    {
      |stack| == |bases| && (curtailed || Covered(m, cfg, accepted, bestOF, stack, bases, Outer(Root(m), stack, bases)))
    }

    /** The same after the top node's active branch is done with. */
    ghost predicate RestCovered()
      reads `stack, `bases, `accepted, `bestOF, `curtailed
    {
      |stack| == |bases| && (curtailed || CoveredByOpen(m, cfg, accepted, bestOF, stack, bases))
    }

    constructor (m: Model, cfg: Config, lp: (nat, Box, Basis) -> LpResult, basis: Basis)
      requires ValidModel(m) && ValidConfig(cfg) && ExactLp(m, lp) && Finite(m, cfg)
      ensures this.m == m && this.cfg == cfg && this.lp == lp && AtStart()
      ensures fresh(upbo) && fresh(lowbo) && fresh(varactive) && fresh(upChange) && fresh(loChange)
    {
      hide *;
      ModelSizes(m);
      this.m, this.cfg, this.lp, this.basis := m, cfg, lp, basis;
      intVars := IntCount(m, m.n);
      var ups := CopyOf(m.upper);
      var lows := CopyOf(m.lower);
      upbo, lowbo := ups, lows;
      varactive := new int[m.n + 1](_ => 0);
      upChange := new UndoLadder();
      loChange := new UndoLadder();
      stack, bases, saved, bbBasis := [], [], [], [];
      startBasis := basis;
      lpr := Infeasible(basis);
      calls, totalnodes, solutioncount, accepted, history := 0, 0, 0, 0, [];
      bestOF, realSolution := INFINITE, INFINITE;
      bestX, curtailed := [], false;
      new;
      NewTree();
    }

    lemma NewTree()
      requires ValidModel(m) && ValidConfig(cfg) && ExactLp(m, lp) && Finite(m, cfg) && intVars == IntCount(m, m.n)
      requires stack == [] && bases == [] && saved == [] && bbBasis == []
      requires upChange.Valid() && upChange.frames == [] && loChange.Valid() && loChange.frames == []
      requires varactive.Length == m.n + 1 && forall k :: 0 <= k < varactive.Length ==> varactive[k] == 0
      requires upbo != lowbo && upChange != loChange && upbo[..] == m.upper && lowbo[..] == m.lower
      requires solutioncount == 0 && bestOF == INFINITE && realSolution == INFINITE && calls == 0 && accepted == 0 && history == [] && !curtailed
      ensures AtStart()
    {
      hide *;
      ModelSizes(m);
      EmptyStack();
      FreshTree();
      Starting();
    }

    lemma Starting()
      requires Shape() && Results() && stack == [] && Current() == Root(m) && calls == 0 && solutioncount == 0 && accepted == 0 && history == [] && !curtailed
      ensures AtStart()
    {
    }

    lemma FreshTree()
      requires ValidModel(m) && ValidConfig(cfg) && ExactLp(m, lp) && Finite(m, cfg) && intVars == IntCount(m, m.n)
      requires Nodes() && Laddered() && Counted() && BasesSaved() && stack == []
      requires upbo.Length == lowbo.Length == varactive.Length == m.n + 1 && upbo != lowbo && upChange != loChange
      requires upbo[..] == m.upper && lowbo[..] == m.lower
      requires solutioncount == 0 && accepted == 0 && bestOF == INFINITE && realSolution == INFINITE
      ensures Shape() && Results() && Current() == Root(m)
    {
      hide ValidModel, ValidConfig, ExactLp, Finite, Nodes, Laddered, Counted, BasesSaved, RootBound;
    }

    /** The state in which `run_BB` starts. */
    ghost predicate AtStart()
      reads this, upbo, lowbo, varactive, upChange, loChange
    {
      && Shape() && Results() && stack == [] && Current() == Root(m)
      && calls == 0 && solutioncount == 0 && accepted == 0 && history == [] && !curtailed
    }

    lemma EmptyStack()
      requires stack == [] && bases == [] && saved == [] && bbBasis == []
      requires upChange.Valid() && upChange.frames == [] && loChange.Valid() && loChange.frames == []
      requires forall k :: 0 <= k < varactive.Length ==> varactive[k] == 0
      ensures Nodes() && Laddered() && Counted() && BasesSaved()
    {
    }

    /** `push_BB` of the root node: its only branch is the whole model. */
    method PushRoot()
      requires Shape() && stack == [] && Current() == Root(m)
      modifies this`stack, this`bases, this`saved, this`bbBasis, upChange, loChange
      ensures Shape() && |stack| == 1 && AtBase() && AtBranch() && stack[0].nodessolved == 0 && stack[0].nodesleft == 0
      ensures Remaining(m, stack, bases) == 0
      ensures forall y :: !OpenIn(stack, bases, y)
    {
      upChange.Increment();
      loChange.Increment();
      bbBasis := bbBasis + [basis];
      saved := [basis];
      stack := [BBrec(0, 0, 0, true, INFINITE, -INFINITE, 1, 1, 0)];
      bases := [Root(m)];
      assert stack[..0] == [] && bases[..0] == [];
      assert upChange.frames[..0] == [] && loChange.frames[..0] == [];
    }

    /** The part of `nextbranch_BB` that takes the last branch bound back off. */
    method RestoreTop()
      requires Backtrackable()
      modifies upbo, lowbo, upChange, loChange
      ensures Shape() && AtBase()
      ensures upChange.frames == old(upChange.frames) && loChange.frames == old(loChange.frames)
      ensures Backtrackable()
    {
      hide UndoLadder.Valid, Ready, Rungs, ChainOk, Counted, BasesSaved;
      var l := |stack| - 1;
      if stack[l].nodessolved > 0 {
        RestoreSide(upChange, upbo, stack[l].varno, bases[l].up);
        RestoreSide(loChange, lowbo, stack[l].varno, bases[l].lo);
      }
    }

    /** `nextbranch_BB`: take the top node's last branch bound back off and start its other branch, if any. */
    method NextBranch() returns (ok: bool)
      requires Backtrackable()
      modifies this`stack, this`totalnodes, upbo, lowbo, upChange, loChange
      ensures Shape() && AtBase() && bases == old(bases)
      ensures ok <==> old(stack[|stack| - 1].nodesleft) > 0
      ensures stack == if ok then old(stack)[|old(stack)| - 1 := Advance(old(stack)[|old(stack)| - 1])] else old(stack)
      ensures !ok ==> Backtrackable()
      ensures totalnodes == old(totalnodes) + if ok then 1 else 0
    {
      hide UndoLadder.Valid, Rungs, ChainOk, Depth;
      RestoreTop();
      var l := |stack| - 1;
      ok := stack[l].nodesleft > 0;
      if ok {
        AdvanceNode(m, stack, bases);
        RungsAnyBranch(upChange.frames, stack, bases, Root(m), true, Advance(stack[l]));
        RungsAnyBranch(loChange.frames, stack, bases, Root(m), false, Advance(stack[l]));
        stack := stack[l := Advance(stack[l])];
        totalnodes := totalnodes + 1;
      }
    }

    /** The part of `pop_BB` that restores both bound vectors. */
    method UnwindTop()
      requires Backtrackable()
      modifies upbo, lowbo, upChange, loChange
      ensures upChange.Valid() && loChange.Valid() && Current() == BaseBelow(Root(m), bases)
      ensures Rungs(upChange.frames, stack[..|stack| - 1], bases[..|stack| - 1], Root(m), true)
      ensures Rungs(loChange.frames, stack[..|stack| - 1], bases[..|stack| - 1], Root(m), false)
    {
      hide UndoLadder.Valid, Ready, Rungs, ChainOk, Counted, BasesSaved;
      var r := stack[|stack| - 1];
      Unwind(upChange, upbo, r.UBtrack, stack, bases, Root(m), true);
      Unwind(loChange, lowbo, r.LBtrack, stack, bases, Root(m), false);
    }

    /** `pop_BB`: drop the top node and restore the bounds the node below was created with. */
    method PopBB()
      requires Backtrackable()
      modifies this`stack, this`bases, this`saved, this`bbBasis, upbo, lowbo, varactive, upChange, loChange
      ensures Shape() && stack == old(stack)[..|old(stack)| - 1] && bases == old(bases)[..|old(stack)| - 1]
      ensures Current() == BaseBelow(Root(m), old(bases))
      ensures stack != [] ==> Backtrackable()
    {
      hide UndoLadder.Valid, Ready, Rungs, ChainOk, Depth, TopUndoable;
      UnwindTop();
      ChainBelow(m, stack, bases);
      var l := |stack| - 1;
      var r := stack[l];
      stack := stack[..l];
      bases := bases[..l];
      PopBasis();
      if l > 0 {
        varactive[r.varno] := varactive[r.varno] - 1;
        BaseUndoable();
      }
    }

    /** `pop_basis`; taking off the root node drops one more saved basis, if there is one. */
    method PopBasis()
      requires |saved| == |stack| + 1 <= |bbBasis| && bbBasis[|bbBasis| - |saved|..] == saved
      modifies this`saved, this`bbBasis
      ensures BasesSaved()
    {
      bbBasis := bbBasis[..|bbBasis| - 1];
      saved := saved[..|stack|];
      if stack == [] && |bbBasis| > 0 {
        bbBasis := bbBasis[..|bbBasis| - 1];
      }
    }

    lemma BaseUndoable()
      requires Laddered() && AtBase()
      ensures TopUndoable()
    {
      TopFrame(upChange.frames, stack, bases, Root(m), true);
      TopFrame(loChange.frames, stack, bases, Root(m), false);
      hide UndoLadder.Valid, Rungs, OwnFrame;
    }

    /** The part of `solve_BB` that imposes the bound of the top node's active branch. */
    method ImposeBranch()
      requires Shape() && AtBase()
      modifies upbo, lowbo, upChange, loChange
      ensures Shape() && TopUndoable() && AtBranch()
    {
      hide UndoLadder.Valid, Ready, Rungs, ChainOk, Counted, BasesSaved, NodeOk, SubBox, Outer, Branched, OwnFrame;
      var r := stack[|stack| - 1];
      TopNode(m, stack, bases);
      TopFrame(upChange.frames, stack, bases, Root(m), true);
      TopFrame(loChange.frames, stack, bases, Root(m), false);
      BranchedBox(bases, stack);
      if r.varno > 0 {
        if r.isfloor {
          ImposeSide(upChange, upbo, r.varno, r.upBound, stack, bases, Root(m), true);
        } else {
          ImposeSide(loChange, lowbo, r.varno, r.loBound, stack, bases, Root(m), false);
        }
      }
    }

    lemma BranchedBox(bases: seq<Box>, stack: seq<BBrec>)
      requires |stack| == |bases| > 0
      ensures var b, r := bases[|bases| - 1], stack[|stack| - 1];
              Outer(Root(m), stack, bases) ==
                if r.varno == 0 || r.varno >= |b.lo| || r.varno >= |b.up| then b
                else if r.isfloor then Box(b.lo, b.up[r.varno := r.upBound])
                else Box(b.lo[r.varno := r.loBound], b.up)
    {
    }

    /** Update the counters of the top node's record. */
    method UpdateTop(solved: nat, rcf: nat)
      requires Shape() && stack != []
      modifies this`stack
      ensures Shape() && Outer(Root(m), stack, bases) == old(Outer(Root(m), stack, bases))
      ensures old(TopUndoable()) ==> TopUndoable()
      ensures old(AtBranch()) ==> AtBranch()
      ensures old(AtBase()) ==> AtBase()
      ensures old(Results()) ==> Results()
      ensures old(StillCovered()) ==> StillCovered()
      ensures stack == var l := |old(stack)| - 1; old(stack)[l := old(stack)[l].(nodessolved := solved, lastrcf := rcf)]
    {
      hide UndoLadder.Valid, Ready, Rungs, ChainOk, Depth, Outer, RootBound, IntPoint, OpenIn, InBox, Settled, Undoable;
      var l := |stack| - 1;
      var r := stack[l].(nodessolved := solved, lastrcf := rcf);
      SameNode(m, stack, bases, r);
      RungsAnyBranch(upChange.frames, stack, bases, Root(m), true, r);
      RungsAnyBranch(loChange.frames, stack, bases, Root(m), false, r);
      stack := stack[l := r];
    }

    /** The part of `solve_BB` before the simplex code is called. */
    method StartBranch()
      requires Shape() && AtBase() && stack != []
      modifies this`stack, upbo, lowbo, upChange, loChange
      ensures Backtrackable() && AtBranch()
      ensures old(Results()) ==> Results()
      ensures old(StillCovered()) ==> StillCovered()
      ensures stack == var l := |old(stack)| - 1; var r := old(stack)[l];
                       old(stack)[l := r.(nodessolved := r.nodessolved + if r.varno > 0 then 1 else 0)]
    {
      hide Shape, AtBranch, AtBase, TopUndoable, Outer, Results, StillCovered;
      ImposeBranch();
      var top := stack[|stack| - 1];
      if top.varno > 0 {
        UpdateTop(top.nodessolved + 1, top.lastrcf);
      } else {
        RootUnbranched();
      }
    }

    /** `solve_BB` with `solve_LP`: impose the branch bound, go back to the saved basis when this is not
        the node's first branch, and run the simplex code. */
    method SolveBB()
      requires Shape() && Results() && AtBase() && stack != []
      modifies this`stack, this`lpr, this`calls, this`history, this`basis, this`startBasis, this`realSolution, upbo, lowbo, upChange, loChange
      ensures Backtrackable() && Results() && AtBranch() && |stack| == |bases|
      ensures old(StillCovered()) ==> StillCovered()
      ensures stack == var l := |old(stack)| - 1; var r := old(stack)[l];
                       old(stack)[l := r.(nodessolved := r.nodessolved + if r.varno > 0 then 1 else 0)]
      ensures calls == old(calls) + 1 && history == old(history) + [stack]
      ensures Exact(m, Outer(Root(m), stack, bases), lpr) && (lpr.Solved? ==> RootBound())
      ensures old(stack[|stack| - 1].nodessolved) >= 1 && old(stack[|stack| - 1].varno) > 0 ==>
                |saved| > 0 && startBasis == saved[|saved| - 1]
    {
      hide *;
      StartBranch();
      SolveBranch();
    }

    /** The part of `solve_BB` after the branch bound has been imposed. */
    method SolveBranch()
      requires Backtrackable() && Results() && AtBranch()
      modifies this`lpr, this`calls, this`history, this`basis, this`startBasis, this`realSolution
      ensures Backtrackable() && Results() && AtBranch() && |stack| == |bases|
      ensures old(StillCovered()) ==> StillCovered()
      ensures calls == old(calls) + 1 && history == old(history) + [stack]
      ensures Exact(m, Outer(Root(m), stack, bases), lpr) && (lpr.Solved? ==> RootBound())
      ensures stack != [] && (stack[|stack| - 1].nodessolved > 1 ==> |saved| > 0 && startBasis == saved[|saved| - 1])
    {
      hide *;
      BacktrackParts();
      if stack[|stack| - 1].nodessolved > 1 {
        RestoreBasis();
      }
      startBasis := basis;
      SolveLP();
      if lpr.Solved? {
        NoteRelaxation();
      }
      BacktrackIs();
    }

    /** `restore_basis`: back to the basis the top node has saved. */
    method RestoreBasis()
      requires Shape() && stack != []
      modifies this`basis
      ensures |saved| > 0 && basis == saved[|saved| - 1]
    {
      basis := bbBasis[|bbBasis| - 1];
    }

    lemma RootUnbranched()
      requires AtBranch() && stack != [] && stack[|stack| - 1].varno == 0
      ensures AtBase()
    {
    }

    method SolveLP()
      requires Shape() && AtBranch()
      modifies this`lpr, this`calls, this`history, this`basis
      ensures calls == old(calls) + 1 && history == old(history) + [stack] && |stack| == |bases| && Exact(m, Outer(Root(m), stack, bases), lpr)
    {
      hide UndoLadder.Valid, Rungs, ChainOk, Counted, Exact, Outer;
      var box := Box(lowbo[..], upbo[..]);
      lpr := lp(calls, box, basis);
      assert Sized(m, box);
      calls, history := calls + 1, history + [stack];
      basis := lpr.basis;
    }

    /** Remember the root relaxation as the best value any subproblem can reach. */
    method NoteRelaxation()
      requires Shape() && Results() && stack != [] && lpr.Solved? && Exact(m, Outer(Root(m), stack, bases), lpr)
      modifies this`realSolution
      ensures Results() && RootBound()
    {
      hide UndoLadder.Valid, Rungs, ChainOk, Counted, BasesSaved, Exact, Outer;
      RootObjective(m, cfg, stack, bases, lpr);
      if Abs(realSolution) >= INFINITE {
        realSolution := m.objective(lpr.x);
      }
      // the test for a subproblem that is better than the root relaxation never fires
      assert realSolution <= m.objective(lpr.x);
    }

    /** The reduced-cost changes made so far: both top frames record them, the points that could still
        improve on the incumbent are all there, and the bounds of basic columns are as before. */
    ghost predicate Tightened(b0: Box, up0: seq<Frame>, lo0: seq<Frame>, done: seq<nat>)
      reads `lpr, `bestOF, upbo, lowbo, upChange, loChange
    {
      && lpr.Solved? && |lpr.isBasic| == m.n + 1 && Sizes() && Sized(m, b0)
      && TopTracks(upChange, up0, upbo[..], b0.up, done) && TopTracks(loChange, lo0, lowbo[..], b0.lo, done)
      && CutsOnlyWorse(m, bestOF, b0, Current())
      && (forall j :: 0 <= j <= m.n && lpr.isBasic[j] ==> upbo[j] == b0.up[j] && lowbo[j] == b0.lo[j])
    }

    /** The columns in `done` have the bounds that their reduced costs give them. */
    ghost predicate Tight(b0: Box, done: seq<nat>)
      reads `lpr, `bestOF, upbo, lowbo
    {
      forall j :: j in done ==> TightAt(b0, j)
    }

    ghost predicate TightAt(b0: Box, j: nat)
      reads `lpr, `bestOF, upbo, lowbo
    {
      && lpr.Solved? && 1 <= j <= m.n && |m.isInt| == |lpr.isBasic| == |lpr.isLower| == |lpr.drow| == m.n + 1 && cfg.epspivot > 0.0
      && j < |b0.lo| && j < |b0.up| && j < lowbo.Length && j < upbo.Length
      && var t := ColumnRcf(m, cfg, lpr, j, b0.lo[j], b0.up[j], bestOF);
      && upbo[j] == (if t.Tighten? && t.upper then Clamped(t, b0.lo[j], b0.up[j]) else b0.up[j])
      && lowbo[j] == (if t.Tighten? && !t.upper then Clamped(t, b0.lo[j], b0.up[j]) else b0.lo[j])
    }

    /** Tighten the bounds of one column, as the loop body of `push_BB` does. */
    method TightenColumn(j: nat, ghost b0: Box, ghost up0: seq<Frame>, ghost lo0: seq<Frame>, ghost done: seq<nat>)
      requires Ready() && Tightened(b0, up0, lo0, done)
      requires IntegralBox(m, b0) && Exact(m, b0, lpr)
      requires 1 <= j <= m.n && j !in done && Tight(b0, done)
      modifies upbo, lowbo, upChange, loChange
      ensures Tightened(b0, up0, lo0, done + [j]) && Tight(b0, done + [j])
    {
      Untightened(j, b0, up0, lo0, done);
      ghost var b1 := Current();
      TightKnown(b0, done);
      assert Sizes() && |lpr.isBasic| == |lpr.isLower| == |lpr.drow| == |m.isInt| == m.n + 1 && cfg.epspivot > 0.0 && ValidConfig(cfg);
      assert lpr.Solved? && CutsOnlyWorse(m, bestOF, b0, Current());
      hide *;
      var r := ColumnRcf(m, cfg, lpr, j, lowbo[j], upbo[j], bestOF);
      if r.Tighten? {
        TightenStep(m, cfg, b0, Current(), lpr, j, bestOF);
        ImposeTightening(j, r, b0, up0, lo0, done);
      } else {
        StillTightened(j, b0, up0, lo0, done);
      }
      TightNext(b0, b1, done, j, r);
    }

    lemma TightKnown(b0: Box, done: seq<nat>)
      requires Tight(b0, done)
      ensures forall i :: i in done ==> TightIn(b0, Current(), i)
    {
    }

    /** The same for bounds `b`. */
    ghost predicate TightIn(b0: Box, b: Box, j: nat)
      reads `lpr, `bestOF
    {
      && lpr.Solved? && 1 <= j <= m.n && |m.isInt| == |lpr.isBasic| == |lpr.isLower| == |lpr.drow| == m.n + 1 && cfg.epspivot > 0.0
      && j < |b0.lo| && j < |b0.up| && j < |b.lo| && j < |b.up|
      && var t := ColumnRcf(m, cfg, lpr, j, b0.lo[j], b0.up[j], bestOF);
      && b.up[j] == (if t.Tighten? && t.upper then Clamped(t, b0.lo[j], b0.up[j]) else b0.up[j])
      && b.lo[j] == (if t.Tighten? && !t.upper then Clamped(t, b0.lo[j], b0.up[j]) else b0.lo[j])
    }

    lemma TightNext(b0: Box, b1: Box, done: seq<nat>, j: nat, r: Rcf)
      requires lpr.Solved? && 1 <= j <= m.n && |m.isInt| == |lpr.isBasic| == |lpr.isLower| == |lpr.drow| == m.n + 1 && cfg.epspivot > 0.0
      requires j < |b0.lo| && j < |b0.up| && j < |b1.lo| && j < |b1.up| && b1.lo[j] == b0.lo[j] && b1.up[j] == b0.up[j] && j !in done
      requires r == ColumnRcf(m, cfg, lpr, j, b0.lo[j], b0.up[j], bestOF)
      requires Current() == if r.Free? then b1 else if r.upper then Box(b1.lo, b1.up[j := Clamped(r, b0.lo[j], b0.up[j])])
                            else Box(b1.lo[j := Clamped(r, b0.lo[j], b0.up[j])], b1.up)
      requires forall i :: i in done ==> TightIn(b0, b1, i)
      ensures Tight(b0, done + [j])
    {
      hide ColumnRcf, Clamped;
      forall i | i in done + [j] ensures TightAt(b0, i) {
        if i == j {
          TightHere(b0, b1, j, r);
        } else {
          assert TightIn(b0, b1, i);
          TightThere(b0, b1, i);
        }
      }
    }

    lemma TightHere(b0: Box, b1: Box, j: nat, r: Rcf)
      requires lpr.Solved? && 1 <= j <= m.n && |m.isInt| == |lpr.isBasic| == |lpr.isLower| == |lpr.drow| == m.n + 1 && cfg.epspivot > 0.0
      requires j < |b0.lo| && j < |b0.up| && j < |b1.lo| && j < |b1.up| && b1.lo[j] == b0.lo[j] && b1.up[j] == b0.up[j]
      requires r == ColumnRcf(m, cfg, lpr, j, b0.lo[j], b0.up[j], bestOF)
      requires Current() == if r.Free? then b1 else if r.upper then Box(b1.lo, b1.up[j := Clamped(r, b0.lo[j], b0.up[j])])
                            else Box(b1.lo[j := Clamped(r, b0.lo[j], b0.up[j])], b1.up)
      ensures TightAt(b0, j)
    {
      hide ColumnRcf, Clamped;
      var b := Current();
      assert |b.lo| == |b1.lo| && |b.up| == |b1.up|;
      assert b.up[j] == upbo[j] && b.lo[j] == lowbo[j];
    }

    lemma TightThere(b0: Box, b1: Box, i: nat)
      requires TightIn(b0, b1, i) && |Current().lo| == |b1.lo| && |Current().up| == |b1.up|
      requires i < |b1.lo| && i < |b1.up| && Current().lo[i] == b1.lo[i] && Current().up[i] == b1.up[i]
      ensures TightAt(b0, i)
    {
      hide ColumnRcf, Clamped;
      var b := Current();
      assert b.up[i] == upbo[i] && b.lo[i] == lowbo[i];
    }

    lemma StillTightened(j: nat, b0: Box, up0: seq<Frame>, lo0: seq<Frame>, done: seq<nat>)
      requires Tightened(b0, up0, lo0, done) && 1 <= j <= m.n && j !in done
      ensures Tightened(b0, up0, lo0, done + [j])
    {
      Untightened(j, b0, up0, lo0, done);
      hide TopTracks, CutsOnlyWorse;
    }

    /** Set the tightened bound and record what it overwrites. */
    method ImposeTightening(j: nat, r: Rcf, ghost b0: Box, ghost up0: seq<Frame>, ghost lo0: seq<Frame>, ghost done: seq<nat>)
      requires Tightened(b0, up0, lo0, done) && r.Tighten? && 1 <= j <= m.n && j !in done
      requires j < lowbo.Length && j < upbo.Length && !lpr.isBasic[j]
      requires var b := Current(); var v := Clamped(r, lowbo[j], upbo[j]);
               CutsOnlyWorse(m, bestOF, b0, if r.upper then Box(b.lo, b.up[j := v]) else Box(b.lo[j := v], b.up))
      modifies upbo, lowbo, upChange, loChange
      ensures Tightened(b0, up0, lo0, done + [j])
      ensures Current() == var b := old(Current()); var v := Clamped(r, b.lo[j], b.up[j]);
                           if r.upper then Box(b.lo, b.up[j := v]) else Box(b.lo[j := v], b.up)
    {
      Untightened(j, b0, up0, lo0, done);
      hide TopTracks, CutsOnlyWorse, Clamped, UndoLadder.Valid, ExactLp, Finite;
      var v := Clamped(r, lowbo[j], upbo[j]);
      if r.upper {
        RecordChange(upChange, upbo, j, v, up0, b0.up, done);
      } else {
        RecordChange(loChange, lowbo, j, v, lo0, b0.lo, done);
      }
    }

    lemma Untightened(j: nat, b0: Box, up0: seq<Frame>, lo0: seq<Frame>, done: seq<nat>)
      requires Tightened(b0, up0, lo0, done) && 1 <= j <= m.n && j !in done
      ensures lowbo[j] == Current().lo[j] == b0.lo[j] && upbo[j] == Current().up[j] == b0.up[j]
      ensures TopTracks(upChange, up0, upbo[..], b0.up, done + [j]) && TopTracks(loChange, lo0, lowbo[..], b0.lo, done + [j])
    {
    }

    lemma NotBefore(xs: seq<nat>, k: nat)
      requires k < |xs| && forall i, j :: 0 <= i < j < |xs| ==> xs[i] != xs[j]
      ensures xs[k] !in xs[..k]
    {
    }

    /** The reduced-cost tightening of `push_BB`, over the columns with a nonzero reduced cost. */
    method TightenBounds()
      requires Ready() && Sizes() && upChange.Valid() && loChange.Valid() && upChange.frames != [] && loChange.frames != []
      requires upChange.frames[|upChange.frames| - 1] == [] && loChange.frames[|loChange.frames| - 1] == []
      requires lpr.Solved? && IntegralBox(m, Current()) && Exact(m, Current(), lpr)
      modifies upbo, lowbo, upChange, loChange
      ensures Tightened(old(Current()), old(upChange.frames), old(loChange.frames), lpr.nzdrow)
      ensures Tight(old(Current()), lpr.nzdrow)
    {
      hide *;
      ghost var b0, up0, lo0 := Current(), upChange.frames, loChange.frames;
      NothingTightened([]);
      NothingTight(b0);
      NzdrowOk(m, b0, lpr);
      assert lpr.nzdrow[..0] == [];
      var k := 0;
      while k < |lpr.nzdrow|
        invariant 0 <= k <= |lpr.nzdrow|
        invariant Tightened(b0, up0, lo0, lpr.nzdrow[..k]) && Tight(b0, lpr.nzdrow[..k])
      {
        NotBefore(lpr.nzdrow, k);
        TightenColumn(lpr.nzdrow[k], b0, up0, lo0, lpr.nzdrow[..k]);
        assert lpr.nzdrow[..k] + [lpr.nzdrow[k]] == lpr.nzdrow[..k + 1];
        k := k + 1;
      }
      assert lpr.nzdrow[..k] == lpr.nzdrow;
    }

    lemma NothingTight(b0: Box)
      ensures Tight(b0, [])
    {
    }

    /** Columns that are not listed keep their bounds. */
    lemma Unlisted(b0: Box, up0: seq<Frame>, lo0: seq<Frame>, done: seq<nat>)
      requires Tightened(b0, up0, lo0, done)
      ensures forall j :: 0 <= j <= m.n && j !in done ==> upbo[j] == b0.up[j] && lowbo[j] == b0.lo[j]
    {
    }

    /** Open a frame in both ladders and tighten by reduced costs if the relaxation on top allows it. */
    method OpenFrames()
      requires Ready() && Sizes() && upChange.Valid() && loChange.Valid() && stack != []
      requires IntegralBox(m, Current()) && lpr.Solved? && Exact(m, Current(), lpr)
      modifies upbo, lowbo, upChange, loChange
      ensures Tightened(old(Current()), old(upChange.frames) + [[]], old(loChange.frames) + [[]], lpr.nzdrow)
      ensures stack[|stack| - 1].lastrcf == 0 ==> Current() == old(Current())
      ensures stack[|stack| - 1].lastrcf > 0 ==> Tight(old(Current()), lpr.nzdrow)
    {
      hide ExactLp, Finite, UndoLadder.Valid, CutsOnlyWorse, Tracked, IntegralBox, Tight;
      upChange.Increment();
      loChange.Increment();
      if stack[|stack| - 1].lastrcf > 0 {
        TightenBounds();
      } else {
        NothingTightened(lpr.nzdrow);
      }
    }

    lemma NothingTightened(done: seq<nat>)
      requires Sizes() && upChange.Valid() && loChange.Valid() && upChange.frames != [] && loChange.frames != []
      requires upChange.frames[|upChange.frames| - 1] == [] && loChange.frames[|loChange.frames| - 1] == []
      requires lpr.Solved? && IntegralBox(m, Current()) && Exact(m, Current(), lpr)
      ensures Tightened(Current(), upChange.frames, loChange.frames, done)
    {
    }

    /** Give the new node a clean frame of its own in a ladder that has recorded something. */
    method CleanFrame(ladder: UndoLadder, ghost fs: seq<Frame>, ghost k: nat, ghost cur: seq<real>, ghost orig: seq<real>,
                      ghost done: seq<nat>)
      returns (track: nat)
      requires TopTracks(ladder, fs + [[]], cur, orig, done) && k < |cur|
      modifies ladder
      ensures ladder.Valid() && Rung(ladder.frames, k, track, cur, orig) && ladder.frames[..|ladder.frames| - track] == fs
    {
      ghost var f := ladder.frames[|fs|];
      assert (fs + [[]])[..|fs|] == fs;
      assert ladder.frames == fs + [f];
      RungPush(fs, f, k, cur, orig);
      hide UndoLadder.Valid, Rung, Tracked;
      track := 1;
      var n := ladder.Counts();
      if n > 0 {
        ladder.Increment();
        track := 2;
      }
      assert ladder.frames == if f == [] then fs + [[]] else fs + [f, []];
    }

    /** The ladders for a new node on column `varno` over the tightened bounds. */
    method GrowLadders(ghost varno: nat) returns (ut: nat, lt: nat)
      requires Backtrackable() && AtBranch() && lpr.Solved? && Exact(m, Current(), lpr) && IntegralBox(m, Current())
      requires varno <= m.n
      modifies upbo, lowbo, upChange, loChange
      ensures upChange.Valid() && loChange.Valid() && CutsOnlyWorse(m, bestOF, old(Current()), Current())
      ensures forall j :: 0 <= j <= m.n && lpr.isBasic[j] ==> upbo[j] == old(upbo[j]) && lowbo[j] == old(lowbo[j])
      ensures stack[|stack| - 1].lastrcf == 0 ==> Current() == old(Current())
      ensures stack[|stack| - 1].lastrcf > 0 ==> Tight(old(Current()), lpr.nzdrow)
      ensures forall j :: 0 <= j <= m.n && j !in lpr.nzdrow ==> upbo[j] == old(upbo[j]) && lowbo[j] == old(lowbo[j])
      ensures Rung(upChange.frames, varno, ut, upbo[..], old(upbo[..])) && upChange.frames[..|upChange.frames| - ut] == old(upChange.frames)
      ensures Rung(loChange.frames, varno, lt, lowbo[..], old(lowbo[..])) && loChange.frames[..|loChange.frames| - lt] == old(loChange.frames)
    {
      hide UndoLadder.Valid, Rung, Tracked, ExactLp, Finite, Counted, BasesSaved, CutsOnlyWorse, ChainOk, Rungs, IntegralBox, Exact, Tight;
      ghost var b0, up0, lo0 := Current(), upChange.frames, loChange.frames;
      OpenFrames();
      Unlisted(b0, up0 + [[]], lo0 + [[]], lpr.nzdrow);
      ut := CleanFrame(upChange, up0, varno, upbo[..], b0.up, lpr.nzdrow);
      lt := CleanFrame(loChange, lo0, varno, lowbo[..], b0.lo, lpr.nzdrow);
    }

    /** Put the record `r` with the current bounds on the stack. */
    method StackNode(r: BBrec)
      requires Ready() && Sizes() && Nodes() && Counted() && BasesSaved() && stack != []
      requires NodeOk(m, Current(), r) && r.varno > 0 && r.nodesleft == 1 && SubBox(Current(), Outer(Root(m), stack, bases))
      requires upChange.Valid() && Rungs(upChange.frames, stack + [r], bases + [Current()], Root(m), true)
      requires loChange.Valid() && Rungs(loChange.frames, stack + [r], bases + [Current()], Root(m), false)
      modifies this`stack, this`bases, this`saved, this`bbBasis, this`totalnodes, varactive
      ensures Shape() && AtBase()
      ensures stack == old(stack) + [r] && bases == old(bases) + [Current()] && saved == old(saved) + [basis]
      ensures totalnodes == old(totalnodes) + 1
    {
      hide UndoLadder.Valid, ValidModel, ValidConfig, ExactLp, Finite, ChainOk, Rungs, Outer, Depth, NodeOk;
      NodeColumn(m, Current(), r);
      PushNode(m, stack, bases, r, Current());
      bbBasis := bbBasis + [basis];
      saved := saved + [basis];
      stack := stack + [r];
      bases := bases + [Current()];
      varactive[r.varno] := varactive[r.varno] + 1;
      totalnodes := totalnodes + 1;
    }

    /** `push_BB` with `initbranches_BB` and `fillbranches_BB`: a new node on top that branches on the
        fractional integer column `varno`, with its first branch chosen. */
    method PushBB(varno: nat)
      requires Backtrackable() && AtBranch() && lpr.Solved? && Exact(m, Current(), lpr)
      requires 1 <= varno <= m.n && m.isInt[varno] && !IsInt(lpr.x[varno])
      modifies this`stack, this`bases, this`saved, this`bbBasis, this`totalnodes, upbo, lowbo, varactive, upChange, loChange
      ensures Shape() && AtBase()
      ensures |stack| == |old(stack)| + 1 && stack[..|old(stack)|] == old(stack) && bases == old(bases) + [Current()]
      ensures var r := stack[|stack| - 1];
              && r.varno == varno && r.nodesleft == 1 && r.nodessolved == 0 && NodeOk(m, Current(), r)
      ensures CutsOnlyWorse(m, bestOF, old(Current()), Current())
      ensures old(stack)[|old(stack)| - 1].lastrcf == 0 ==> Current() == old(Current())
      ensures old(stack)[|old(stack)| - 1].lastrcf > 0 ==> Tight(old(Current()), lpr.nzdrow)
      ensures forall j :: 0 <= j <= m.n && j !in lpr.nzdrow ==> upbo[j] == old(upbo[j]) && lowbo[j] == old(lowbo[j])
      ensures saved == old(saved) + [basis]
    {
      hide UndoLadder.Valid, ExactLp, Finite, Counted, BasesSaved, ChainOk, Rungs, Rung, FillBranches, Outer, NodeOk, Undoable, Exact, IntegralBox, ValidModel, ValidConfig, CutsOnlyWorse, Tight;
      OuterInRoot(m, stack, bases);
      FractionalInside(varno);
      var ut, lt := GrowLadders(varno);
      CutsInside(m, bestOF, old(Current()), Current(), Root(m));
      var r := NewRecord(varno, ut, lt);
      RungsPush(upChange.frames, stack, bases, Root(m), true, r, Current());
      RungsPush(loChange.frames, stack, bases, Root(m), false, r, Current());
      StackNode(r);
    }

    lemma FractionalInside(varno: nat)
      requires Sizes() && IntegralBox(m, Current()) && lpr.Solved? && Exact(m, Current(), lpr)
      requires 1 <= varno <= m.n && m.isInt[varno] && !IsInt(lpr.x[varno])
      ensures |lpr.x| == |lpr.isBasic| == m.n + 1
      ensures lpr.isBasic[varno] && lowbo[varno] <= lpr.x[varno] <= upbo[varno]
    {
      FractionalIsBasic(m, Current(), lpr, varno);
      assert InBox(lpr.x, Current());
      assert Current().lo[varno] == lowbo[varno] && Current().up[varno] == upbo[varno];
    }

    /** `fillbranches_BB` for a fractional integer column, down to the choice of its first branch. Two
        branches are left, so `push_BB` never has to pop the new node again. */
    method NewRecord(varno: nat, ut: nat, lt: nat) returns (r: BBrec)
      requires ValidModel(m) && ValidConfig(cfg) && Sizes() && IntegralBox(m, Current()) && SubBox(Current(), Root(m))
      requires lpr.Solved? && |lpr.x| == m.n + 1 && 1 <= varno <= m.n && m.isInt[varno] && !IsInt(lpr.x[varno])
      requires lowbo[varno] <= lpr.x[varno] <= upbo[varno]
      ensures NodeOk(m, Current(), r) && r.varno == varno && r.nodesleft == 1 && r.nodessolved == 0
      ensures r.UBtrack == ut && r.LBtrack == lt
    {
      var floorFirst: bool := *;
      var f := FillBranches(lpr.x[varno], m.lower[varno], m.upper[varno], lowbo[varno], upbo[varno], cfg.margin, floorFirst);
      NewNode(m, Current(), varno, lpr.x[varno], cfg.margin, floorFirst, ut, lt);
      r := Advance(BBrec(varno, f.nodesleft, 0, !f.isfloor, f.upBound, f.loBound, ut, lt, 0));
    }

    /** `find_int_bbvar`: the fractional integer columns that are not about to be fixed by their reduced
        cost, the number of bounds reduced costs can tighten, and whether all of these are consistent. */
    method FindIntBBVar() returns (nonint: seq<nat>, rcf: nat, feasible: bool)
      requires ValidConfig(cfg) && Sizes() && lpr.Solved? && Exact(m, Current(), lpr) && IntegralBox(m, Current())
      ensures forall k :: k in nonint <==> 1 <= k <= m.n && m.isInt[k] && !IsInt(lpr.x[k])
      ensures nonint == [] ==> forall j :: 1 <= j <= m.n && m.isInt[j] ==> IsInt(lpr.x[j])
      ensures rcf > 0 <==> cfg.rcost && solutioncount > 0 && exists k :: 1 <= k <= m.n && Tightens(k)
      ensures !feasible <==> cfg.rcost && solutioncount > 0 && exists k :: 1 <= k <= m.n && Empties(k)
      ensures !feasible ==> m.objective(lpr.x) > bestOF
    {
      hide *;
      var rcostmode := solutioncount > 0 && cfg.rcost;
      nonint, rcf, feasible := ScanColumns(rcostmode);
      AllFound(nonint, rcf, feasible, rcostmode);
    }

    /** Its loop over the columns. */
    method ScanColumns(rcostmode: bool) returns (nonint: seq<nat>, rcf: nat, feasible: bool)
      requires ValidConfig(cfg) && Sizes() && lpr.Solved? && Exact(m, Current(), lpr) && IntegralBox(m, Current())
      ensures Found(m.n + 1, nonint, rcf, feasible, rcostmode)
    {
      hide *;
      nonint, rcf, feasible := [], 0, true;
      IntegerAtBounds();
      NothingFound(rcostmode);
      for k := 1 to m.n + 1
        invariant Found(k, nonint, rcf, feasible, rcostmode)
      {
        var candidate, tight, empty := TestColumn(k, rcostmode);
        FoundNext(k, nonint, rcf, feasible, rcostmode, candidate, tight, empty);
        if tight {
          rcf, feasible := rcf + 1, feasible && !empty;
        }
        if candidate {
          nonint := nonint + [k];
        }
      }
    }

    /** What is known after the columns before `k`. */
    ghost predicate Found(k: nat, nonint: seq<nat>, rcf: nat, feasible: bool, rcostmode: bool)
      reads `lpr, `bestOF, upbo, lowbo
    {
      && lpr.Solved? && |lpr.x| == |m.isInt| == m.n + 1 && k <= m.n + 1
      && (forall j :: j in nonint <==> 1 <= j < k && m.isInt[j] && !IsInt(lpr.x[j]))
      && (rcf > 0 <==> rcostmode && exists j :: 1 <= j < k && Tightens(j))
      && (!feasible <==> rcostmode && exists j :: 1 <= j < k && Empties(j))
      && (!feasible ==> m.objective(lpr.x) > bestOF)
    }

    lemma NothingFound(rcostmode: bool)
      requires lpr.Solved? && |lpr.x| == |m.isInt| == m.n + 1
      ensures Found(1, [], 0, true, rcostmode)
    {
    }

    lemma FoundNext(k: nat, nonint: seq<nat>, rcf: nat, feasible: bool, rcostmode: bool, candidate: bool, tight: bool, empty: bool)
      requires Found(k, nonint, rcf, feasible, rcostmode) && 1 <= k <= m.n && |lpr.x| == |m.isInt| == m.n + 1
      requires candidate <==> m.isInt[k] && !IsInt(lpr.x[k])
      requires (tight <==> rcostmode && Tightens(k)) && (empty <==> rcostmode && Empties(k))
      requires empty ==> tight && m.objective(lpr.x) > bestOF
      ensures Found(k + 1, if candidate then nonint + [k] else nonint, if tight then rcf + 1 else rcf,
                    if tight then feasible && !empty else feasible, rcostmode)
    {
      hide Tightens, Empties;
    }

    lemma AllFound(nonint: seq<nat>, rcf: nat, feasible: bool, rcostmode: bool)
      requires Found(m.n + 1, nonint, rcf, feasible, rcostmode)
      ensures lpr.Solved? && |lpr.x| == |m.isInt| == m.n + 1
      ensures forall k :: k in nonint <==> 1 <= k <= m.n && m.isInt[k] && !IsInt(lpr.x[k])
      ensures nonint == [] ==> forall j :: 1 <= j <= m.n && m.isInt[j] ==> IsInt(lpr.x[j])
      ensures rcf > 0 <==> rcostmode && exists k :: 1 <= k <= m.n && Tightens(k)
      ensures !feasible <==> rcostmode && exists k :: 1 <= k <= m.n && Empties(k)
      ensures !feasible ==> m.objective(lpr.x) > bestOF
    {
      hide Tightens, Empties;
      if nonint == [] {
        forall j | 1 <= j <= m.n && m.isInt[j] ensures IsInt(lpr.x[j]) {
          assert j !in nonint;
        }
      }
    }

    lemma IntegerAtBounds()
      requires Sizes() && lpr.Solved? && Exact(m, Current(), lpr) && IntegralBox(m, Current())
      ensures |lpr.x| == |m.isInt| == m.n + 1
    {
    }

    /** What the loop of `find_int_bbvar` finds out about one column. */
    method TestColumn(k: nat, rcostmode: bool) returns (candidate: bool, tight: bool, empty: bool)
      requires ValidConfig(cfg) && Sizes() && lpr.Solved? && Exact(m, Current(), lpr) && IntegralBox(m, Current()) && 1 <= k <= m.n
      requires |lpr.x| == |m.isInt| == m.n + 1
      ensures candidate <==> m.isInt[k] && !IsInt(lpr.x[k])
      ensures tight <==> rcostmode && Tightens(k)
      ensures empty <==> rcostmode && Empties(k)
      ensures empty ==> tight && m.objective(lpr.x) > bestOF
    {
      var lo, up := lowbo[k], upbo[k];
      IntegerAtBound(k);
      RcfHere(k);
      hide Exact, IntegralBox, ValidConfig, ColumnRcf;
      candidate, tight, empty := false, false, false;
      if !m.isInt[k] || lo != up {
        var fixes := false;
        if rcostmode {
          var r := ColumnRcf(m, cfg, lpr, k, lo, up, bestOF);
          if r.Tighten? {
            tight, fixes, empty := true, r.fixes, !r.feasible;
          }
        }
        candidate := m.isInt[k] && !IsInt(lpr.x[k]) && !fixes;
      }
    }

    /** The reduced cost of column `k` gives it a new bound, unless it is an integer column that is fixed. */
    ghost predicate Tightens(k: nat)
      reads `lpr, `bestOF, upbo, lowbo
    {
      && lpr.Solved? && |m.isInt| == |lpr.isBasic| == |lpr.isLower| == |lpr.drow| == m.n + 1 && cfg.epspivot > 0.0
      && 1 <= k <= m.n && k < lowbo.Length && k < upbo.Length && (!m.isInt[k] || lowbo[k] != upbo[k])
      && ColumnRcf(m, cfg, lpr, k, lowbo[k], upbo[k], bestOF).Tighten?
    }

    /** ... and the new bound leaves nothing of its range. */
    ghost predicate Empties(k: nat)
      reads `lpr, `bestOF, upbo, lowbo
    {
      Tightens(k) && !ColumnRcf(m, cfg, lpr, k, lowbo[k], upbo[k], bestOF).feasible
    }

    lemma RcfHere(k: nat)
      requires ValidConfig(cfg) && Sizes() && lpr.Solved? && Exact(m, Current(), lpr) && IntegralBox(m, Current()) && 1 <= k <= m.n
      ensures |m.isInt| == |lpr.isBasic| == |lpr.isLower| == |lpr.drow| == m.n + 1 && cfg.epspivot > 0.0
      ensures lpr.isBasic[k] ==> !Tightens(k)
      ensures Empties(k) ==> m.objective(lpr.x) > bestOF
    {
      hide Exact;
      IntegerAtBound(k);
      if m.objective(lpr.x) <= bestOF {
        RcfFeasible(lpr.isBasic[k], lpr.isLower[k], m.isInt[k], lpr.drow[k], lowbo[k], upbo[k], bestOF - m.objective(lpr.x),
                    cfg.tol, cfg.epsint, cfg.epspivot);
      }
    }

    /** An integer column that is fixed or nonbasic has an integer value. */
    lemma IntegerAtBound(k: nat)
      requires Sizes() && lpr.Solved? && Exact(m, Current(), lpr) && IntegralBox(m, Current()) && 1 <= k <= m.n
      ensures |lpr.x| == |lpr.isBasic| == |lpr.isLower| == |lpr.drow| == m.n + 1
      ensures m.isInt[k] && (lowbo[k] == upbo[k] || !lpr.isBasic[k]) ==> IsInt(lpr.x[k])
    {
      var b := Current();
      assert b.lo[k] == lowbo[k] && b.up[k] == upbo[k];
      assert InBox(lpr.x, b);
    }

    /** Store the relaxation just solved as the incumbent (`transfer_solution`). */
    method StoreSolution()
      requires lpr.Solved?
      modifies this`solutioncount, this`accepted, this`bestOF, this`bestX
      ensures solutioncount == 1 && accepted == old(accepted) + 1 && bestX == lpr.x && bestOF == m.objective(lpr.x)
    {
      solutioncount, accepted, bestX, bestOF := 1, accepted + 1, lpr.x, m.objective(lpr.x);
    }

    /** The level limits of `findnode_BB`. */
    predicate LevelCut(level: nat) {
      || (cfg.limitLevel > 0 && level > cfg.limitLevel)
      || (cfg.limitLevel < 0 && level > 2 * intVars * -cfg.limitLevel)
    }

    /** The stack `s` is higher than the level limit, if there is one (0 stands for none). */
    ghost predicate TooHigh(s: seq<BBrec>) {
      || (cfg.limitLevel > 0 && |s| > cfg.limitLevel)
      || (cfg.limitLevel < 0 && |s| > 2 * intVars * -cfg.limitLevel)
    }

    /** Some integer column has been branched on at least 50 times on the stack `s`. */
    ghost predicate TooOften(s: seq<BBrec>) {
      exists k :: 1 <= k <= m.n && k < |m.isInt| && m.isInt[k] && Depth(s, k) >= 50
    }

    /** What it takes for the search to give up a part of the tree. */
    ghost predicate MayCut(s: seq<BBrec>) {
      TooHigh(s) || TooOften(s)
    }

    /** A part has been given up only at a stack that is too high or branches on a column too often, or because
        just the first level is wanted. */
    ghost predicate Explained()
      reads `curtailed, `history
    {
      curtailed ==> (cfg.limitLevel == 1 && intVars > 0) || CutIn(history)
    }

    ghost predicate CutIn(h: seq<seq<BBrec>>) {
      exists i :: 0 <= i < |h| && MayCut(h[i])
    }

    /** One more relaxation and what was done with it. */
    lemma StillExplained(before: bool, h: seq<seq<BBrec>>, s: seq<BBrec>)
      requires history == h + [s]
      requires before ==> (cfg.limitLevel == 1 && intVars > 0) || CutIn(h)
      requires curtailed && !before ==> (cfg.limitLevel == 1 && intVars > 0) || MayCut(s)
      ensures Explained()
    {
      assert forall i :: 0 <= i < |h| ==> history[i] == h[i];
      assert history[|h|] == s;
    }

    /** Default limits and no integer range wider than they allow for. */
    ghost predicate WithinLimits() {
      cfg.limitLevel == DEF_BB_LIMITLEVEL && Narrow(m, -DEF_BB_LIMITLEVEL)
    }

    lemma LevelNeverCut()
      requires Ready() && Nodes() && WithinLimits() && intVars > 0
      ensures !LevelCut(|stack|)
    {
      StackHeight(m, stack, bases, 50);
    }

    /** `findnode_BB` for a relaxation without integer columns, or when only the first level is wanted. */
    method AcceptRelaxation()
      requires Shape() && Results() && StillCovered() && AtBranch() && lpr.Solved? && Exact(m, Current(), lpr) && RootBound()
      requires cfg.limitLevel == 1 || intVars == 0
      modifies this`solutioncount, this`accepted, this`bestOF, this`bestX, this`curtailed
      ensures curtailed == (old(curtailed) || intVars > 0)
      ensures accepted == old(accepted) + 1
      ensures Results() && RestCovered() && (old(curtailed) ==> curtailed) && (WithinLimits() ==> curtailed == old(curtailed))
    {
      hide UndoLadder.Valid, ValidModel, ValidConfig, ExactLp, Laddered, Counted, BasesSaved, Exact, InBox, ChainOk;
      RootObjective(m, cfg, stack, bases, lpr);
      StoreSolution();
      if intVars > 0 {
        curtailed := true;
      } else {
        WithoutIntegers();
        RootCovers(m, cfg, accepted, stack, bases, lpr);
      }
    }

    lemma WithoutIntegers()
      requires Ready() && Nodes() && AtBranch() && intVars == 0
      ensures Current() == Root(m)
      ensures forall y :: InBox(y, Root(m)) && m.feasible(y) && |y| == m.n + 1 ==> IntPoint(m, y)
    {
      if exists j :: 1 <= j <= m.n && m.isInt[j] {
        var j :| 1 <= j <= m.n && m.isInt[j];
        SomeInteger(m, m.n, j);
      }
    }

    /** `findnode_BB`: decide what to do with the relaxation of the top node's active branch. Returns an
        integer column to branch on, or `branch == false` if the relaxation was abandoned or accepted. */
    method FindNode() returns (branch: bool, varno: nat)
      requires Backtrackable() && Results() && StillCovered() && AtBranch()
      requires lpr.Solved? && Exact(m, Current(), lpr) && RootBound()
      modifies this`stack, this`solutioncount, this`accepted, this`bestOF, this`bestX, this`curtailed
      ensures Backtrackable() && Results() && AtBranch()
      ensures var l := |old(stack)| - 1; |stack| == l + 1 && stack == old(stack)[l := old(stack)[l].(lastrcf := stack[l].lastrcf)]
      ensures branch ==> StillCovered() && CanBranch(varno)
      ensures !branch ==> RestCovered()
      ensures (old(curtailed) ==> curtailed) && (WithinLimits() ==> curtailed == old(curtailed)) && accepted <= old(accepted) + 1
      ensures branch ==> cfg.limitLevel != 1 && !TooHigh(stack) && Depth(stack, varno) < 50
      ensures curtailed && !old(curtailed) ==> (cfg.limitLevel == 1 && intVars > 0) || MayCut(old(stack))
    {
      hide Shape, TopUndoable, AtBase, AtBranch, Results, StillCovered, RestCovered, RootBound, Exact, WithinLimits, CanBranch, TooOften, Depth;
      branch, varno := false, 0;
      if cfg.limitLevel == 1 || intVars == 0 {
        AcceptRelaxation();
      } else {
        var cut := LevelCut(|stack|);
        CutLevel(cut);
        if !cut {
          AccuracyHolds();
          var accurate := totalnodes == 0 || BbBetter(cfg.gaps, false, Relaxed, WE, false, false, m.objective(lpr.x), realSolution);
          assert accurate;
          var abandoned := Abandoned(cfg, solutioncount, bestOF, m.objective(lpr.x));
          if abandoned {
            AbandonRelaxation();
          } else {
            branch, varno := SelectBranch();
          }
        }
      }
    }

    /** The test against a loss of accuracy passes: no relaxation is better than that of the root. */
    lemma AccuracyHolds()
      requires Shape() && stack != [] && AtBranch() && lpr.Solved? && Exact(m, Current(), lpr) && RootBound()
      ensures BbBetter(cfg.gaps, false, Relaxed, WE, false, false, m.objective(lpr.x), realSolution)
    {
      hide UndoLadder.Valid, ExactLp, Laddered, Counted, BasesSaved, ChainOk, Exact, Outer, BbBetter, InBox;
      RootObjective(m, cfg, stack, bases, lpr);
      RelaxedPasses(cfg.gaps, m.objective(lpr.x), realSolution);
    }

    /** A node is given up because of its level: never within the default limits. */
    method CutLevel(cut: bool)
      requires Shape() && cut == LevelCut(|stack|) && intVars > 0
      modifies this`curtailed
      ensures curtailed == (old(curtailed) || cut)
      ensures old(StillCovered()) ==> StillCovered()
      ensures cut ==> RestCovered()
      ensures old(Results()) ==> Results()
      ensures WithinLimits() ==> curtailed == old(curtailed)
    {
      if cut && WithinLimits() {
        LevelNeverCut();
      }
      curtailed := curtailed || cut;
    }

    lemma AbandonRelaxation()
      requires Shape() && Results() && StillCovered() && AtBranch() && lpr.Solved? && Exact(m, Current(), lpr)
      requires Abandoned(cfg, solutioncount, bestOF, m.objective(lpr.x))
      ensures RestCovered()
    {
      hide UndoLadder.Valid, ValidModel, ValidConfig, ExactLp, Laddered, Counted, BasesSaved, ChainOk, Exact, Outer, OpenIn;
      NotAbandoned(cfg, solutioncount, accepted, bestOF, m.objective(lpr.x));
      if !curtailed {
        PruneCovers(m, cfg, accepted, bestOF, stack, bases, Current(), lpr);
      }
    }

    /** What `push_BB` is called with. */
    ghost predicate CanBranch(varno: nat)
      reads `stack, `accepted, `lpr
    {
      && lpr.Solved? && stack != [] && 1 <= varno <= m.n && varno < |m.isInt| && varno < |lpr.x|
      && m.isInt[varno] && !IsInt(lpr.x[varno])
      && (stack[|stack| - 1].lastrcf > 0 ==> accepted > 0)
    }

    /** The part of `findnode_BB` after the relaxation has passed the objective tests: branch on a
        fractional column, unless it has been branched on too often, or accept the relaxation. */
    method SelectBranch() returns (branch: bool, varno: nat)
      requires Backtrackable() && Results() && StillCovered() && AtBranch()
      requires lpr.Solved? && Exact(m, Current(), lpr) && RootBound()
      requires !Abandoned(cfg, solutioncount, bestOF, m.objective(lpr.x))
      modifies this`stack, this`solutioncount, this`accepted, this`bestOF, this`bestX, this`curtailed
      ensures Backtrackable() && Results() && AtBranch()
      ensures var l := |old(stack)| - 1; |stack| == l + 1 && stack == old(stack)[l := old(stack)[l].(lastrcf := stack[l].lastrcf)]
      ensures branch ==> StillCovered() && CanBranch(varno)
      ensures !branch ==> RestCovered()
      ensures (old(curtailed) ==> curtailed) && (WithinLimits() ==> curtailed == old(curtailed)) && accepted <= old(accepted) + 1
      ensures branch ==> Depth(stack, varno) < 50
      ensures curtailed && !old(curtailed) ==>
                !branch && 1 <= varno <= m.n && varno < |m.isInt| && varno < |lpr.x| && m.isInt[varno] && !IsInt(lpr.x[varno])
                && Depth(stack, varno) >= 50
      ensures curtailed && !old(curtailed) ==> TooOften(old(stack))
      ensures |lpr.x| == |m.isInt| == m.n + 1
      ensures accepted == old(accepted) + 1 <==> forall j :: 1 <= j <= m.n && m.isInt[j] ==> IsInt(lpr.x[j])
      ensures !branch && accepted == old(accepted) ==> (1 <= varno <= m.n && Depth(stack, varno) >= 50) || m.objective(lpr.x) > bestOF
    {
      hide *;
      BacktrackParts();
      BranchIntegral();
      varno := 0;
      var nonint, rcf, feasible := FindIntBBVar();
      UpdateTop(stack[|stack| - 1].nodessolved, rcf);
      SameCounts();
      branch := nonint != [];
      if |nonint| == 1 && !feasible {
        UpdateTop(stack[|stack| - 1].nodessolved, 0);
        branch := false;
        DropWorse();
      } else if branch {
        assert nonint[0] in nonint;
        varno :| varno in nonint;
        branch := CutColumn(varno);
        SameDepth(stack, old(stack), varno);
      } else {
        AcceptLeaf();
      }
      BacktrackIs();
      if branch {
        CanBranchIs(varno);
      }
    }

    lemma BacktrackParts()
      requires Backtrackable()
      ensures Shape() && Ready() && Sizes() && ValidConfig(cfg) && stack != [] && TopUndoable() && (stack[|stack| - 1].nodessolved == 0 ==> AtBase())
    {
      hide ValidModel, ValidConfig, ExactLp, Finite, Nodes, Laddered, Counted, BasesSaved, TopUndoable, AtBase;
    }

    lemma BacktrackIs()
      requires Shape() && stack != [] && TopUndoable() && (stack[|stack| - 1].nodessolved == 0 ==> AtBase())
      ensures Backtrackable()
    {
    }

    lemma CanBranchIs(varno: nat)
      requires lpr.Solved? && stack != [] && 1 <= varno <= m.n && varno < |m.isInt| && varno < |lpr.x|
      requires m.isInt[varno] && !IsInt(lpr.x[varno]) && (stack[|stack| - 1].lastrcf > 0 ==> accepted > 0)
      ensures CanBranch(varno)
    {
    }

    /** Counters in the records do not affect how often a column is branched on. */
    lemma SameDepth(s: seq<BBrec>, s0: seq<BBrec>, k: nat)
      requires s0 != [] && |s| == |s0| && s[..|s| - 1] == s0[..|s| - 1] && s[|s| - 1].varno == s0[|s| - 1].varno
      ensures Depth(s, k) == Depth(s0, k)
      ensures 1 <= k <= m.n && k < |m.isInt| && m.isInt[k] && Depth(s0, k) >= 50 ==> TooOften(s0)
    {
    }

    lemma SameCounts()
      requires Results()
      ensures solutioncount == 0 <==> accepted == 0
    {
    }

    /** Reduced costs show an inconsistency only when the relaxation is worse than the incumbent, and then
        there is nothing to lose. */
    lemma DropWorse()
      requires Shape() && Results() && StillCovered() && AtBranch() && lpr.Solved? && Exact(m, Current(), lpr)
      requires solutioncount > 0 && m.objective(lpr.x) > bestOF
      ensures RestCovered()
    {
      hide UndoLadder.Valid, ValidModel, ValidConfig, ExactLp, Laddered, Counted, BasesSaved, ChainOk, Exact, Outer, OpenIn, Settled;
      WorseIsSettled(cfg, accepted, bestOF, m.objective(lpr.x));
      if !curtailed {
        PruneCovers(m, cfg, accepted, bestOF, stack, bases, Current(), lpr);
      }
    }

    lemma BranchIntegral()
      requires Shape() && AtBranch() && lpr.Solved? && Exact(m, Current(), lpr)
      ensures IntegralBox(m, Current()) && |lpr.x| == |m.isInt| == m.n + 1
    {
      hide UndoLadder.Valid, ExactLp, Finite, Laddered, Counted, BasesSaved, ChainOk, Abandoned;
      OuterInRoot(m, stack, bases);
    }

    /** A node is given up because its column has been branched on too often: never within the default limits. */
    method CutColumn(varno: nat) returns (branch: bool)
      requires Shape() && AtBranch() && StillCovered() && lpr.Solved? && Exact(m, Current(), lpr)
      requires 1 <= varno <= m.n && |lpr.x| == |m.isInt| == m.n + 1 && m.isInt[varno] && !IsInt(lpr.x[varno])
      modifies this`curtailed
      ensures curtailed == (old(curtailed) || !branch)
      ensures branch <==> Depth(stack, varno) < 50
      ensures old(Results()) ==> Results()
      ensures StillCovered() && (!branch ==> RestCovered())
      ensures WithinLimits() ==> curtailed == old(curtailed)
    {
      hide UndoLadder.Valid, ValidModel, ValidConfig, ExactLp, Finite, Laddered, ChainOk, BasesSaved, Depth, Outer;
      branch := varactive[varno] < -DEF_BB_LIMITLEVEL;
      if WithinLimits() {
        assert InBox(lpr.x, Current());
        ColumnDepth(m, stack, bases, varno, lpr.x[varno], 50);
      }
      curtailed := curtailed || !branch;
    }

    /** An integer relaxation that was not abandoned always passes the final test for an improvement,
        so the code's third outcome, an equally good solution, does not occur. */
    method AcceptLeaf()
      requires Shape() && Results() && StillCovered() && AtBranch() && lpr.Solved? && Exact(m, Current(), lpr) && RootBound()
      requires !Abandoned(cfg, solutioncount, bestOF, m.objective(lpr.x))
      requires forall j :: 1 <= j <= m.n && m.isInt[j] ==> IsInt(lpr.x[j])
      modifies this`solutioncount, this`accepted, this`bestOF, this`bestX
      ensures Results() && RestCovered() && accepted == old(accepted) + 1
    {
      hide UndoLadder.Valid, ValidModel, ValidConfig, ExactLp, Finite, Laddered, Counted, BasesSaved, ChainOk, Exact, Outer, OpenIn, BbBetter, Settled, InBox;
      var z := m.objective(lpr.x);
      LeafTests();
      var isBetter := solutioncount == 0 || BbBetter(cfg.gaps, false, Incumbent, BT, false, true, z, bestOF);
      isBetter := isBetter && BbBetter(cfg.gaps, false, Incumbent, BT, true, true, z, bestOF);
      assert isBetter;
      StoreSolution();
    }

    lemma LeafTests()
      requires Shape() && Results() && StillCovered() && AtBranch() && lpr.Solved? && Exact(m, Current(), lpr)
      requires !Abandoned(cfg, solutioncount, bestOF, m.objective(lpr.x))
      requires forall j :: 1 <= j <= m.n && j < |lpr.x| && m.isInt[j] ==> IsInt(lpr.x[j])
      ensures var z := m.objective(lpr.x);
              && (solutioncount == 0 || BbBetter(cfg.gaps, false, Incumbent, BT, false, true, z, bestOF))
              && BbBetter(cfg.gaps, false, Incumbent, BT, true, true, z, bestOF)
              && z < INFINITE && IntPoint(m, lpr.x)
              && (curtailed || CoveredByOpen(m, cfg, accepted + 1, z, stack, bases))
    {
      hide UndoLadder.Valid, ValidConfig, ExactLp, Laddered, Counted, BasesSaved, ChainOk, Exact, Outer, OpenIn, BbBetter, Settled;
      RootObjective(m, cfg, stack, bases, lpr);
      NotAbandoned(cfg, solutioncount, accepted, bestOF, m.objective(lpr.x));
      LeafIsBetter(cfg, solutioncount, bestOF, m.objective(lpr.x));
      if !curtailed {
        LeafCovers(m, cfg, accepted, bestOF, stack, bases, Current(), lpr);
      }
    }

    /** Relaxations that may still have to be solved. */
    ghost function Left(): nat
      requires Ready() && Nodes()
      reads `stack, `bases
    {
      Work(m, stack, bases)
    }

    /** The inner loop of `run_BB`: go back to the nearest node with a branch left and start that branch. */
    method Backtrack()
      requires Backtrackable() && Results() && RestCovered()
      modifies this`stack, this`bases, this`saved, this`bbBasis, this`totalnodes, upbo, lowbo, varactive, upChange, loChange
      ensures Shape() && Results()
      ensures if stack == [] then RestCovered() && Current() == Root(m) else AtBase() && StillCovered()
      ensures Left() <= old(Remaining(m, stack, bases))
    {
      hide Laddered, Counted, BasesSaved, TopUndoable, AtBase, Ready, UndoLadder.Valid;
      var ok := false;
      while stack != [] && !ok
        invariant Shape() && Results()
        invariant !ok ==> RestCovered() && (if stack == [] then Current() == Root(m) else Backtrackable())
        invariant ok ==> stack != [] && AtBase() && StillCovered()
        invariant Left() <= old(Remaining(m, stack, bases)) || !ok
        invariant !ok ==> Remaining(m, stack, bases) <= old(Remaining(m, stack, bases))
        decreases |stack|, !ok
      {
        ok := NextOrPop();
      }
    }

    /** One step of that loop. */
    method NextOrPop() returns (ok: bool)
      requires Backtrackable() && Results() && RestCovered()
      modifies this`stack, this`bases, this`saved, this`bbBasis, this`totalnodes, upbo, lowbo, varactive, upChange, loChange
      ensures Shape() && Results()
      ensures ok ==> stack != [] && AtBase() && StillCovered() && Left() <= old(Remaining(m, stack, bases)) && |stack| == |old(stack)|
      ensures !ok ==> RestCovered() && (if stack == [] then Current() == Root(m) else Backtrackable())
      ensures !ok ==> |stack| == |old(stack)| - 1 && Remaining(m, stack, bases) == old(Remaining(m, stack, bases))
    {
      hide UndoLadder.Valid, ValidModel, ValidConfig, ExactLp, Finite, Laddered, Counted, BasesSaved, TopUndoable, AtBase,
        ChainOk, Work, Remaining, Covered, CoveredByOpen, Outer, Advance, RootBound, IntPoint;
      AdvanceEffect();
      ok := NextBranch();
      if !ok {
        PopBB();
      }
    }

    lemma AdvanceEffect()
      requires Shape() && stack != [] && RestCovered()
      ensures var l := |stack| - 1;
              && (stack[l].nodesleft > 0 ==>
                    var s := stack[l := Advance(stack[l])];
                    && ChainOk(m, s, bases) && Work(m, s, bases) <= Remaining(m, stack, bases)
                    && (curtailed || Covered(m, cfg, accepted, bestOF, s, bases, Outer(Root(m), s, bases))))
              && (stack[l].nodesleft <= 0 ==>
                    && ChainOk(m, stack[..l], bases[..l]) && Remaining(m, stack[..l], bases[..l]) == Remaining(m, stack, bases)
                    && (curtailed || CoveredByOpen(m, cfg, accepted, bestOF, stack[..l], bases[..l])))
    {
      hide Laddered, Counted, BasesSaved, UndoLadder.Valid;
      var l := |stack| - 1;
      if stack[l].nodesleft > 0 {
        AdvanceWork(m, stack, bases);
        if !curtailed {
          AdvanceCovers(m, cfg, accepted, bestOF, stack, bases);
        }
      } else if !curtailed {
        PopNode(m, cfg, accepted, bestOF, stack, bases);
      }
    }

    /** The state between two relaxations: the shared bounds are those of the node on top, and nothing
        has been lost; with no node left, the bounds are the model's own again. */
    ghost predicate Between()
      reads this, upbo, lowbo, varactive, upChange, loChange
    {
      && Shape() && Results()
      && (if stack == [] then RestCovered() && Current() == Root(m) else AtBase() && StillCovered())
    }

    /** One pass of the loop of `run_BB`. */
    method Step()
      requires Between() && stack != []
      modifies this`stack, this`bases, this`saved, this`bbBasis, this`totalnodes, this`lpr, this`calls, this`history, this`basis,
        this`startBasis, this`realSolution, this`solutioncount, this`accepted, this`bestOF, this`bestX, this`curtailed,
        upbo, lowbo, varactive, upChange, loChange
      ensures Between() && calls == old(calls) + 1 && accepted <= old(accepted) + 1
      ensures |history| == |old(history)| + 1 && history[..|old(history)|] == old(history)
      ensures old(Explained()) ==> Explained()
      ensures Left() < old(Left())
      ensures WithinLimits() ==> curtailed == old(curtailed)
    {
      hide *;
      NodeParts();
      ghost var s0 := stack;
      var branch, varno := SolveNode();
      BacktrackParts();
      SameWork(s0);
      if branch {
        Branch(varno);
      } else {
        Backtrack();
        BackBetween();
      }
      BetweenParts();
    }

    lemma NodeParts()
      requires Between() && stack != []
      ensures Shape() && Results() && AtBase() && StillCovered() && Ready() && Nodes() && ChainOk(m, stack, bases) && |stack| == |bases|
      ensures Left() == Work(m, stack, bases)
    {
    }

    lemma BackBetween()
      requires Shape() && Results() && if stack == [] then RestCovered() && Current() == Root(m) else AtBase() && StillCovered()
      ensures Between()
    {
    }

    /** Solve the relaxation of the top node's active branch and decide what to do with it. */
    method SolveNode() returns (branch: bool, varno: nat)
      requires Shape() && Results() && AtBase() && StillCovered() && stack != []
      modifies this`stack, this`lpr, this`calls, this`history, this`basis,
        this`startBasis, this`realSolution, this`solutioncount, this`accepted, this`bestOF, this`bestX, this`curtailed,
        upbo, lowbo, upChange, loChange
      ensures Backtrackable() && Results()
      ensures branch ==> StillCovered() && AtBranch() && CanBranch(varno) && RootBound() && Exact(m, Current(), lpr)
      ensures !branch ==> RestCovered()
      ensures |stack| == |old(stack)|
      ensures stack == var l := |old(stack)| - 1;
                       old(stack)[l := old(stack)[l].(nodessolved := stack[l].nodessolved, lastrcf := stack[l].lastrcf)]
      ensures calls == old(calls) + 1 && accepted <= old(accepted) + 1
      ensures |history| == |old(history)| + 1 && history[..|old(history)|] == old(history)
      ensures old(Explained()) ==> Explained()
      ensures WithinLimits() ==> curtailed == old(curtailed)
    {
      hide *;
      ghost var h0, c0 := history, curtailed;
      ghost var explained := Explained();
      ExplainedParts();
      SolveBB();
      BacktrackParts();
      ghost var s1 := stack;
      branch, varno := false, 0;
      if lpr.Solved? {
        BranchBox();
        branch, varno := FindNode();
        BacktrackParts();
      } else {
        InfeasibleCovered();
      }
      if explained {
        StillExplained(c0, h0, s1);
      }
    }

    lemma ExplainedParts()
      ensures Explained() <==> (curtailed ==> (cfg.limitLevel == 1 && intVars > 0) || CutIn(history))
    {
    }

    lemma BranchBox()
      requires Shape() && AtBranch() && stack != []
      ensures |stack| == |bases| && Current() == Outer(Root(m), stack, bases)
    {
    }

    /** Counters in the top record do not affect the work left. */
    lemma SameWork(s0: seq<BBrec>)
      requires Shape() && stack != [] && |s0| == |stack| && ChainOk(m, s0, bases)
      requires stack == var l := |s0| - 1; s0[l := s0[l].(nodessolved := stack[l].nodessolved, lastrcf := stack[l].lastrcf)]
      ensures Left() == Work(m, s0, bases) && Remaining(m, stack, bases) < Left()
    {
      SameNode(m, s0, bases, stack[|stack| - 1]);
    }

    /** An infeasible relaxation leaves only the branches not started yet. */
    lemma InfeasibleCovered()
      requires Shape() && StillCovered() && lpr.Infeasible? && Exact(m, Outer(Root(m), stack, bases), lpr)
      ensures RestCovered()
    {
      hide UndoLadder.Valid, ValidModel, ValidConfig, ExactLp, Laddered, Counted, BasesSaved, ChainOk, Exact, Outer, OpenIn;
      if !curtailed {
        PruneCovers(m, cfg, accepted, bestOF, stack, bases, Outer(Root(m), stack, bases), lpr);
      }
    }

    method Branch(varno: nat)
      requires Backtrackable() && Results() && StillCovered() && AtBranch() && CanBranch(varno) && RootBound()
      requires Exact(m, Current(), lpr)
      modifies this`stack, this`bases, this`saved, this`bbBasis, this`totalnodes, upbo, lowbo, varactive, upChange, loChange
      ensures Between() && stack != [] && Left() < old(Left())
    {
      hide UndoLadder.Valid, ValidModel, ValidConfig, ExactLp, Finite, Laddered, Counted, BasesSaved, TopUndoable,
        RootBound, Exact, Remaining, Work, Outer, IntPoint, ChainOk, CutsOnlyWorse, NodeOk, Covered;
      ghost var s0, b0, c0 := stack, bases, Current();
      PushBB(varno);
      assert stack == s0 + [stack[|s0|]];
      BranchEffect(s0, b0, c0);
    }

    lemma BranchEffect(s0: seq<BBrec>, b0: seq<Box>, c0: Box)
      requires ValidModel(m) && ValidConfig(cfg) && ChainOk(m, s0, b0) && |s0| == |b0| > 0 && |stack| == |s0| + 1
      requires stack == s0 + [stack[|s0|]] && bases == b0 + [Current()] && c0 == Outer(Root(m), s0, b0)
      requires var r := stack[|s0|]; r.varno > 0 && r.nodesleft == 1 && NodeOk(m, Current(), r)
      requires CutsOnlyWorse(m, bestOF, c0, Current()) && (Current() == c0 || accepted > 0)
      requires curtailed || Covered(m, cfg, accepted, bestOF, s0, b0, c0)
      ensures ChainOk(m, stack, bases) && Work(m, stack, bases) < Work(m, s0, b0)
      ensures StillCovered()
    {
      var r, b := stack[|s0|], Current();
      PushNode(m, s0, b0, r, b);
      if !curtailed {
        PushCovers(m, cfg, accepted, bestOF, s0, b0, c0, r, b);
      }
    }

    /** `run_BB`. If no depth limit cut anything off, no integer point of the model improves on the stored
        incumbent, except by what its replacements have drifted upward: at most the excess of the tolerance
        over the improvement step for each. Without an incumbent no integer point passes the heuristic limit.
        The bounds end as they began, and the number of relaxations is bounded by the size of the integer box. */
    method RunBB()
      requires AtStart()
      modifies this`stack, this`bases, this`saved, this`bbBasis, this`totalnodes, this`lpr, this`calls, this`history, this`basis,
        this`startBasis, this`realSolution, this`solutioncount, this`accepted, this`bestOF, this`bestX, this`curtailed,
        upbo, lowbo, varactive, upChange, loChange
      ensures Shape() && Results() && stack == [] && Current() == Root(m)
      ensures solutioncount == 0 <==> accepted == 0
      ensures accepted <= calls
      ensures solutioncount > 0 && !curtailed ==>
                forall y :: IntPoint(m, y) ==>
                  !Improves(cfg.gaps, m.objective(y), bestOF) || m.objective(y) >= bestOF - (accepted - 1) as real * Drift(cfg.gaps)
      ensures solutioncount > 0 && !curtailed && cfg.gaps.offset <= AbsStep(cfg.gaps) ==>
                forall y :: IntPoint(m, y) ==> !Improves(cfg.gaps, m.objective(y), bestOF)
      ensures solutioncount > 0 && !curtailed ==> IntPoint(m, bestX) && bestOF == m.objective(bestX)
      ensures solutioncount > 0 && !curtailed ==>
                var g := cfg.gaps;
                forall y :: IntPoint(m, y) ==>
                  m.objective(y) >= bestOF - Max(Max(g.deltaOF, Max(g.absgap, g.relgap)),
                                                 Steps(accepted - 1, Max(0.0, g.offset - Max(g.absgap, g.deltaOF - g.absgap))))
      ensures solutioncount > 0 && !curtailed ==>
                var g := cfg.gaps;
                OnGrid(m, g.deltaOF) && g.absgap < g.deltaOF && g.relgap < g.deltaOF && 0.0 < g.offset + g.relgap
                && Steps(accepted - 1, Max(0.0, g.offset - Max(g.absgap, g.deltaOF - g.absgap))) < g.deltaOF ==>
                  forall y :: IntPoint(m, y) ==> m.objective(y) >= bestOF
      ensures solutioncount == 0 && !curtailed ==>
                forall y :: IntPoint(m, y) ==> m.objective(y) >= cfg.heuristicOF + cfg.gaps.absgap + cfg.gaps.offset
      ensures solutioncount == 0 && !curtailed && cfg.heuristicOF >= INFINITE ==> forall y :: !IntPoint(m, y)
      ensures WithinLimits() ==> !curtailed
      ensures |history| == calls
      ensures curtailed ==> (cfg.limitLevel == 1 && intVars > 0) || exists i :: 0 <= i < |history| && MayCut(history[i])
      ensures calls <= Pow2(TotalWidth(m, Root(m)) + 1) - 1
    {
      hide *;
      StartIs();
      PushRoot();
      RootWork();
      BetweenIs();
      BetweenParts();
      ghost var total := Tree(TotalWidth(m, Root(m)));
      while stack != []
        invariant Between() && Ready() && Nodes()
        invariant calls + Left() <= total && accepted <= calls
        invariant WithinLimits() ==> !curtailed
        invariant |history| == calls && Explained()
        decreases Left()
      {
        Step();
        BetweenParts();
      }
      TreeIsPow2(TotalWidth(m, Root(m)));
      Ended();
      if !curtailed {
        Finished();
        if accepted > 0 {
          NearOptimal();
        }
      }
      ExplainedIs();
    }

    lemma StartIs()
      requires AtStart()
      ensures Shape() && Results() && stack == [] && Current() == Root(m)
      ensures calls == 0 && accepted == 0 && history == [] && !curtailed && Explained()
    {
    }

    lemma ExplainedIs()
      requires Explained()
      ensures curtailed ==> (cfg.limitLevel == 1 && intVars > 0) || exists i :: 0 <= i < |history| && MayCut(history[i])
    {
    }

    lemma BetweenIs()
      requires Shape() && Results() && stack != [] && AtBase() && StillCovered()
      ensures Between()
    {
    }

    lemma BetweenParts()
      requires Between()
      ensures Ready() && Nodes() && Sized(m, Root(m)) && |m.isInt| == m.n + 1
    {
    }

    lemma Ended()
      requires Between() && stack == []
      ensures Shape() && Results() && Current() == Root(m) && (solutioncount == 0 <==> accepted == 0)
    {
    }

    lemma RootWork()
      requires Shape() && |stack| == 1 && stack[0].nodesleft == 0 && (forall y :: !OpenIn(stack, bases, y))
      ensures Left() <= Tree(TotalWidth(m, Root(m))) && StillCovered()
    {
      assert stack[..0] == [] && bases[..0] == [];
      assert Outer(Root(m), stack, bases) == Root(m);
      assert Remaining(m, stack, bases) == 0;
      assert forall y :: IntPoint(m, y) ==> InBox(y, Root(m));
    }

    lemma Finished()
      requires Between() && stack == [] && !curtailed
      ensures solutioncount == 0 <==> accepted == 0
      ensures solutioncount > 0 ==>
                forall y :: IntPoint(m, y) ==>
                  !Improves(cfg.gaps, m.objective(y), bestOF) || m.objective(y) >= bestOF - (accepted - 1) as real * Drift(cfg.gaps)
      ensures solutioncount > 0 && cfg.gaps.offset <= AbsStep(cfg.gaps) ==>
                forall y :: IntPoint(m, y) ==> !Improves(cfg.gaps, m.objective(y), bestOF)
      ensures solutioncount == 0 ==>
                forall y :: IntPoint(m, y) ==> m.objective(y) >= cfg.heuristicOF + cfg.gaps.absgap + cfg.gaps.offset
      ensures solutioncount == 0 && cfg.heuristicOF >= INFINITE ==> forall y :: !IntPoint(m, y)
      ensures forall y :: IntPoint(m, y) && accepted > 0 ==> Settled(cfg, accepted, bestOF, m.objective(y))
    {
      hide UndoLadder.Valid, ExactLp, Laddered, Counted, BasesSaved, ChainOk, Results, Improves, Drifted, Drift, AbsStep;
      SameCounts();
      forall y | IntPoint(m, y)
        ensures Settled(cfg, accepted, bestOF, m.objective(y)) && m.objective(y) < INFINITE
        ensures accepted > 0 && cfg.gaps.offset <= AbsStep(cfg.gaps) ==> !Improves(cfg.gaps, m.objective(y), bestOF)
      {
        assert !OpenIn(stack, bases, y);
        if accepted > 0 && cfg.gaps.offset <= AbsStep(cfg.gaps) {
          NoDrift(cfg, accepted, bestOF, m.objective(y));
        }
      }
      if accepted > 0 {
        DriftedIs(cfg, accepted - 1);
      }
    }

    /** The optimality of the incumbent in plain numbers. */
    lemma NearOptimal()
      requires Ready() && Results()
      requires forall y :: IntPoint(m, y) && accepted > 0 ==> Settled(cfg, accepted, bestOF, m.objective(y))
      requires !curtailed && accepted > 0
      ensures IntPoint(m, bestX) && bestOF == m.objective(bestX)
      ensures var g := cfg.gaps;
              forall y :: IntPoint(m, y) ==>
                m.objective(y) >= bestOF - Max(Max(g.deltaOF, Max(g.absgap, g.relgap)),
                                               Steps(accepted - 1, Max(0.0, g.offset - Max(g.absgap, g.deltaOF - g.absgap))))
      ensures var g := cfg.gaps;
              OnGrid(m, g.deltaOF) && g.absgap < g.deltaOF && g.relgap < g.deltaOF && 0.0 < g.offset + g.relgap
              && Steps(accepted - 1, Max(0.0, g.offset - Max(g.absgap, g.deltaOF - g.absgap))) < g.deltaOF ==>
                forall y :: IntPoint(m, y) ==> m.objective(y) >= bestOF
    {
      hide ValidModel, ExactLp, Finite, IntPoint, RootBound, Settled, ValidConfig, Max, Steps;
      forall y | IntPoint(m, y)
        ensures var g := cfg.gaps;
                m.objective(y) >= bestOF - Max(Max(g.deltaOF, Max(g.absgap, g.relgap)),
                                               Steps(accepted - 1, Max(0.0, g.offset - Max(g.absgap, g.deltaOF - g.absgap))))
      {
        SettledNear(cfg, accepted, bestOF, m.objective(y));
      }
      var g := cfg.gaps;
      if OnGrid(m, g.deltaOF) && g.absgap < g.deltaOF && g.relgap < g.deltaOF && 0.0 < g.offset + g.relgap
         && Steps(accepted - 1, Max(0.0, g.offset - Max(g.absgap, g.deltaOF - g.absgap))) < g.deltaOF {
        forall y | IntPoint(m, y) ensures m.objective(y) >= bestOF {
          assert GridApart(m.objective(y), m.objective(bestX), g.deltaOF);
          var k :| m.objective(y) - bestOF == Steps(k, g.deltaOF);
          SettledOnGrid(cfg, accepted, bestOF, m.objective(y), k);
        }
      }
    }
  }
}
