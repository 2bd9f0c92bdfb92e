/** The branch-and-bound search as plain values: boxes, the stack of open nodes, which points are
    still to be searched, how much work is left, and what the undo ladders hold. */
module SearchTree {
  import opened BoundTests
  import opened Branching
  import opened UndoLadders

  /** A mixed integer minimization over columns 1..n (index 0 is unused). The constraints and the
      objective may be anything at all. */
  datatype Model = Model(n: nat, isInt: seq<bool>, lower: seq<real>, upper: seq<real>,
                         feasible: seq<real> -> bool, objective: seq<real> -> real)

  datatype Box = Box(lo: seq<real>, up: seq<real>)

  /** A branch-and-bound record: the branching column (0 at the root), remaining and solved branches,
      the active direction, the two branch bounds, the ladder levels it owns in each ladder, and the
      number of bounds its relaxation can tighten. */
  datatype BBrec = BBrec(varno: nat, nodesleft: int, nodessolved: nat, isfloor: bool,
                         upBound: real, loBound: real, UBtrack: nat, LBtrack: nat, lastrcf: nat)

  function Root(m: Model): Box {
    Box(m.lower, m.upper)
  }

  ghost predicate Sized(m: Model, b: Box) {
    |b.lo| == m.n + 1 && |b.up| == m.n + 1
  }

  /** Integer columns have integer bounds. */
  ghost predicate IntegralBox(m: Model, b: Box) {
    && Sized(m, b) && |m.isInt| == m.n + 1
    && forall j :: 1 <= j <= m.n && m.isInt[j] ==> IsInt(b.lo[j]) && IsInt(b.up[j])
  }

  ghost predicate ValidModel(m: Model) {
    IntegralBox(m, Root(m))
  }

  ghost predicate InBox(y: seq<real>, b: Box) {
    && |y| == |b.lo| == |b.up|
    && forall j :: 1 <= j < |y| ==> b.lo[j] <= y[j] <= b.up[j]
  }

  ghost predicate SubBox(b: Box, c: Box) {
    && |b.lo| == |c.lo| == |b.up| == |c.up|
    && forall j :: 1 <= j < |b.lo| ==> c.lo[j] <= b.lo[j] && b.up[j] <= c.up[j]
  }

  /** A feasible point of the mixed integer model. */
  ghost predicate IntPoint(m: Model, y: seq<real>) {
    && InBox(y, Root(m)) && |y| == m.n + 1 == |m.isInt| && m.feasible(y)
    && forall j :: 1 <= j <= m.n && m.isInt[j] ==> IsInt(y[j])
  }

  // ------------------------------------------------------------------ branches

  /** The box a node searches on its active branch. */
  ghost function Branched(b: Box, r: BBrec): (c: Box)
    ensures |c.lo| == |b.lo| && |c.up| == |b.up|
  {
    if r.varno == 0 || r.varno >= |b.lo| || r.varno >= |b.up| then b
    else if r.isfloor then Box(b.lo, b.up[r.varno := r.upBound])
    else Box(b.lo[r.varno := r.loBound], b.up)
  }

  ghost function Sibling(b: Box, r: BBrec): Box {
    Branched(b, r.(isfloor := !r.isfloor))
  }

  /** A node on the stack splits its box at an integer column into two adjacent integer halves. */
  ghost predicate NodeOk(m: Model, b: Box, r: BBrec) {
    && IntegralBox(m, b)
    && 0 <= r.nodesleft <= 1
    && (r.varno == 0 ==> r.nodesleft == 0)
    && (r.varno > 0 ==>
          && r.varno <= m.n && m.isInt[r.varno]
          && IsInt(r.upBound) && r.loBound == r.upBound + 1.0
          && b.lo[r.varno] <= r.upBound && r.loBound <= b.up[r.varno])
  }

  /** The box the node on top of the stack works in, or the root box. */
  ghost function Outer(root: Box, stack: seq<BBrec>, bases: seq<Box>): Box
    requires |stack| == |bases|
  {
    if stack == [] then root
    else Branched(bases[|stack| - 1], stack[|stack| - 1])
  }

  /** Every node is well formed and starts inside the active branch of the node below it. */
  ghost predicate ChainOk(m: Model, stack: seq<BBrec>, bases: seq<Box>) {
    && |stack| == |bases|
    && (stack != [] ==>
          var l := |stack| - 1;
          && ChainOk(m, stack[..l], bases[..l])
          && NodeOk(m, bases[l], stack[l])
          && SubBox(bases[l], Outer(Root(m), stack[..l], bases[..l])))
  }

  lemma BranchedInside(m: Model, b: Box, r: BBrec)
    requires NodeOk(m, b, r)
    ensures SubBox(Branched(b, r), b) && IntegralBox(m, Branched(b, r))
    ensures SubBox(Sibling(b, r), b) && IntegralBox(m, Sibling(b, r))
  {
    HalfInside(m, b, r);
    HalfInside(m, b, r.(isfloor := !r.isfloor));
  }

  lemma HalfInside(m: Model, b: Box, r: BBrec)
    requires NodeOk(m, b, r)
    ensures SubBox(Branched(b, r), b) && IntegralBox(m, Branched(b, r))
  {
    if r.varno > 0 {
      assert IsInt(r.loBound) by { assert r.loBound == (r.upBound.Floor + 1) as real; }
      var c := Branched(b, r);
      forall j | 1 <= j <= m.n && m.isInt[j] ensures IsInt(c.lo[j]) && IsInt(c.up[j]) {
        assert IsInt(b.lo[j]) && IsInt(b.up[j]);
      }
    }
  }

  lemma {:induction false} OuterInRoot(m: Model, stack: seq<BBrec>, bases: seq<Box>)
    requires ValidModel(m) && ChainOk(m, stack, bases)
    ensures SubBox(Outer(Root(m), stack, bases), Root(m)) && IntegralBox(m, Outer(Root(m), stack, bases))
  {
    if stack != [] {
      var l := |stack| - 1;
      OuterInRoot(m, stack[..l], bases[..l]);
      BranchedInside(m, bases[l], stack[l]);
    }
  }

  // ------------------------------------------------------------------ what is still to be searched

  /** `y` lies in a branch that some node on the stack has not started yet. */
  ghost predicate OpenIn(stack: seq<BBrec>, bases: seq<Box>, y: seq<real>)
    requires |stack| == |bases|
  {
    stack != [] &&
    var l := |stack| - 1;
    || (stack[l].nodesleft > 0 && InBox(y, Sibling(bases[l], stack[l])))
    || OpenIn(stack[..l], bases[..l], y)
  }

  /** The branches of a node cover its integer points. */
  lemma BranchesCover(m: Model, b: Box, r: BBrec, y: seq<real>)
    requires NodeOk(m, b, r) && InBox(y, b) && |y| == m.n + 1
    requires forall j :: 1 <= j <= m.n && m.isInt[j] ==> IsInt(y[j])
    ensures InBox(y, Branched(b, r)) || (r.varno > 0 && InBox(y, Sibling(b, r)))
  {
    if r.varno > 0 {
      var v := y[r.varno];
      assert v <= r.upBound || r.loBound <= v by {
        assert v.Floor <= r.upBound.Floor || r.upBound.Floor + 1 <= v.Floor;
      }
    }
  }

  /** ... and share none of them. */
  lemma BranchesDisjoint(m: Model, b: Box, r: BBrec, y: seq<real>)
    requires NodeOk(m, b, r) && r.varno > 0
    ensures !(InBox(y, Branched(b, r)) && InBox(y, Sibling(b, r)))
  {
  }

  // ------------------------------------------------------------------ how much work is left

  /** Number of halvings an integer range allows. */
  ghost function Width(m: Model, b: Box, j: nat): nat
    requires Sized(m, b) && |m.isInt| == m.n + 1 && j <= m.n
  {
    if m.isInt[j] && b.lo[j].Floor <= b.up[j].Floor then b.up[j].Floor - b.lo[j].Floor else 0
  }

  ghost function WidthTo(m: Model, b: Box, k: nat): nat
    requires Sized(m, b) && |m.isInt| == m.n + 1 && k <= m.n
  {
    if k == 0 then 0 else WidthTo(m, b, k - 1) + Width(m, b, k)
  }

  ghost function TotalWidth(m: Model, b: Box): nat
    requires Sized(m, b) && |m.isInt| == m.n + 1
  {
    WidthTo(m, b, m.n)
  }

  /** Most relaxations a subtree over a box of total width `w` can need. */
  ghost function Tree(w: nat): nat
    ensures Tree(w) >= 1
  {
    if w == 0 then 1 else 1 + 2 * Tree(w - 1)
  }

  lemma {:induction false} TreeMonotone(v: nat, w: nat)
    requires v <= w
    ensures Tree(v) <= Tree(w)
  {
    if v < w {
      TreeMonotone(v, w - 1);
    }
  }

  ghost function Pow2(k: nat): nat {
    if k == 0 then 1 else 2 * Pow2(k - 1)
  }

  lemma {:induction false} TreeIsPow2(w: nat)
    ensures Tree(w) == Pow2(w + 1) - 1
  {
    if w > 0 {
      TreeIsPow2(w - 1);
    }
  }

  lemma WidthShrinks(m: Model, b: Box, c: Box, j: nat)
    requires IntegralBox(m, b) && IntegralBox(m, c) && SubBox(b, c) && 1 <= j <= m.n
    ensures Width(m, b, j) <= Width(m, c, j)
  {
  }

  lemma {:induction false} WidthToShrinks(m: Model, b: Box, c: Box, k: nat)
    requires IntegralBox(m, b) && IntegralBox(m, c) && SubBox(b, c) && k <= m.n
    ensures WidthTo(m, b, k) <= WidthTo(m, c, k)
    ensures forall j :: 1 <= j <= k && Width(m, b, j) < Width(m, c, j) ==> WidthTo(m, b, k) < WidthTo(m, c, k)
  {
    if k > 0 {
      WidthToShrinks(m, b, c, k - 1);
      WidthShrinks(m, b, c, k);
    }
  }

  /** Both branches of a node are strictly narrower than the node. */
  lemma BranchNarrower(m: Model, b: Box, r: BBrec)
    requires NodeOk(m, b, r) && r.varno > 0
    ensures Width(m, Branched(b, r), r.varno) < Width(m, b, r.varno)
    ensures Sized(m, Sibling(b, r))
    ensures TotalWidth(m, Branched(b, r)) < TotalWidth(m, b) && TotalWidth(m, Sibling(b, r)) < TotalWidth(m, b)
  {
    BranchedInside(m, b, r);
    HalfNarrower(m, b, r);
    HalfNarrower(m, b, r.(isfloor := !r.isfloor));
    WidthToShrinks(m, Branched(b, r), b, m.n);
    WidthToShrinks(m, Sibling(b, r), b, m.n);
  }

  lemma HalfNarrower(m: Model, b: Box, r: BBrec)
    requires NodeOk(m, b, r) && r.varno > 0
    ensures Width(m, Branched(b, r), r.varno) < Width(m, b, r.varno)
  {
  }

  /** Relaxations that the branches not started yet can need. */
  ghost function Remaining(m: Model, stack: seq<BBrec>, bases: seq<Box>): nat
    requires ChainOk(m, stack, bases)
  {
    if stack == [] then 0
    else
      var l := |stack| - 1;
      Remaining(m, stack[..l], bases[..l]) + if stack[l].nodesleft > 0 then Tree(TotalWidth(m, Sibling(bases[l], stack[l]))) else 0
  }

  /** Relaxations that can still be needed when the active branch on top is about to be solved. */
  ghost function Work(m: Model, stack: seq<BBrec>, bases: seq<Box>): nat
    requires ValidModel(m) && ChainOk(m, stack, bases)
  {
    if stack == [] then 0
    else
      OuterInRoot(m, stack, bases);
      Remaining(m, stack, bases) + Tree(TotalWidth(m, Outer(Root(m), stack, bases)))
  }

  // ------------------------------------------------------------------ depth

  /** How many nodes on the stack branch on column `k`. */
  ghost function Depth(stack: seq<BBrec>, k: nat): nat {
    if stack == [] then 0
    else Depth(stack[..|stack| - 1], k) + if stack[|stack| - 1].varno == k then 1 else 0
  }

  /** Each branching on a column uses up at least one unit of its integer range. */
  lemma {:induction false} DepthBudget(m: Model, stack: seq<BBrec>, bases: seq<Box>, k: nat)
    requires ValidModel(m) && ChainOk(m, stack, bases) && 1 <= k <= m.n
    ensures Sized(m, Outer(Root(m), stack, bases))
    ensures Depth(stack, k) + Width(m, Outer(Root(m), stack, bases), k) <= Width(m, Root(m), k)
  {
    OuterInRoot(m, stack, bases);
    if stack != [] {
      var l := |stack| - 1;
      var b, r := bases[l], stack[l];
      DepthBudget(m, stack[..l], bases[..l], k);
      OuterInRoot(m, stack[..l], bases[..l]);
      BranchedInside(m, b, r);
      WidthShrinks(m, b, Outer(Root(m), stack[..l], bases[..l]), k);
      WidthShrinks(m, Branched(b, r), b, k);
      if r.varno == k {
        HalfNarrower(m, b, r);
      }
    }
  }

  /** Nodes on the stack that are branchings, that is, all but the root node. */
  ghost function Branchings(stack: seq<BBrec>): nat {
    if stack == [] then 0
    else Branchings(stack[..|stack| - 1]) + if stack[|stack| - 1].varno > 0 then 1 else 0
  }

  lemma {:induction false} TotalBudget(m: Model, stack: seq<BBrec>, bases: seq<Box>)
    requires ValidModel(m) && ChainOk(m, stack, bases)
    ensures Sized(m, Outer(Root(m), stack, bases))
    ensures Branchings(stack) + TotalWidth(m, Outer(Root(m), stack, bases)) <= TotalWidth(m, Root(m))
  {
    OuterInRoot(m, stack, bases);
    if stack != [] {
      var l := |stack| - 1;
      var b, r := bases[l], stack[l];
      TotalBudget(m, stack[..l], bases[..l]);
      OuterInRoot(m, stack[..l], bases[..l]);
      WidthToShrinks(m, b, Outer(Root(m), stack[..l], bases[..l]), m.n);
      BranchedInside(m, b, r);
      WidthToShrinks(m, Branched(b, r), b, m.n);
      if r.varno > 0 {
        BranchNarrower(m, b, r);
      }
    }
  }

  /** If only the bottom node is the root node, the stack is one higher than its branchings. */
  lemma {:induction false} LevelIsBranchings(stack: seq<BBrec>)
    requires forall i :: 0 < i < |stack| ==> stack[i].varno > 0
    ensures |stack| <= Branchings(stack) + 1
  {
    if |stack| > 1 {
      LevelIsBranchings(stack[..|stack| - 1]);
    }
  }

  function IntCount(m: Model, k: nat): nat
    requires |m.isInt| == m.n + 1 && k <= m.n
  {
    if k == 0 then 0 else IntCount(m, k - 1) + if m.isInt[k] then 1 else 0
  }

  lemma {:induction false} WidthCap(m: Model, b: Box, k: nat, w: nat)
    requires Sized(m, b) && |m.isInt| == m.n + 1 && k <= m.n
    requires forall j :: 1 <= j <= k ==> Width(m, b, j) <= w
    ensures WidthTo(m, b, k) <= w * IntCount(m, k)
  {
    if k > 0 {
      WidthCap(m, b, k - 1, w);
      assert w * IntCount(m, k) == w * IntCount(m, k - 1) + if m.isInt[k] then w else 0;
    }
  }

  /** Every integer range spans at most `w`. */
  ghost predicate Narrow(m: Model, w: nat) {
    Sized(m, Root(m)) && |m.isInt| == m.n + 1 && forall j :: 1 <= j <= m.n ==> Width(m, Root(m), j) <= w
  }

  /** With ranges of at most `w`, the column of a fractional value has been branched on fewer than `w` times. */
  lemma ColumnDepth(m: Model, stack: seq<BBrec>, bases: seq<Box>, k: nat, v: real, w: nat)
    requires ValidModel(m) && ChainOk(m, stack, bases) && Narrow(m, w) && 1 <= k <= m.n && m.isInt[k] && !IsInt(v)
    requires Sized(m, Outer(Root(m), stack, bases))
    requires Outer(Root(m), stack, bases).lo[k] <= v <= Outer(Root(m), stack, bases).up[k]
    ensures Depth(stack, k) < w
  {
    OuterInRoot(m, stack, bases);
    DepthBudget(m, stack, bases, k);
    var b := Outer(Root(m), stack, bases);
    assert b.lo[k].Floor < b.up[k].Floor;
  }

  /** ... and the stack is never higher than the product of `w` and the number of integer columns, plus one. */
  lemma StackHeight(m: Model, stack: seq<BBrec>, bases: seq<Box>, w: nat)
    requires ValidModel(m) && ChainOk(m, stack, bases) && Narrow(m, w)
    requires forall i :: 0 < i < |stack| ==> stack[i].varno > 0
    ensures |stack| <= w * IntCount(m, m.n) + 1
  {
    TotalBudget(m, stack, bases);
    LevelIsBranchings(stack);
    WidthCap(m, Root(m), m.n, w);
  }

  lemma {:induction false} SomeInteger(m: Model, k: nat, j: nat)
    requires |m.isInt| == m.n + 1 && k <= m.n && 1 <= j <= k && m.isInt[j]
    ensures IntCount(m, k) > 0
  {
    if j < k {
      SomeInteger(m, k - 1, j);
    }
  }

  // ------------------------------------------------------------------ what the undo ladders hold

  ghost function Side(b: Box, upper: bool): seq<real> {
    if upper then b.up else b.lo
  }

  ghost function Track(r: BBrec, upper: bool): nat {
    if upper then r.UBtrack else r.LBtrack
  }

  /** A node's top frame records nothing but the node's own value of its branching column. */
  ghost predicate OwnFrame(f: Frame, k: nat, base: seq<real>) {
    k < |base| && forall e :: 0 <= e < |f| ==> f[e] == Change(k, base[k])
  }

  /** The vector `cur` can be taken back to `base` with the frame `f` of a node branching on `k`. */
  ghost predicate Undoable(f: Frame, k: nat, base: seq<real>, cur: seq<real>) {
    && OwnFrame(f, k, base) && |cur| == |base|
    && (cur == base || (f != [] && cur == base[k := cur[k]]))
  }

  lemma UndoableRestores(f: Frame, k: nat, base: seq<real>, cur: seq<real>)
    requires Undoable(f, k, base, cur)
    ensures InRange(f, |cur|) && Replay(f, cur) == base
  {
    ReplaySingle(f, cur, k, base[k]);
  }

  /** A node owns one or two frames on top of `fs`: its own frame and, below it, the reduced-cost
      changes that lead from the outer box to the node's box. */
  ghost predicate Rung(fs: seq<Frame>, k: nat, track: nat, base: seq<real>, outer: seq<real>) {
    && 1 <= track <= 2 && track <= |fs|
    && OwnFrame(fs[|fs| - 1], k, base)
    && |base| == |outer|
    && (if track == 2 then InRange(fs[|fs| - 2], |base|) && Replay(fs[|fs| - 2], base) == outer else base == outer)
  }

  /** The node on top of the ladder `fs` can be taken from its active branch back to its own box. */
  ghost predicate Joint(fs: seq<Frame>, k: nat, base: seq<real>, outer: seq<real>) {
    fs != [] && Undoable(fs[|fs| - 1], k, base, outer)
  }

  ghost predicate Rungs(fs: seq<Frame>, stack: seq<BBrec>, bases: seq<Box>, root: Box, upper: bool)
    requires |stack| == |bases|
  {
    if stack == [] then fs == []
    else
      var l := |stack| - 1;
      var t := Track(stack[l], upper);
      var outer := Side(Outer(root, stack[..l], bases[..l]), upper);
      && Rung(fs, stack[l].varno, t, Side(bases[l], upper), outer)
      && Rungs(fs[..|fs| - t], stack[..l], bases[..l], root, upper)
      && (l > 0 ==> Joint(fs[..|fs| - t], stack[l - 1].varno, Side(bases[l - 1], upper), outer))
  }

  /** The bounds in force once the top node has been taken off: those of the node below, as they were
      when it was created. */
  ghost function BaseBelow(root: Box, bases: seq<Box>): Box {
    if |bases| <= 1 then root else bases[|bases| - 2]
  }
}
