/** Making negative-range and free variables nonnegative before solving, and undoing it afterwards
    (preprocess, postprocess and del_splitvars of lp_lib.c). */
module FreeVars {
  import opened Numbers
  import Branching
  import Reals

  /** A model: columns 1..|cols| - 1 (entry 0 is unused), each with its objective coefficient at row 0 and
      one coefficient per row, its bounds and whether it is integer. */
  datatype Lp = Lp(cols: seq<seq<real>>, low: seq<real>, up: seq<real>, isInt: seq<bool>)

  ghost predicate Shaped(p: Lp, rows: nat) {
    && |p.cols| == |p.low| == |p.up| == |p.isInt| >= 1
    && forall j :: 0 <= j < |p.cols| ==> |p.cols[j]| == rows + 1
  }

  function Columns(p: Lp): int {
    |p.cols| - 1
  }

  /** Limits of the transformation: what counts as infinite, and the range below zero that is tolerated. */
  datatype Limits = Limits(infinite: real, negrange: real)

  ghost predicate Sane(l: Limits) {
    -l.infinite < l.negrange <= 0.0 < l.infinite
  }

  datatype Kind = Flip | Split | Keep

  /** What `preprocess` does with a column. */
  function KindOf(low: real, up: real, l: Limits): Kind {
    if (up < l.infinite && Reals.Abs(low) >= l.infinite) || (up < -l.negrange && low <= l.negrange) then Flip
    else if low <= l.negrange && up >= -l.negrange then Split
    else Keep
  }

  function Neg(c: seq<real>): (r: seq<real>)
    ensures |r| == |c|
  {
    seq(|c|, i requires 0 <= i < |c| => -c[i])
  }

  // ------------------------------------------------------------------ the transformed model

  /** Columns among 1..k that are split. */
  function Splits(p: Lp, l: Limits, k: nat): (s: nat)
    requires k < |p.low| && k < |p.up|
    ensures s <= k
  {
    if k == 0 then 0 else Splits(p, l, k - 1) + if KindOf(p.low[k], p.up[k], l) == Split then 1 else 0
  }

  /** Where the helper of a split column is put. */
  function Helper(p: Lp, l: Limits, j: nat): nat
    requires j < |p.low| && j < |p.up| && |p.cols| >= 1
  {
    |p.cols| - 1 + Splits(p, l, j)
  }

  lemma {:induction false} SplitsGrow(p: Lp, l: Limits, j: nat, k: nat)
    requires j <= k < |p.low| && k < |p.up|
    ensures Splits(p, l, j) <= Splits(p, l, k)
    ensures forall i :: j < i <= k && KindOf(p.low[i], p.up[i], l) == Split ==> Splits(p, l, j) < Splits(p, l, i) <= Splits(p, l, k)
  {
    if j < k {
      SplitsGrow(p, l, j, k - 1);
    }
  }

  /** Column `j` and its helper after they have been dealt with. */
  ghost predicate ColumnDone(p: Lp, q: Lp, l: Limits, j: nat)
    requires Sized(p) && Sized(q) && j < |p.cols| <= |q.cols|
  {
    && q.isInt[j] == p.isInt[j]
    && match KindOf(p.low[j], p.up[j], l)
       case Flip => q.cols[j] == Neg(p.cols[j]) && q.low[j] == -p.up[j] && q.up[j] == -p.low[j]
       case Split =>
         var h := Helper(p, l, j);
         && q.cols[j] == p.cols[j] && q.low[j] == 0.0 && q.up[j] == p.up[j]
         && h < |q.cols| && q.cols[h] == Neg(p.cols[j]) && q.low[h] == 0.0 && q.up[h] == -p.low[j] && q.isInt[h] == p.isInt[j]
       case Keep => q.cols[j] == p.cols[j] && q.low[j] == p.low[j] && q.up[j] == p.up[j]
  }

  ghost predicate ColumnSame(p: Lp, q: Lp, j: nat)
    requires Sized(p) && Sized(q) && j < |p.cols| <= |q.cols|
  {
    q.cols[j] == p.cols[j] && q.low[j] == p.low[j] && q.up[j] == p.up[j] && q.isInt[j] == p.isInt[j]
  }

  ghost predicate Sized(p: Lp) {
    |p.cols| == |p.low| == |p.up| == |p.isInt| >= 1
  }

  /** Columns 1..k have been dealt with. */
  ghost predicate Transformed(p: Lp, q: Lp, l: Limits, k: nat) {
    && Sized(p) && Sized(q) && k < |p.cols| && |q.cols| == |p.cols| + Splits(p, l, k)
    && (forall j :: 1 <= j <= k ==> ColumnDone(p, q, l, j))
    && (forall j :: 0 <= j < |p.cols| && (j == 0 || j > k) ==> ColumnSame(p, q, j))
  }

  /** The transformed model of `p`. */
  ghost predicate IsTransformed(p: Lp, q: Lp, l: Limits) {
    |p.cols| >= 1 && Transformed(p, q, l, |p.cols| - 1)
  }

  // ------------------------------------------------------------------ what becomes of the bounds

  /** Bounds that leave room for a value: a lower one that is not plus, an upper one that is not minus infinite. */
  ghost predicate Bounded(p: Lp, l: Limits) {
    Sized(p) && forall j :: 1 <= j < |p.cols| ==> p.low[j] < l.infinite && -l.infinite < p.up[j]
  }

  /** The column has no lower bound but an upper one. */
  predicate OnlyAbove(low: real, up: real, l: Limits) {
    low <= -l.infinite && up < l.infinite
  }

  /** What a column with bounds low..up has become in `q`, with `h` the number of its helper if it has one. A
      column that cannot go below the negative range is as before; one that can, and that has room above zero
      as well, has lower bound zero, and the helper with the opposite coefficients has the rest; one that has
      no such room, or no lower bound at all, is mirrored. */
  ghost predicate Becomes(c: seq<real>, low: real, up: real, isInt: bool, q: Lp, j: nat, h: nat, l: Limits)
    requires Sized(q) && j < |q.cols|
  {
    && q.isInt[j] == isInt
    && if low > l.negrange then q.cols[j] == c && q.low[j] == low && q.up[j] == up
       else if up >= -l.negrange && !OnlyAbove(low, up, l) then
         && q.cols[j] == c && q.low[j] == 0.0 && q.up[j] == up
         && h < |q.cols| && |q.cols[h]| == |c| && (forall r :: 0 <= r < |c| ==> q.cols[h][r] == -c[r])
         && q.low[h] == 0.0 && q.up[h] == -low && q.isInt[h] == isInt
       else |q.cols[j]| == |c| && (forall r :: 0 <= r < |c| ==> q.cols[j][r] == -c[r]) && q.low[j] == -up && q.up[j] == -low
  }

  /** The columns up to `k` that go below the negative range and have room above zero as well. */
  ghost function Crossing(p: Lp, l: Limits, k: nat): set<nat>
    requires Sized(p)
  {
    set j: nat | 1 <= j <= k && j < |p.cols| && p.low[j] <= l.negrange && p.up[j] >= -l.negrange && !OnlyAbove(p.low[j], p.up[j], l)
  }

  lemma {:induction false} SplitsCross(p: Lp, l: Limits, k: nat)
    requires Bounded(p, l) && Sane(l) && k < |p.cols|
    ensures Splits(p, l, k) == |Crossing(p, l, k)|
  {
    if k == 0 {
      assert Crossing(p, l, 0) == {};
    } else {
      SplitsCross(p, l, k - 1);
      if KindOf(p.low[k], p.up[k], l) == Split {
        assert Crossing(p, l, k) == Crossing(p, l, k - 1) + {k};
      } else {
        assert Crossing(p, l, k) == Crossing(p, l, k - 1);
      }
    }
  }

  /** Every column of the transformed model in terms of the original bounds: there is one more column for every
      one that crosses zero, and it stands behind the originals in their order. */
  lemma TransformedColumn(p: Lp, q: Lp, l: Limits, j: nat)
    requires IsTransformed(p, q, l) && Bounded(p, l) && Sane(l) && 1 <= j < |p.cols|
    ensures |q.cols| == |p.cols| + |Crossing(p, l, |p.cols| - 1)|
    ensures Becomes(p.cols[j], p.low[j], p.up[j], p.isInt[j], q, j, |p.cols| - 1 + |Crossing(p, l, j)|, l)
  {
    SplitsCross(p, l, |p.cols| - 1);
    SplitsCross(p, l, j);
    assert ColumnDone(p, q, l, j);
  }

  /** No column of the transformed model, helpers included, is without a lower bound, and none can go below the
      negative range but those that had an upper bound only. */
  lemma TransformedBounds(p: Lp, q: Lp, l: Limits, j: nat)
    requires IsTransformed(p, q, l) && Bounded(p, l) && Sane(l) && 1 <= j < |q.cols|
    ensures -l.infinite < q.low[j] < l.infinite
    ensures l.negrange < 0.0 ==> q.low[j] > l.negrange || (j < |p.cols| && OnlyAbove(p.low[j], p.up[j], l))
    ensures j >= |p.cols| ==> q.low[j] == 0.0
  {
    var n := |p.cols| - 1;
    if j <= n {
      TransformedColumn(p, q, l, j);
    } else {
      var i := HelperOf(p, l, j - n, n);
      assert ColumnDone(p, q, l, i);
    }
  }

  // ------------------------------------------------------------------ points

  predicate InBounds(x: real, low: real, up: real, l: Limits) {
    (low <= -l.infinite || low <= x) && (up >= l.infinite || x <= up)
  }

  /** A point of the model: within all bounds, and integral where required. */
  ghost predicate Point(p: Lp, x: seq<real>, l: Limits) {
    && Sized(p) && |x| == |p.cols|
    && forall j :: 1 <= j < |p.cols| ==> InBounds(x[j], p.low[j], p.up[j], l) && (p.isInt[j] ==> Branching.IsInt(x[j]))
  }

  /** The value that `postprocess` gives to column `j`. */
  function BackAt(p: Lp, l: Limits, x: seq<real>, j: nat): real
    requires Sized(p) && 1 <= j < |p.cols| && |x| == |p.cols| + Splits(p, l, |p.cols| - 1)
  {
    SplitsGrow(p, l, j, |p.cols| - 1);
    match KindOf(p.low[j], p.up[j], l)
    case Flip => -x[j]
    case Split => x[j] - x[Helper(p, l, j)]
    case Keep => x[j]
  }

  function Back(p: Lp, l: Limits, x: seq<real>): (y: seq<real>)
    requires Sized(p) && |x| == |p.cols| + Splits(p, l, |p.cols| - 1)
    ensures |y| == |p.cols|
  {
    seq(|p.cols|, j requires 0 <= j < |p.cols| && Sized(p) && |x| == |p.cols| + Splits(p, l, |p.cols| - 1) =>
      if j == 0 then 0.0 else BackAt(p, l, x, j))
  }

  /** Every point of the transformed model maps to a point of the original one. */
  lemma BackIsPoint(p: Lp, q: Lp, l: Limits, x: seq<real>)
    requires IsTransformed(p, q, l) && Sane(l) && Point(q, x, l)
    ensures Point(p, Back(p, l, x), l)
  {
    var y := Back(p, l, x);
    forall j | 1 <= j < |p.cols| ensures InBounds(y[j], p.low[j], p.up[j], l) && (p.isInt[j] ==> Branching.IsInt(y[j])) {
      BackAtPoint(p, q, l, x, j);
    }
  }

  lemma BackAtPoint(p: Lp, q: Lp, l: Limits, x: seq<real>, j: nat)
    requires IsTransformed(p, q, l) && Sane(l) && Point(q, x, l) && 1 <= j < |p.cols|
    ensures InBounds(BackAt(p, l, x, j), p.low[j], p.up[j], l) && (p.isInt[j] ==> Branching.IsInt(BackAt(p, l, x, j)))
  {
    assert ColumnDone(p, q, l, j);
    var h := Helper(p, l, j);
    SplitsGrow(p, l, j, |p.cols| - 1);
    if p.isInt[j] {
      IntNeg(x[j]);
      if KindOf(p.low[j], p.up[j], l) == Split {
        assert 1 <= h < |q.cols|;
        IntMinus(x[j], x[h]);
      }
    }
  }

  lemma IntNeg(x: real)
    requires Branching.IsInt(x)
    ensures Branching.IsInt(-x)
  {
    var n := x.Floor;
    assert -x == (-n) as real;
    assert ((-n) as real).Floor == -n;
  }

  lemma IntMinus(x: real, y: real)
    requires Branching.IsInt(x) && Branching.IsInt(y)
    ensures Branching.IsInt(x - y)
  {
    var n := x.Floor - y.Floor;
    assert x - y == n as real;
    assert (n as real).Floor == n;
  }

  /** A point of the transformed model that maps to `y`. */
  ghost function ForthAt(p: Lp, l: Limits, y: seq<real>, j: nat): real
    requires Sized(p) && 1 <= j < |p.cols| == |y|
  {
    match KindOf(p.low[j], p.up[j], l)
    case Flip => -y[j]
    case Split => if y[j] >= 0.0 then y[j] else 0.0
    case Keep => y[j]
  }

  function NegativePart(x: real): real {
    if x >= 0.0 then 0.0 else -x
  }

  ghost function HelperValues(p: Lp, l: Limits, y: seq<real>, k: nat): (r: seq<real>)
    requires Sized(p) && k < |p.cols| == |y|
    ensures |r| == Splits(p, l, k)
  {
    if k == 0 then []
    else
      var rest := HelperValues(p, l, y, k - 1);
      if KindOf(p.low[k], p.up[k], l) == Split then rest + [NegativePart(y[k])] else rest
  }

  ghost function Forth(p: Lp, l: Limits, y: seq<real>): (x: seq<real>)
    requires Sized(p) && |p.cols| == |y|
    ensures |x| == |p.cols| + Splits(p, l, |p.cols| - 1)
  {
    seq(|p.cols|, j requires 0 <= j < |p.cols| && Sized(p) && |p.cols| == |y| => if j == 0 then 0.0 else ForthAt(p, l, y, j))
    + HelperValues(p, l, y, |p.cols| - 1)
  }

  lemma {:induction false} HelperValueAt(p: Lp, l: Limits, y: seq<real>, j: nat, k: nat)
    requires Sized(p) && 1 <= j <= k < |p.cols| == |y| && KindOf(p.low[j], p.up[j], l) == Split
    ensures Splits(p, l, k) >= Splits(p, l, j) >= 1
    ensures HelperValues(p, l, y, k)[Splits(p, l, j) - 1] == NegativePart(y[j])
  {
    if j < k {
      HelperValueAt(p, l, y, j, k - 1);
    }
  }

  /** Every added column is the helper of some split column. */
  lemma {:induction false} HelperOf(p: Lp, l: Limits, s: nat, k: nat) returns (j: nat)
    requires Sized(p) && k < |p.cols| && 1 <= s <= Splits(p, l, k)
    ensures 1 <= j <= k && KindOf(p.low[j], p.up[j], l) == Split && Splits(p, l, j) == s
  {
    if s == Splits(p, l, k) && KindOf(p.low[k], p.up[k], l) == Split {
      j := k;
    } else {
      j := HelperOf(p, l, s, k - 1);
    }
  }

  /** Every point of the original model is the image of a point of the transformed one. */
  lemma ForthIsPoint(p: Lp, q: Lp, l: Limits, y: seq<real>)
    requires IsTransformed(p, q, l) && Sane(l) && Point(p, y, l) && y[0] == 0.0
    ensures Point(q, Forth(p, l, y), l) && Back(p, l, Forth(p, l, y)) == y
  {
    var x := Forth(p, l, y);
    var n := |p.cols| - 1;
    forall j | 1 <= j < |q.cols| ensures InBounds(x[j], q.low[j], q.up[j], l) && (q.isInt[j] ==> Branching.IsInt(x[j])) {
      if j <= n {
        ForthAtPoint(p, q, l, y, j);
      } else {
        var i := HelperOf(p, l, j - n, n);
        ForthAtPoint(p, q, l, y, i);
        HelperValueAt(p, l, y, i, n);
      }
    }
    forall j | 1 <= j <= n ensures BackAt(p, l, x, j) == y[j] {
      SplitsGrow(p, l, j, n);
      if KindOf(p.low[j], p.up[j], l) == Split {
        HelperValueAt(p, l, y, j, n);
        assert Helper(p, l, j) == n + Splits(p, l, j);
      }
    }
  }

  lemma ForthAtPoint(p: Lp, q: Lp, l: Limits, y: seq<real>, j: nat)
    requires IsTransformed(p, q, l) && Sane(l) && Point(p, y, l) && 1 <= j < |p.cols|
    ensures InBounds(ForthAt(p, l, y, j), q.low[j], q.up[j], l) && (q.isInt[j] ==> Branching.IsInt(ForthAt(p, l, y, j)))
    ensures KindOf(p.low[j], p.up[j], l) == Split ==>
              var h := Helper(p, l, j); var v := NegativePart(y[j]);
              h < |q.cols| && InBounds(v, q.low[h], q.up[h], l) && (q.isInt[h] ==> Branching.IsInt(v))
  {
    assert ColumnDone(p, q, l, j);
    if p.isInt[j] {
      IntNeg(y[j]);
      assert Branching.IsInt(0.0);
    }
  }

  // ------------------------------------------------------------------ row values

  function Times(a: real, b: real): real {
    a * b
  }

  /** Value of row `r` (0 is the objective) over columns 1..k. */
  function RowTo(p: Lp, rows: nat, r: nat, x: seq<real>, k: nat): real
    requires Shaped(p, rows) && r <= rows && k < |p.cols| && k < |x|
  {
    if k == 0 then 0.0 else RowTo(p, rows, r, x, k - 1) + Times(p.cols[k][r], x[k])
  }

  lemma {:induction false} RowsSame(p: Lp, q: Lp, l: Limits, rows: nat, r: nat, x: seq<real>, k: nat)
    requires IsTransformed(p, q, l) && Shaped(p, rows) && Shaped(q, rows) && r <= rows && |x| == |q.cols| && k < |p.cols|
    ensures Splits(p, l, k) <= Splits(p, l, |p.cols| - 1)
    ensures RowTo(q, rows, r, x, k) + RowTo(q, rows, r, x, Columns(p) + Splits(p, l, k)) - RowTo(q, rows, r, x, Columns(p))
         == RowTo(p, rows, r, Back(p, l, x), k)
  {
    SplitsGrow(p, l, k, |p.cols| - 1);
    if k > 0 {
      RowsSame(p, q, l, rows, r, x, k - 1);
      assert ColumnDone(p, q, l, k);
      TermSame(p, q, l, rows, r, x, k);
      assert Back(p, l, x)[k] == BackAt(p, l, x, k);
      assert Helper(p, l, k) == Columns(p) + Splits(p, l, k);
      hide ColumnDone, BackAt, Back, KindOf, Helper, IsTransformed, Columns, Times;
    }
  }

  lemma TermSame(p: Lp, q: Lp, l: Limits, rows: nat, r: nat, x: seq<real>, k: nat)
    requires IsTransformed(p, q, l) && Shaped(p, rows) && Shaped(q, rows) && r <= rows && |x| == |q.cols| && 1 <= k < |p.cols|
    requires ColumnDone(p, q, l, k)
    ensures Times(q.cols[k][r], x[k])
          + (if KindOf(p.low[k], p.up[k], l) == Split then Times(q.cols[Helper(p, l, k)][r], x[Helper(p, l, k)]) else 0.0)
         == Times(p.cols[k][r], BackAt(p, l, x, k))
  {
    SplitsGrow(p, l, k, |p.cols| - 1);
    match KindOf(p.low[k], p.up[k], l)
    case Flip => Signs(p.cols[k][r], x[k], 0.0);
    case Split => Signs(p.cols[k][r], x[k], x[Helper(p, l, k)]);
    case Keep =>
  }

  lemma Signs(c: real, x: real, h: real)
    ensures (-c) * x == c * (-x) && c * x + (-c) * h == c * (x - h)
  {
  }

  /** All rows and the objective have the same value at a point and at its image. */
  lemma SameRows(p: Lp, q: Lp, l: Limits, rows: nat, r: nat, x: seq<real>)
    requires IsTransformed(p, q, l) && Shaped(p, rows) && Shaped(q, rows) && r <= rows && |x| == |q.cols|
    ensures RowTo(q, rows, r, x, |q.cols| - 1) == RowTo(p, rows, r, Back(p, l, x), |p.cols| - 1)
  {
    RowsSame(p, q, l, rows, r, x, |p.cols| - 1);
  }

  // ------------------------------------------------------------------ when the loop ends

  /** The model after the first `k` rounds of the loop, which also visits the columns it adds. */
  function Visit(p: Lp, l: Limits, k: nat): (q: Lp)
    requires Sized(p)
    ensures Sized(q) && |q.cols| >= |p.cols|
  {
    if k == 0 then p
    else
      var q := Visit(p, l, k - 1);
      if k < |q.cols| then Step(q, l, k) else q
  }

  /** At some point no column is left to visit. */
  ghost predicate Ends(p: Lp, l: Limits)
    requires Sized(p)
  {
    exists k: nat :: |Visit(p, l, k).cols| <= k + 1
  }

  ghost predicate NoneSplit(p: Lp, l: Limits)
    requires Sized(p)
  {
    forall j :: 1 <= j < |p.cols| ==> KindOf(p.low[j], p.up[j], l) != Split
  }

  /** With a negative range of zero, exactly the columns that can be zero are split, unless their lower bound
      is infinite and their upper bound is not; and the helper is such a column again. */
  lemma ZeroRangeSplits(low: real, up: real, l: Limits)
    requires l.negrange == 0.0 < l.infinite
    ensures KindOf(low, up, l) == Split <==> low <= 0.0 <= up && !(up < l.infinite && low <= -l.infinite)
    ensures KindOf(low, up, l) == Split ==> KindOf(0.0, -low, l) == Split
  {
  }

  /** The loop ends exactly if the negative range is below zero or no column is split: otherwise every column
      that is split adds another one that is split in its turn. */
  lemma LoopEnds(p: Lp, l: Limits)
    requires Sized(p) && Sane(l)
    ensures Ends(p, l) <==> l.negrange < 0.0 || NoneSplit(p, l)
    ensures !Ends(p, l) ==> forall k: nat :: |Visit(p, l, k).cols| > k + 1
  {
    if l.negrange < 0.0 || NoneSplit(p, l) {
      var n := |p.cols| - 1;
      var k := n + Splits(p, l, n);
      var m := Visited(p, l, k);
      assert |Visit(p, l, k).cols| <= k + 1;
    } else {
      var j :| 1 <= j < |p.cols| && KindOf(p.low[j], p.up[j], l) == Split;
      forall k: nat ensures |Visit(p, l, k).cols| > k + 1 {
        var h := SplitAhead(p, l, j, k);
      }
    }
  }

  /** When helpers are not split, the rounds give the transformed model. */
  lemma {:induction false} Visited(p: Lp, l: Limits, k: nat) returns (m: seq<int>)
    requires Sized(p) && Sane(l) && (l.negrange < 0.0 || NoneSplit(p, l))
    ensures Transformed(p, Visit(p, l, k), l, Min(k, |p.cols| - 1)) && MarksAre(p, l, m, Min(k, |p.cols| - 1))
  {
    hide Transformed, MarksAre, Step, StepMarks;
    var n := |p.cols| - 1;
    if k == 0 {
      m := seq(|p.cols|, _ => 0);
      NothingDone(p, l, m);
    } else {
      m := Visited(p, l, k - 1);
      var q := Visit(p, l, k - 1);
      if k <= n {
        StepDone(p, q, l, m, k);
        m := StepMarks(m, q, l, k);
      } else if k < |q.cols| {
        SameShape(p, q, l, m, n);
        HelperKept(p, q, l, m, k);
      }
    }
  }

  /** With a negative range of zero there is always a column ahead that will be split. */
  lemma {:induction false} SplitAhead(p: Lp, l: Limits, j: nat, k: nat) returns (h: nat)
    requires Sized(p) && l.negrange == 0.0 < l.infinite && 1 <= j < |p.cols| && KindOf(p.low[j], p.up[j], l) == Split
    ensures var q := Visit(p, l, k); k < h < |q.cols| && KindOf(q.low[h], q.up[h], l) == Split
  {
    if k == 0 {
      h := j;
    } else {
      h := SplitAhead(p, l, j, k - 1);
      var q := Visit(p, l, k - 1);
      if h == k {
        ZeroRangeSplits(q.low[h], q.up[h], l);
        h := |q.cols|;
      }
    }
  }

  // ------------------------------------------------------------------ the algorithm

  lemma NegNeg(c: seq<real>)
    ensures Neg(Neg(c)) == c
  {
  }

  /** A model that is changed in place. */
  class LpModel {
    var cols: seq<seq<real>>
    var low: seq<real>
    var up: seq<real>
    var isInt: seq<bool>
    /** For each column: -j (its own number) when it was flipped, the number of its helper when it was split,
        the negated number of the split column when it is a helper, 0 otherwise. */
    var isFree: seq<int>
    var best: seq<real>
    const limits: Limits

    function P(): Lp
      reads this
    {
      Lp(cols, low, up, isInt)
    }

    constructor (p: Lp, limits: Limits)
      requires Sized(p)
      ensures P() == p && this.limits == limits && |isFree| == |cols| && forall j :: 0 <= j < |isFree| ==> isFree[j] == 0
    {
      cols, low, up, isInt, this.limits := p.cols, p.low, p.up, p.isInt, limits;
      isFree := seq(|p.cols|, _ => 0);
      best := [];
    }

    /** The loop of `preprocess` over the columns, including those it adds. */
    method Preprocess()
      requires Sized(P()) && Sane(limits) && Ends(P(), limits) && |isFree| == |cols| && forall j :: 0 <= j < |isFree| ==> isFree[j] == 0
      modifies this`cols, this`low, this`up, this`isInt, this`isFree
      ensures IsTransformed(old(P()), P(), limits) && MarksAre(old(P()), limits, isFree, |old(cols)| - 1)
      ensures old(Bounded(P(), limits)) ==>
                && (forall j :: 1 <= j < |cols| && j < |low| ==> -limits.infinite < low[j] < limits.infinite)
                && (limits.negrange < 0.0 ==>
                      forall j :: 1 <= j < |cols| && j < |low| ==>
                        low[j] > limits.negrange || (j < |old(low)| && j < |old(up)| && old(low)[j] <= -limits.infinite && old(up)[j] < limits.infinite))
    {
      ghost var p := P();
      ghost var n := |cols| - 1;
      LoopEnds(p, limits);
      hide Transformed, MarksAre, Step, StepMarks, Ends, NoneSplit;
      NothingDone(p, limits, isFree);
      var j := 1;
      while j < |cols|
        invariant 1 <= j && Transformed(p, P(), limits, Min(j - 1, n)) && MarksAre(p, limits, isFree, Min(j - 1, n))
        decreases if j <= n then n - j + 1 else 0, |cols| - j
      {
        SameShape(p, P(), limits, isFree, Min(j - 1, n));
        if j <= n {
          StepDone(p, P(), limits, isFree, j);
        } else {
          HelperKept(p, P(), limits, isFree, j);
        }
        ProcessColumn(j);
        j := j + 1;
      }
      SameShape(p, P(), limits, isFree, Min(j - 1, n));
      BoundsAfter(p);
    }

    lemma BoundsAfter(p: Lp)
      requires IsTransformed(p, P(), limits) && Sane(limits)
      ensures Bounded(p, limits) ==>
                && (forall j :: 1 <= j < |cols| && j < |low| ==> -limits.infinite < low[j] < limits.infinite)
                && (limits.negrange < 0.0 ==>
                      forall j :: 1 <= j < |cols| && j < |low| ==>
                        low[j] > limits.negrange || (j < |p.low| && j < |p.up| && p.low[j] <= -limits.infinite && p.up[j] < limits.infinite))
    {
      if Bounded(p, limits) {
        forall j | 1 <= j < |cols| && j < |low|
          ensures -limits.infinite < low[j] < limits.infinite
          ensures limits.negrange < 0.0 ==>
                    low[j] > limits.negrange || (j < |p.low| && j < |p.up| && p.low[j] <= -limits.infinite && p.up[j] < limits.infinite)
        {
          TransformedBounds(p, P(), limits, j);
        }
      }
    }

    /** One column: flip it, split it or leave it. */
    method ProcessColumn(j: nat)
      requires Sized(P()) && |isFree| == |cols| && 1 <= j < |cols|
      modifies this`cols, this`low, this`up, this`isInt, this`isFree
      ensures P() == Step(old(P()), limits, j) && isFree == StepMarks(old(isFree), old(P()), limits, j)
    {
      var hold := up[j];
      if (hold < limits.infinite && Reals.Abs(low[j]) >= limits.infinite) || (hold < -limits.negrange && low[j] <= limits.negrange) {
        cols := cols[j := Neg(cols[j])];
        isFree := isFree[j := Negated(j)];
        up := up[j := -low[j]];
        low := low[j := -hold];
      } else if low[j] <= limits.negrange && hold >= -limits.negrange {
        cols, low, up := cols + [Neg(cols[j])], low + [0.0], up + [limits.infinite];
        isInt := isInt + [false];
        isFree := isFree[j := |cols| - 1] + [0];
        up := up[isFree[j] := -low[j]];
        low := low[j := 0.0];
        isFree := isFree[isFree[j] := Negated(j)];
        isInt := isInt[isFree[j] := isInt[j]];
      }
    }

    /** The loop of `postprocess`: restore the bounds and columns, and map the solution back. */
    method Postprocess(ghost p: Lp)
      requires IsTransformed(p, P(), limits) && MarksAre(p, limits, isFree, |p.cols| - 1) && |best| == |cols|
      modifies this`cols, this`low, this`up, this`isInt, this`isFree, this`best
      ensures P() == p && |best| == |old(best)|
      ensures forall j :: 1 <= j < |p.cols| ==> best[j] == BackAt(p, limits, old(best), j)
    {
      ghost var q, best0 := P(), best;
      ghost var n := |p.cols| - 1;
      hide IsTransformed, MarksAre, Restored, RestoreStep;
      NothingRestored(p, q, limits, isFree, best);
      var j := 1;
      while j < |cols|
        invariant 1 <= j <= |cols| == |q.cols| && |cols| >= |p.cols|
        invariant Restored(p, q, P(), limits, isFree, best0, best, j - 1)
      {
        RestoredShape(p, q, P(), limits, isFree, best0, best, j - 1);
        RestoreNext(p, q, P(), limits, isFree, best0, best, j);
        RestoreColumn(j);
        j := j + 1;
      }
      RestoredAll(p, q, P(), limits, isFree, best0, best);
      DeleteHelpers(p);
    }

    /** One column of `postprocess`. */
    method RestoreColumn(j: nat)
      requires Sized(P()) && |isFree| == |cols| == |best| && 1 <= j < |cols| && isFree[j] < |cols|
      modifies this`cols, this`low, this`up, this`isFree, this`best
      ensures (P(), isFree, best) == RestoreStep(old(P()), old(isFree), old(best), j)
    {
      if isFree[j] < 0 {
        if -isFree[j] == j {
          cols := cols[j := Neg(cols[j])];
          var hold := up[j];
          up := up[j := -low[j]];
          low := low[j := -hold];
          best := best[j := -best[j]];
          isFree := isFree[j := 0];
        }
      } else if isFree[j] > 0 {
        var ii := isFree[j];
        best := best[j := best[j] - best[ii]];
        best := best[ii := 0.0];
        low := low[j := -up[ii]];
      }
    }

    /** `del_splitvars`: delete the helper columns, from the last one down. */
    method DeleteHelpers(ghost p: Lp)
      requires Sized(P()) && Sized(p) && |isFree| == |cols| >= |p.cols|
      requires p.cols == cols[..|p.cols|] && p.low == low[..|p.cols|] && p.up == up[..|p.cols|] && p.isInt == isInt[..|p.cols|]
      requires forall j :: 1 <= j < |p.cols| ==> isFree[j] >= 0
      requires forall j :: |p.cols| <= j < |cols| ==> isFree[j] < 0 && -isFree[j] < |p.cols|
      modifies this`cols, this`low, this`up, this`isInt, this`isFree
      ensures P() == p
    {
      var j := |cols| - 1;
      while j >= 1
        invariant 0 <= j && |isFree| == |cols| == |low| == |up| == |isInt| == if j >= |p.cols| then j + 1 else |p.cols|
        invariant p.cols == cols[..|p.cols|] && p.low == low[..|p.cols|] && p.up == up[..|p.cols|] && p.isInt == isInt[..|p.cols|]
        invariant forall i :: 1 <= i < |p.cols| ==> isFree[i] >= 0
        invariant forall i :: |p.cols| <= i < |cols| ==> isFree[i] < 0 && -isFree[i] < |p.cols|
      {
        if isFree[j] < 0 && -isFree[j] != j {
          cols, low, up := cols[..j] + cols[j + 1..], low[..j] + low[j + 1..], up[..j] + up[j + 1..];
          isInt, isFree := isInt[..j] + isInt[j + 1..], isFree[..j] + isFree[j + 1..];
        }
        j := j - 1;
      }
    }
  }

  function Negated(j: int): int {
    -j
  }

  /** What one round of `preprocess` does to the model and to the marks. */
  function Step(q: Lp, l: Limits, j: nat): Lp
    requires Sized(q) && 1 <= j < |q.cols|
  {
    match KindOf(q.low[j], q.up[j], l)
    case Flip => Lp(q.cols[j := Neg(q.cols[j])], q.low[j := -q.up[j]], q.up[j := -q.low[j]], q.isInt)
    case Split => Lp(q.cols + [Neg(q.cols[j])], q.low[j := 0.0] + [0.0], q.up + [-q.low[j]], q.isInt + [q.isInt[j]])
    case Keep => q
  }

  function StepMarks(m: seq<int>, q: Lp, l: Limits, j: nat): seq<int>
    requires Sized(q) && 1 <= j < |q.cols| == |m|
  {
    match KindOf(q.low[j], q.up[j], l)
    case Flip => m[j := Negated(j)]
    case Split => m[j := |q.cols|] + [Negated(j)]
    case Keep => m
  }

  /** The mark of a column that has been dealt with. */
  function Mark(p: Lp, l: Limits, j: nat): int
    requires Sized(p) && j < |p.cols|
  {
    match KindOf(p.low[j], p.up[j], l)
    case Flip => Negated(j)
    case Split => Helper(p, l, j)
    case Keep => 0
  }

  /** The marks of columns 1..k and their helpers. */
  ghost predicate MarksAre(p: Lp, l: Limits, m: seq<int>, k: nat) {
    && Sized(p) && k < |p.cols| && |m| == |p.cols| + Splits(p, l, k)
    && (forall j :: 1 <= j < |p.cols| ==> m[j] == if j <= k then Mark(p, l, j) else 0)
    && (forall j :: 1 <= j <= k ==> HelperMarked(p, l, m, j))
  }

  ghost predicate HelperMarked(p: Lp, l: Limits, m: seq<int>, j: nat)
    requires Sized(p) && j < |p.cols|
  {
    KindOf(p.low[j], p.up[j], l) == Split ==> Helper(p, l, j) < |m| && m[Helper(p, l, j)] == Negated(j)
  }

  lemma NothingDone(p: Lp, l: Limits, m: seq<int>)
    requires Sized(p) && |m| == |p.cols| && forall j :: 0 <= j < |m| ==> m[j] == 0
    ensures Transformed(p, p, l, 0) && MarksAre(p, l, m, 0)
  {
  }

  lemma SameShape(p: Lp, q: Lp, l: Limits, m: seq<int>, k: nat)
    requires Transformed(p, q, l, k) && MarksAre(p, l, m, k)
    ensures Sized(p) && Sized(q) && |m| == |q.cols| >= |p.cols|
  {
  }

  lemma StepDone(p: Lp, q: Lp, l: Limits, m: seq<int>, j: nat)
    requires 1 <= j < |p.cols| && Transformed(p, q, l, j - 1) && MarksAre(p, l, m, j - 1)
    ensures Sized(q) && j < |q.cols| == |m|
    ensures Transformed(p, Step(q, l, j), l, j) && MarksAre(p, l, StepMarks(m, q, l, j), j)
  {
    assert ColumnSame(p, q, j);
    StepHere(p, q, l, m, j);
    forall i | 1 <= i < j ensures ColumnDone(p, Step(q, l, j), l, i) && HelperMarked(p, l, StepMarks(m, q, l, j), i) {
      StepBefore(p, q, l, m, j, i);
    }
    forall i | 0 <= i < |p.cols| && (i == 0 || i > j) ensures ColumnSame(p, Step(q, l, j), i) {
      assert ColumnSame(p, q, i);
    }
    hide ColumnDone, HelperMarked, ColumnSame, Helper;
  }

  /** The column that is dealt with, and its helper. */
  lemma StepHere(p: Lp, q: Lp, l: Limits, m: seq<int>, j: nat)
    requires 1 <= j < |p.cols| && Transformed(p, q, l, j - 1) && MarksAre(p, l, m, j - 1) && ColumnSame(p, q, j)
    ensures Sized(q) && j < |q.cols| == |m| && |p.cols| <= |Step(q, l, j).cols|
    ensures ColumnDone(p, Step(q, l, j), l, j) && HelperMarked(p, l, StepMarks(m, q, l, j), j)
  {
  }

  /** A column that was dealt with before, and its helper. */
  lemma StepBefore(p: Lp, q: Lp, l: Limits, m: seq<int>, j: nat, i: nat)
    requires 1 <= i < j < |p.cols| && Transformed(p, q, l, j - 1) && MarksAre(p, l, m, j - 1) && ColumnSame(p, q, j)
    ensures Sized(q) && j < |q.cols| == |m| && |p.cols| <= |Step(q, l, j).cols|
    ensures ColumnDone(p, Step(q, l, j), l, i) && HelperMarked(p, l, StepMarks(m, q, l, j), i)
  {
    SplitsGrow(p, l, i, j - 1);
    assert ColumnDone(p, q, l, i) && HelperMarked(p, l, m, i);
  }

  /** A helper column is left alone. */
  lemma HelperKept(p: Lp, q: Lp, l: Limits, m: seq<int>, j: nat)
    requires |p.cols| >= 1 && Transformed(p, q, l, |p.cols| - 1) && |p.cols| <= j < |q.cols| == |m|
    requires Sane(l) && (l.negrange < 0.0 || NoneSplit(p, l))
    ensures KindOf(q.low[j], q.up[j], l) == Keep && Step(q, l, j) == q && StepMarks(m, q, l, j) == m
  {
    var i := HelperOf(p, l, j - (|p.cols| - 1), |p.cols| - 1);
    assert ColumnDone(p, q, l, i);
  }

  /** What one round of `postprocess` does to the model, the marks and the solution. */
  function RestoreStep(q: Lp, m: seq<int>, best: seq<real>, j: nat): (Lp, seq<int>, seq<real>)
    requires Sized(q) && |m| == |q.cols| == |best| && 1 <= j < |q.cols| && m[j] < |q.cols|
  {
    if m[j] == Negated(j) then
      (Lp(q.cols[j := Neg(q.cols[j])], q.low[j := -q.up[j]], q.up[j := -q.low[j]], q.isInt), m[j := 0], best[j := -best[j]])
    else if m[j] > 0 then
      (q.(low := q.low[j := -q.up[m[j]]]), m, best[j := best[j] - best[m[j]]][m[j] := 0.0])
    else (q, m, best)
  }

  /** Columns 1..k are as in `p` again and have their values mapped back; `q` is the transformed model. */
  ghost predicate Restored(p: Lp, q: Lp, c: Lp, l: Limits, m: seq<int>, best0: seq<real>, best: seq<real>, k: nat) {
    && IsTransformed(p, q, l) && Sized(c) && |c.cols| == |q.cols| == |m| == |best| == |best0|
    && ColumnSame(p, c, 0)
    && (forall j :: 1 <= j < |p.cols| ==> ColumnRestored(p, q, c, l, m, best0, best, k, j))
    && (forall j :: |p.cols| <= j < |q.cols| ==> c.up[j] == q.up[j] && m[j] < 0 && -m[j] < |p.cols|)
  }

  ghost predicate ColumnRestored(p: Lp, q: Lp, c: Lp, l: Limits, m: seq<int>, best0: seq<real>, best: seq<real>, k: nat, j: nat)
    requires Sized(p) && Sized(q) && Sized(c) && IsTransformed(p, q, l)
    requires |c.cols| == |q.cols| == |m| == |best| == |best0| && 1 <= j < |p.cols|
  {
    if j <= k then ColumnSame(p, c, j) && best[j] == BackAt(p, l, best0, j) && m[j] >= 0
    else
      && ColumnSame(Prefix(q, |p.cols|), c, j) && best[j] == best0[j] && m[j] == Mark(p, l, j)
      && (KindOf(p.low[j], p.up[j], l) == Split ==> Helper(p, l, j) < |best| && best[Helper(p, l, j)] == best0[Helper(p, l, j)])
  }

  ghost function Prefix(q: Lp, n: nat): Lp
    requires Sized(q) && 1 <= n <= |q.cols|
  {
    Lp(q.cols[..n], q.low[..n], q.up[..n], q.isInt[..n])
  }

  lemma NothingRestored(p: Lp, q: Lp, l: Limits, m: seq<int>, best: seq<real>)
    requires IsTransformed(p, q, l) && MarksAre(p, l, m, |p.cols| - 1) && |best| == |q.cols|
    ensures Restored(p, q, q, l, m, best, best, 0) && |q.cols| >= |p.cols| >= 1
  {
    forall j | 1 <= j < |p.cols| ensures ColumnRestored(p, q, q, l, m, best, best, 0, j) {
      assert HelperMarked(p, l, m, j);
    }
    forall j | |p.cols| <= j < |q.cols| ensures m[j] < 0 && -m[j] < |p.cols| {
      var i := HelperOf(p, l, j - (|p.cols| - 1), |p.cols| - 1);
      assert HelperMarked(p, l, m, i);
    }
  }

  lemma RestoredShape(p: Lp, q: Lp, c: Lp, l: Limits, m: seq<int>, best0: seq<real>, best: seq<real>, k: nat)
    requires Restored(p, q, c, l, m, best0, best, k)
    ensures Sized(c) && |c.cols| == |q.cols| == |m| == |best| >= |p.cols| >= 1
    ensures forall j :: 1 <= j < |m| ==> m[j] < |c.cols| || j <= k
  {
    forall j | k < j < |m| && 1 <= j ensures m[j] < |c.cols| {
      if j < |p.cols| {
        assert ColumnRestored(p, q, c, l, m, best0, best, k, j);
        SplitsGrow(p, l, j, |p.cols| - 1);
      }
    }
  }

  lemma RestoreNext(p: Lp, q: Lp, c: Lp, l: Limits, m: seq<int>, best0: seq<real>, best: seq<real>, j: nat)
    requires 1 <= j < |q.cols| && Restored(p, q, c, l, m, best0, best, j - 1)
    requires Sized(c) && |m| == |c.cols| == |best| && m[j] < |c.cols|
    ensures var (c', m', best') := RestoreStep(c, m, best, j); Restored(p, q, c', l, m', best0, best', j)
  {
    var (c', m', best') := RestoreStep(c, m, best, j);
    forall i | 1 <= i < |p.cols| ensures ColumnRestored(p, q, c', l, m', best0, best', j, i) {
      assert ColumnRestored(p, q, c, l, m, best0, best, j - 1, i);
      if i == j {
        RestoreHere(p, q, c, l, m, best0, best, j);
      } else if j < |p.cols| {
        RestoreOther(p, q, c, l, m, best0, best, j, i);
      }
    }
  }

  lemma RestoreHere(p: Lp, q: Lp, c: Lp, l: Limits, m: seq<int>, best0: seq<real>, best: seq<real>, j: nat)
    requires 1 <= j < |p.cols| && Restored(p, q, c, l, m, best0, best, j - 1) && m[j] < |c.cols|
    ensures var (c', m', best') := RestoreStep(c, m, best, j); ColumnRestored(p, q, c', l, m', best0, best', j, j)
  {
    assert ColumnRestored(p, q, c, l, m, best0, best, j - 1, j);
    assert ColumnDone(p, q, l, j);
    NegNeg(p.cols[j]);
  }

  lemma RestoreOther(p: Lp, q: Lp, c: Lp, l: Limits, m: seq<int>, best0: seq<real>, best: seq<real>, j: nat, i: nat)
    requires 1 <= j < |p.cols| && Restored(p, q, c, l, m, best0, best, j - 1) && m[j] < |c.cols| && 1 <= i < |p.cols| && i != j
    ensures var (c', m', best') := RestoreStep(c, m, best, j); ColumnRestored(p, q, c', l, m', best0, best', j, i)
  {
    assert ColumnRestored(p, q, c, l, m, best0, best, j - 1, i);
    assert ColumnRestored(p, q, c, l, m, best0, best, j - 1, j);
    if i > j {
      SplitsGrow(p, l, j, i);
    }
    SplitsGrow(p, l, j, |p.cols| - 1);
  }

  lemma RestoredAll(p: Lp, q: Lp, c: Lp, l: Limits, m: seq<int>, best0: seq<real>, best: seq<real>)
    requires |q.cols| >= 1 && Restored(p, q, c, l, m, best0, best, |q.cols| - 1)
    ensures Sized(p) && Sized(c) && |m| == |c.cols| == |best| == |best0| >= |p.cols| && p == Prefix(c, |p.cols|)
    ensures forall j :: 1 <= j < |p.cols| ==> m[j] >= 0 && best[j] == BackAt(p, l, best0, j)
    ensures forall j :: |p.cols| <= j < |c.cols| ==> m[j] < 0 && -m[j] < |p.cols|
  {
    forall j | 0 <= j < |p.cols| ensures ColumnSame(p, c, j) && (j >= 1 ==> m[j] >= 0 && best[j] == BackAt(p, l, best0, j)) {
      if j >= 1 {
        assert ColumnRestored(p, q, c, l, m, best0, best, |q.cols| - 1, j);
      }
    }
    var f := Prefix(c, |p.cols|);
    forall j | 0 <= j < |p.cols|
      ensures p.cols[j] == f.cols[j] && p.low[j] == f.low[j] && p.up[j] == f.up[j] && p.isInt[j] == f.isInt[j]
    {
      assert ColumnSame(p, c, j);
    }
    assert p.cols == f.cols && p.low == f.low && p.up == f.up && p.isInt == f.isInt;
  }
}
