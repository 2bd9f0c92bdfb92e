/** How one branch-and-bound node splits an integer column (`fillbranches_BB`) and how it uses
    reduced costs (`rcfbound_BB`), both in lp_mipbb.c. Scaling, semicontinuous columns, special
    ordered sets and GUB rows are not part of this model. */
module Branching {
  import opened Reals
  import opened BoundTests

  predicate IsInt(x: real) {
    x == x.Floor as real
  }

  function Ceil(x: real): (c: int)
    ensures c as real - 1.0 < x <= c as real
  {
    -((-x).Floor)
  }

  datatype Option<T> = None | Some(value: T)

  /** Bounds to impose on the two branches, how many branches remain, and which comes first. */
  datatype Branches = Branches(nodesleft: int, upBound: real, loBound: real, isfloor: bool)

  function AvoidTiny(x: real, eps: real): real {
    if Abs(x) < eps then 0.0 else x
  }

  /** Upper bound of the floor branch, if that branch is kept. Note the sign of the adjustment when
      the floor is below the current lower bound: the value is reflected to the other side of it. */
  function FloorBound(v: real, ultLo: real, ultUp: real, lo: real, margin: real): Option<real> {
    var floor := v.Floor as real;
    if (ultLo >= 0.0 && floor < ultLo - margin) || (ultUp <= 0.0 && floor > ultUp - margin) then None
    else
      var bound := if floor < lo then lo - AvoidTiny(floor - lo, margin) else floor;
      if bound < lo then None
      else if Abs(bound - lo) < margin * 1.6 then Some(lo)
      else Some(bound)
  }

  /** Lower bound of the ceiling branch, if that branch is kept. */
  function CeilBound(v: real, ultUp: real, up: real, margin: real): Option<real> {
    var ceil := Ceil(v) as real;
    if ceil == v || ceil > ultUp + margin then None
    else
      var bound := if ceil > up then up + AvoidTiny(ceil - up, margin) else ceil;
      if bound > up then None
      else if Abs(up - bound) < margin * 1.6 then Some(up)
      else Some(bound)
  }

  function FillBranches(v: real, ultLo: real, ultUp: real, lo: real, up: real, margin: real, floorFirst: bool): Branches {
    var u := FloorBound(v, ultLo, ultUp, lo, margin);
    var l := CeilBound(v, ultUp, up, margin);
    var upB := if u.Some? then u.value else INFINITE;
    var loB := if l.Some? then l.value else -INFINITE;
    var left := 2 - (if u.None? then 1 else 0) - (if l.None? then 1 else 0);
    if left <= 0 then Branches(left, upB, loB, floorFirst)
    else
      var same := Abs(loB - upB) < margin;
      var left' := if same then left - 1 else left;
      var first := if same && Abs(lo - loB) < margin then false
                   else if same && Abs(up - upB) < margin then true
                   else floorFirst;
      var flip := left' == 1 && ((first && upB >= INFINITE) || (!first && loB <= -INFINITE));
      Branches(left', upB, loB, if flip then !first else first)
  }

  // ------------------------------------------------------------------ covering

  /** With integral bounds around a fractional value both branches are kept, the requested one comes
      first, and the bounds are the two integers next to the value. */
  lemma IntegralNode(v: real, ultLo: real, ultUp: real, lo: real, up: real, margin: real, floorFirst: bool)
    requires 0.0 <= margin < 0.5
    requires IsInt(lo) && IsInt(up) && ultLo <= lo <= v <= up <= ultUp && !IsInt(v)
    ensures FillBranches(v, ultLo, ultUp, lo, up, margin, floorFirst)
         == Branches(2, v.Floor as real, v.Floor as real + 1.0, floorFirst)
    ensures lo.Floor <= v.Floor < up.Floor
  {
    assert Ceil(v) == v.Floor + 1;
  }

  /** The two branches of such a node are disjoint, nonempty, inside the node and cover its integers. */
  lemma BranchesPartition(v: real, ultLo: real, ultUp: real, lo: real, up: real, margin: real, floorFirst: bool)
    requires 0.0 <= margin < 0.5
    requires IsInt(lo) && IsInt(up) && ultLo <= lo <= v <= up <= ultUp && !IsInt(v)
    ensures var b := FillBranches(v, ultLo, ultUp, lo, up, margin, floorFirst);
            && (forall y: real :: IsInt(y) && lo <= y <= up ==> (y <= b.upBound <==> !(b.loBound <= y)))
            && lo <= b.upBound < up && lo < b.loBound <= up
            && !(b.upBound >= v) && !(b.loBound <= v)
  {
    IntegralNode(v, ultLo, ultUp, lo, up, margin, floorFirst);
    forall y: real | IsInt(y) && lo <= y <= up
      ensures y <= v.Floor as real <==> !(v.Floor as real + 1.0 <= y)
    {
      SplitAt(y, v);
    }
  }

  lemma SplitAt(y: real, v: real)
    requires IsInt(y)
    ensures y <= v.Floor as real <==> !(v.Floor as real + 1.0 <= y)
  {
    assert y.Floor <= v.Floor <==> !(v.Floor + 1 <= y.Floor);
  }

  /** Without integral bounds the floor branch can leave the node's box. For a column at its original
      bounds it stays inside (or is dropped) for every relaxation value exactly when the lower bound is
      nonnegative, or an integer, or far enough below the upper bound. */
  lemma FloorBranchInside(lo: real, up: real)
    requires lo <= up
    ensures (forall v: real :: lo <= v <= up ==>
               var b := FloorBound(v, lo, up, lo, 0.0); b.Some? ==> lo <= b.value <= up)
       <==> (0.0 <= lo || IsInt(lo) || lo - lo.Floor as real <= up - lo)
  {
    if 0.0 <= lo || IsInt(lo) || lo - lo.Floor as real <= up - lo {
      forall v: real | lo <= v <= up ensures var b := FloorBound(v, lo, up, lo, 0.0); b.Some? ==> lo <= b.value <= up {
        FloorInside(lo, up, v);
      }
    } else {
      var b := FloorBound(lo, lo, up, lo, 0.0);
      assert b == Some(lo - (lo.Floor as real - lo));
    }
  }

  lemma FloorInside(lo: real, up: real, v: real)
    requires lo <= v <= up && (0.0 <= lo || IsInt(lo) || lo - lo.Floor as real <= up - lo)
    ensures var b := FloorBound(v, lo, up, lo, 0.0); b.Some? ==> lo <= b.value <= up
  {
  }

  /** An integer column with bounds [-2.5, -2.4] holds no integer, yet its floor branch allows -2. */
  lemma FloorBranchEscapes()
    ensures FillBranches(-2.45, -2.5, -2.4, -2.5, -2.4, 0.0, true) == Branches(1, -2.0, -INFINITE, true)
  {
    assert (-2.45).Floor == -3;
    assert Ceil(-2.45) == -2;
  }

  /** A node is left without any branch, so that it is handed back to be solved again unchanged,
      exactly when its column has nonnegative bounds with no integer between them. */
  lemma NoBranchLeft(v: real, ultLo: real, ultUp: real, lo: real, up: real, floorFirst: bool)
    requires ultLo <= lo <= v <= up <= ultUp && !IsInt(v) && -INFINITE < lo && up < INFINITE
    ensures FillBranches(v, ultLo, ultUp, lo, up, 0.0, floorFirst).nodesleft == 0
       <==> 0.0 <= ultLo && (v.Floor as real) < ultLo && up < Ceil(v) as real
  {
    assert Ceil(v) == v.Floor + 1;
  }

  // ------------------------------------------------------------------ reduced costs

  /** What `rcfbound_BB` finds: nothing, or a new upper or lower bound (and whether it fixes the column
      and whether the range stays nonempty). */
  datatype Rcf = Free | Tighten(upper: bool, bound: real, fixes: bool, feasible: bool)

  /** Tolerances: `tol` is epsprimal, `epsint` the integer tolerance, `epspivot` the smallest
      reduced cost that is divided by. */
  function RcfBound(isBasic: bool, isLower: bool, isInt: bool, drow: real, lo: real, up: real,
                    deltaOF: real, tol: real, epsint: real, epspivot: real): Rcf
    requires epspivot > 0.0
  {
    if isBasic || up - lo <= tol then Free
    else
      var rc := ChSign(!isLower, drow);
      if rc < epspivot then Free
      else
        var dist := deltaOF / rc;
        if dist >= up - lo + epsint then Free
        else if isLower then
          var newUp := lo + (if isInt then (dist + tol).Floor as real else dist);
          Tighten(true, newUp, !(newUp - lo < -tol) && Abs(newUp - lo) < tol, !(newUp - lo < -tol))
        else
          var newLo := up - (if isInt then Ceil(dist + tol) as real else dist);
          Tighten(false, newLo, !(up - newLo < -tol) && Abs(up - newLo) < tol, !(up - newLo < -tol))
  }

  /** When a bound is tightened, and to what: the column is nonbasic and not fixed, and its reduced cost makes
      the objective pass the gap before the other end of its range. The new distance from the active bound uses
      up the gap exactly; for an integer column it is the whole number that comes from rounding it. */
  lemma RcfExact(isBasic: bool, isLower: bool, isInt: bool, drow: real, lo: real, up: real,
                 deltaOF: real, tol: real, epsint: real, epspivot: real)
    requires epspivot > 0.0
    ensures var rc := if isLower then drow else -drow;
            var r := RcfBound(isBasic, isLower, isInt, drow, lo, up, deltaOF, tol, epsint, epspivot);
            && (r.Tighten? <==> !isBasic && up - lo > tol && rc >= epspivot && deltaOF < Cost(up - lo + epsint, rc))
            && (r.Tighten? ==>
                  var d := if isLower then r.bound - lo else up - r.bound;
                  && r.upper == isLower && (r.feasible <==> d >= -tol) && (r.fixes <==> r.feasible && -tol < d < tol)
                  && (!isInt ==> Cost(d, rc) == deltaOF)
                  && (isInt && isLower ==> IsInt(d) && Cost(d - tol, rc) <= deltaOF < Cost(d + 1.0 - tol, rc))
                  && (isInt && !isLower ==> IsInt(d) && Cost(d - 1.0 - tol, rc) < deltaOF <= Cost(d - tol, rc)))
  {
    var rc := if isLower then drow else -drow;
    RcfShape(isBasic, isLower, isInt, drow, lo, up, deltaOF, tol, epsint, epspivot);
    hide *;
    if rc >= epspivot {
      CostBelow(deltaOF, rc, up - lo + epsint);
      DownGap(deltaOF, rc, tol);
      UpGap(deltaOF, rc, tol);
    }
  }

  /** The bound in terms of the distance that the gap allows. */
  lemma RcfShape(isBasic: bool, isLower: bool, isInt: bool, drow: real, lo: real, up: real,
                 deltaOF: real, tol: real, epsint: real, epspivot: real)
    requires epspivot > 0.0
    ensures var rc := if isLower then drow else -drow;
            var r := RcfBound(isBasic, isLower, isInt, drow, lo, up, deltaOF, tol, epsint, epspivot);
            if rc < epspivot then r.Free?
            else
              var dist := deltaOF / rc;
              && (r.Tighten? <==> !isBasic && up - lo > tol && dist < up - lo + epsint)
              && (r.Tighten? ==>
                    var d := if isLower then r.bound - lo else up - r.bound;
                    && r.upper == isLower && (r.feasible <==> d >= -tol) && (r.fixes <==> r.feasible && -tol < d < tol)
                    && d == if !isInt then dist else if isLower then (dist + tol).Floor as real else Ceil(dist + tol) as real)
  {
  }

  /** What a distance from the active bound costs at reduced cost `rc`. */
  function Cost(d: real, rc: real): real {
    d * rc
  }

  lemma CostBelow(gap: real, rc: real, t: real)
    requires rc > 0.0
    ensures gap / rc < t <==> gap < Cost(t, rc)
  {
    QuotientBelow(gap, rc, t);
  }

  lemma DownGap(gap: real, rc: real, tol: real)
    requires rc > 0.0
    ensures var k := (gap / rc + tol).Floor as real;
            IsInt(k) && Cost(k - tol, rc) <= gap < Cost(k + 1.0 - tol, rc) && Cost(gap / rc, rc) == gap
  {
    var k := (gap / rc + tol).Floor as real;
    QuotientBelow(gap, rc, k - tol);
    QuotientBelow(gap, rc, k + 1.0 - tol);
  }

  lemma UpGap(gap: real, rc: real, tol: real)
    requires rc > 0.0
    ensures var k := Ceil(gap / rc + tol) as real;
            IsInt(k) && Cost(k - 1.0 - tol, rc) < gap <= Cost(k - tol, rc)
  {
    var k := Ceil(gap / rc + tol) as real;
    QuotientAbove(gap, rc, k - tol);
    QuotientAbove(gap, rc, k - 1.0 - tol);
  }

  lemma QuotientAbove(x: real, d: real, t: real)
    requires d > 0.0
    ensures x / d > t <==> x > t * d
  {
    var q := x / d;
    assert q * d == x;
    assert (q - t) * d == q * d - t * d;
    if q > t {
      assert (q - t) * d > 0.0;
    } else {
      Product(t - q, d);
      assert (t - q) * d == -((q - t) * d);
    }
  }

  /** A tightened bound cuts off only points whose objective exceeds the relaxation by more than `deltaOF`:
      here `y` is a value of the column and the last premise is the reduced-cost bound on its objective. */
  lemma RcfSound(isBasic: bool, isLower: bool, isInt: bool, drow: real, lo: real, up: real,
                 deltaOF: real, tol: real, epsint: real, epspivot: real, y: real, z: real, fy: real)
    requires epspivot > 0.0 && tol >= 0.0 && deltaOF >= 0.0
    requires lo <= y <= up && (isInt ==> IsInt(y)) && (isInt && isLower ==> IsInt(lo))
    requires fy >= z + ChSign(!isLower, drow) * (if isLower then y - lo else up - y)
    ensures var r := RcfBound(isBasic, isLower, isInt, drow, lo, up, deltaOF, tol, epsint, epspivot);
            r.Tighten? ==>
              && r.upper == isLower && r.feasible
              && (r.upper ==> lo <= r.bound) && (!r.upper ==> r.bound <= up)
              && ((if r.upper then y > r.bound else y < r.bound) ==> fy > z + deltaOF)
  {
    var r := RcfBound(isBasic, isLower, isInt, drow, lo, up, deltaOF, tol, epsint, epspivot);
    if r.Tighten? {
      var rc := ChSign(!isLower, drow);
      var dist := deltaOF / rc;
      QuotientBelow(deltaOF, rc, 0.0);
      assert dist >= 0.0;
      var gap := if isLower then y - lo else up - y;
      if (if r.upper then y > r.bound else y < r.bound) {
        assert gap > dist by {
          if isInt && isLower {
            assert y.Floor - lo.Floor > (dist + tol).Floor;
          }
        }
        QuotientBelow(deltaOF, rc, gap);
        assert gap * rc == rc * gap;
      }
    }
  }

  /** What `push_BB` makes of a bound found from a reduced cost: it never leaves the column's range. */
  function Clamped(r: Rcf, lo: real, up: real): real
    requires r.Tighten?
  {
    if r.upper then Max(Min(r.bound, up), lo) else Min(Max(r.bound, lo), up)
  }

  /** What the reduced cost says the objective worsens by between the active bound and `y`. */
  function Slope(isLower: bool, drow: real, lo: real, up: real, y: real): real {
    ChSign(!isLower, drow) * (if isLower then y - lo else up - y)
  }

  /** The clamped bound cuts off no more than the bound itself. */
  lemma ClampSound(isBasic: bool, isLower: bool, isInt: bool, drow: real, lo: real, up: real,
                   deltaOF: real, tol: real, epsint: real, epspivot: real, y: real, z: real, fy: real)
    requires epspivot > 0.0 && tol >= 0.0 && deltaOF >= 0.0
    requires lo <= y <= up && (isInt ==> IsInt(y)) && (isInt && isLower ==> IsInt(lo))
    requires fy >= z + Slope(isLower, drow, lo, up, y)
    ensures var r := RcfBound(isBasic, isLower, isInt, drow, lo, up, deltaOF, tol, epsint, epspivot);
            r.Tighten? && (if r.upper then y > Clamped(r, lo, up) else y < Clamped(r, lo, up)) ==> fy > z + deltaOF
  {
    hide RcfBound;
    RcfSound(isBasic, isLower, isInt, drow, lo, up, deltaOF, tol, epsint, epspivot, y, z, fy);
  }

  /** Rounding the distance `dist` down keeps the integer `y` if `y` is within that distance of `lo`. */
  predicate RoundingKeeps(lo: real, dist: real, y: int) {
    0.0 <= dist && lo <= y as real <= lo + dist ==> y as real <= lo + dist.Floor as real
  }

  /** Rounding the distance down is sound for every distance exactly when the column's lower bound is
      an integer; for a column at its upper bound the code rounds up, which is always sound. */
  lemma RoundingNeedsIntegralLower(lo: real)
    ensures (forall dist: real, y: int :: RoundingKeeps(lo, dist, y)) <==> IsInt(lo)
  {
    if IsInt(lo) {
      forall dist: real, y: int ensures RoundingKeeps(lo, dist, y) {
        RoundDown(lo, dist, y);
      }
    } else {
      var dist, y := Ceil(lo) as real - lo, Ceil(lo);
      assert dist.Floor == 0;
      assert !RoundingKeeps(lo, dist, y);
    }
  }

  lemma RoundDown(lo: real, dist: real, y: int)
    requires IsInt(lo)
    ensures RoundingKeeps(lo, dist, y)
  {
    var i, d := lo.Floor, dist.Floor;
    if lo <= y as real <= lo + dist {
      var k := y - i;
      assert k as real == y as real - lo;
      assert k as real <= dist < d as real + 1.0;
      assert k < d + 1;
    }
  }
}
