/** The steepest-edge weights of lp_pricePSE.c in exact arithmetic. Vectors are 1-based, as in the source:
    index 0 is not used. The factorization (`bsolve`, `fsolve`, `bfp_ftran_normal`) is represented by the
    equations its results solve. */
module SteepestEdge {
  import opened Reals

  // ------------------------------------------------------------------ products and sums

  /** The product, as a function of its own so that proofs about vectors stay linear. */
  function Mul(x: real, y: real): real {
    x * y
  }

  lemma MulSquare(a: real)
    ensures Mul(a, a) >= 0.0 && (a != 0.0 ==> Mul(a, a) > 0.0)
  {
    if a > 0.0 {
      MulPositive(a, a);
    } else if a < 0.0 {
      MulPositive(-a, -a);
      MulNegated(a, a);
    }
  }

  lemma MulPositive(a: real, b: real)
    requires a > 0.0 && b > 0.0
    ensures Mul(a, b) > 0.0
  {
  }

  lemma MulZero(a: real)
    ensures Mul(a, 0.0) == 0.0 && Mul(0.0, a) == 0.0 && Mul(a, 1.0) == a && Mul(1.0, a) == a
  {
  }

  lemma MulCommutes(a: real, b: real)
    ensures Mul(a, b) == Mul(b, a)
  {
  }

  lemma MulDistributes(a: real, c: real, b: real, e: real)
    ensures Mul(a + Mul(c, b), e) == Mul(a, e) + Mul(c, Mul(b, e))
    ensures Mul(e, a + Mul(c, b)) == Mul(e, a) + Mul(c, Mul(e, b))
  {
    var p := b * e;
    assert (a + c * b) * e == a * e + c * b * e;
  }

  lemma MulSum(c: real, a: real, b: real)
    ensures Mul(c, a + b) == Mul(c, a) + Mul(c, b)
  {
  }

  lemma MulAssoc(a: real, b: real, c: real)
    ensures Mul(a, Mul(b, c)) == Mul(Mul(a, b), c)
  {
  }

  lemma DivMul(x: real, d: real)
    requires d != 0.0
    ensures Mul(x / d, d) == x
  {
  }

  /** Inner product of the entries 1..k. */
  ghost function Dot(x: seq<real>, y: seq<real>, k: nat): real
    requires k < |x| && k < |y|
  {
    if k == 0 then 0.0 else Dot(x, y, k - 1) + Mul(x[k], y[k])
  }

  lemma {:induction false} DotSymmetric(x: seq<real>, y: seq<real>, k: nat)
    requires k < |x| && k < |y|
    ensures Dot(x, y, k) == Dot(y, x, k)
  {
    hide Mul;
    if k > 0 {
      DotSymmetric(x, y, k - 1);
      MulCommutes(x[k], y[k]);
    }
  }

  /** `z` is `x` plus `c` times `y` on the entries 1..k. */
  ghost predicate IsSum(z: seq<real>, x: seq<real>, c: real, y: seq<real>, k: nat) {
    k < |z| && k < |x| && k < |y| && forall t :: 1 <= t <= k ==> z[t] == x[t] + Mul(c, y[t])
  }

  lemma {:induction false} DotLinear(z: seq<real>, x: seq<real>, c: real, y: seq<real>, d: seq<real>, k: nat)
    requires IsSum(z, x, c, y, k) && k < |d|
    ensures Dot(z, d, k) == Dot(x, d, k) + Mul(c, Dot(y, d, k))
    ensures Dot(d, z, k) == Dot(d, x, k) + Mul(c, Dot(d, y, k))
  {
    hide Mul;
    MulZero(c);
    if k > 0 {
      DotLinear(z, x, c, y, d, k - 1);
      MulDistributes(x[k], c, y[k], d[k]);
      MulSum(c, Dot(y, d, k - 1), Mul(y[k], d[k]));
      MulSum(c, Dot(d, y, k - 1), Mul(d[k], y[k]));
    }
  }

  /** The squared norm of a sum. */
  lemma NormOfSum(z: seq<real>, x: seq<real>, c: real, y: seq<real>, k: nat)
    requires IsSum(z, x, c, y, k)
    ensures Dot(z, z, k) == Dot(x, x, k) + 2.0 * Mul(c, Dot(x, y, k)) + Mul(Mul(c, c), Dot(y, y, k))
  {
    hide Dot, Mul;
    DotLinear(z, x, c, y, z, k);
    DotLinear(z, x, c, y, x, k);
    DotLinear(z, x, c, y, y, k);
    DotSymmetric(x, y, k);
    MulSum(c, Dot(x, y, k), Mul(c, Dot(y, y, k)));
    MulAssoc(c, c, Dot(y, y, k));
  }

  lemma {:induction false} NormAtLeast(x: seq<real>, k: nat, r: nat)
    requires k < |x|
    ensures Dot(x, x, k) >= 0.0
    ensures 1 <= r <= k ==> Dot(x, x, k) >= Mul(x[r], x[r])
  {
    hide Mul;
    if k > 0 {
      NormAtLeast(x, k - 1, r);
      MulSquare(x[k]);
    }
  }

  /** A vector whose inner product with some vector is not zero has a positive squared norm. */
  lemma {:induction false} NormPositive(x: seq<real>, y: seq<real>, k: nat)
    requires k < |x| && k < |y| && Dot(x, y, k) != 0.0
    ensures Dot(x, x, k) > 0.0
  {
    hide Mul;
    if k > 0 {
      MulSquare(x[k]);
      if x[k] == 0.0 {
        MulZero(y[k]);
        NormPositive(x, y, k - 1);
      } else {
        NormAtLeast(x, k, k);
      }
    }
  }

  // ------------------------------------------------------------------ bases

  /** The constraint matrix by columns; `vb[1..m]` are the basic columns, as in `var_basic`. */
  ghost predicate Shaped(A: seq<seq<real>>, vb: seq<nat>, m: nat) {
    && |vb| == m + 1
    && (forall j :: 0 <= j < |A| ==> |A[j]| == m + 1)
    && (forall i :: 1 <= i <= m ==> 1 <= vb[i] < |A|)
  }

  ghost predicate Distinct(vb: seq<nat>) {
    forall i, k :: 1 <= i < k < |vb| ==> vb[i] != vb[k]
  }

  /** Row `i` of `rho` times basic column `k` is 1 if i == k and else 0. */
  ghost predicate IsInverse(A: seq<seq<real>>, vb: seq<nat>, rho: seq<seq<real>>, m: nat)
    requires Shaped(A, vb, m)
  {
    && |rho| == m + 1 && (forall i :: 1 <= i <= m ==> |rho[i]| == m + 1)
    && forall i, k :: 1 <= i <= m && 1 <= k <= m ==> Dot(rho[i], A[vb[k]], m) == if i == k then 1.0 else 0.0
  }

  /** Entry `t` of the combination of the first `k` basic columns with coefficients `c`. */
  ghost function CombAt(A: seq<seq<real>>, vb: seq<nat>, c: seq<real>, t: nat, m: nat, k: nat): real
    requires Shaped(A, vb, m) && k <= m && |c| == m + 1 && t <= m
  {
    if k == 0 then 0.0 else CombAt(A, vb, c, t, m, k - 1) + Mul(c[k], A[vb[k]][t])
  }

  /** `c` solves the system with the basis matrix and right-hand side `v`. */
  ghost predicate Solves(A: seq<seq<real>>, vb: seq<nat>, c: seq<real>, v: seq<real>, m: nat)
    requires Shaped(A, vb, m)
  {
    |c| == m + 1 && |v| == m + 1 && forall t :: 1 <= t <= m ==> CombAt(A, vb, c, t, m, m) == v[t]
  }

  /** Weighted sum of the inner products of `y` with the first `k` basic columns. */
  ghost function DotSum(A: seq<seq<real>>, vb: seq<nat>, c: seq<real>, y: seq<real>, m: nat, k: nat): real
    requires Shaped(A, vb, m) && k <= m && |c| == m + 1 && |y| == m + 1
  {
    if k == 0 then 0.0 else DotSum(A, vb, c, y, m, k - 1) + Mul(c[k], Dot(y, A[vb[k]], m))
  }

  lemma {:induction false} DotComb(A: seq<seq<real>>, vb: seq<nat>, c: seq<real>, y: seq<real>, m: nat, k: nat, v: seq<real>)
    requires Shaped(A, vb, m) && k <= m && |c| == m + 1 && |y| == m + 1 && |v| == m + 1
    requires forall t :: 1 <= t <= m ==> CombAt(A, vb, c, t, m, k) == v[t]
    ensures Dot(y, v, m) == DotSum(A, vb, c, y, m, k)
  {
    hide Mul;
    if k == 0 {
      DotZero(y, v, m);
    } else {
      var u := seq(m + 1, t requires 0 <= t <= m => CombAt(A, vb, c, t, m, k - 1));
      DotComb(A, vb, c, y, m, k - 1, u);
      assert IsSum(v, u, c[k], A[vb[k]], m);
      DotLinear(v, u, c[k], A[vb[k]], y, m);
    }
  }

  lemma {:induction false} DotZero(y: seq<real>, v: seq<real>, k: nat)
    requires k < |y| && k < |v| && forall t :: 1 <= t <= k ==> v[t] == 0.0
    ensures Dot(y, v, k) == 0.0
  {
    hide Mul;
    if k > 0 {
      MulZero(y[k]);
      DotZero(y, v, k - 1);
    }
  }

  lemma {:induction false} DotSumUnit(A: seq<seq<real>>, vb: seq<nat>, rho: seq<seq<real>>, c: seq<real>, m: nat, i: nat, k: nat)
    requires Shaped(A, vb, m) && IsInverse(A, vb, rho, m) && |c| == m + 1 && 1 <= i <= m && k <= m
    ensures DotSum(A, vb, c, rho[i], m, k) == if i <= k then c[i] else 0.0
  {
    hide Mul;
    if k > 0 {
      MulZero(c[k]);
      DotSumUnit(A, vb, rho, c, m, i, k - 1);
    }
  }

  /** A row of the inverse picks out its entry of the solution of a basis system. */
  lemma InverseRow(A: seq<seq<real>>, vb: seq<nat>, rho: seq<seq<real>>, c: seq<real>, v: seq<real>, m: nat, i: nat)
    requires Shaped(A, vb, m) && IsInverse(A, vb, rho, m) && Solves(A, vb, c, v, m) && 1 <= i <= m
    ensures Dot(rho[i], v, m) == c[i]
  {
    DotComb(A, vb, c, rho[i], m, m, v);
    DotSumUnit(A, vb, rho, c, m, i, m);
  }

  // ------------------------------------------------------------------ dual weights

  /** Every basic column's weight is the squared norm of its row of the basis inverse. */
  ghost predicate TrueDual(edge: seq<real>, vb: seq<nat>, rho: seq<seq<real>>, m: nat) {
    && |vb| == m + 1 == |rho|
    && forall i :: 1 <= i <= m ==> vb[i] < |edge| && |rho[i]| == m + 1 && edge[vb[i]] == Dot(rho[i], rho[i], m)
  }

  /** The rows of the inverse after column `q` has replaced the basic column of row `r`. */
  ghost function PivotRows(rho: seq<seq<real>>, w: seq<real>, r: nat, m: nat): (rows: seq<seq<real>>)
    requires |rho| == m + 1 && |w| == m + 1 && 1 <= r <= m && w[r] != 0.0
    requires forall i :: 1 <= i <= m ==> |rho[i]| == m + 1
    ensures |rows| == m + 1
  {
    seq(m + 1, i requires 0 <= i <= m =>
      if i == 0 then rho[0]
      else seq(m + 1, t requires 0 <= t <= m =>
             if i == r then rho[r][t] / w[r] else rho[i][t] + Mul(-(w[i] / w[r]), rho[r][t])))
  }

  lemma PivotRowSum(rho: seq<seq<real>>, w: seq<real>, r: nat, m: nat, i: nat)
    requires |rho| == m + 1 && |w| == m + 1 && 1 <= r <= m && w[r] != 0.0 && 1 <= i <= m
    requires forall k :: 1 <= k <= m ==> |rho[k]| == m + 1
    ensures |PivotRows(rho, w, r, m)[i]| == m + 1
    ensures i != r ==> IsSum(PivotRows(rho, w, r, m)[i], rho[i], -(w[i] / w[r]), rho[r], m)
    ensures i == r ==> IsSum(PivotRows(rho, w, r, m)[i], rho[r], 1.0 / w[r] - 1.0, rho[r], m)
  {
    var z := PivotRows(rho, w, r, m)[i];
    if i == r {
      forall t | 1 <= t <= m ensures z[t] == rho[r][t] + Mul(1.0 / w[r] - 1.0, rho[r][t]) {
        Quotient(rho[r][t], w[r]);
      }
    }
  }

  lemma Quotient(x: real, d: real)
    requires d != 0.0
    ensures x / d == x + Mul(1.0 / d - 1.0, x) && Mul(1.0 / d - 1.0, d) == 1.0 - d
  {
    var g := 1.0 / d;
    assert g * d == 1.0;
    assert (x / d) * d == x;
    assert (g * x) * d == x;
    assert (x / d - g * x) * d == 0.0;
  }

  /** The pivoted rows are the inverse of the new basis. */
  lemma PivotIsInverse(A: seq<seq<real>>, vb: seq<nat>, rho: seq<seq<real>>, w: seq<real>, m: nat, r: nat, q: nat)
    requires Shaped(A, vb, m) && IsInverse(A, vb, rho, m) && 1 <= q < |A| && 1 <= r <= m
    requires Solves(A, vb, w, A[q], m) && w[r] != 0.0
    ensures Shaped(A, vb[r := q], m) && IsInverse(A, vb[r := q], PivotRows(rho, w, r, m), m)
  {
    hide Mul, Dot, CombAt;
    var rows := PivotRows(rho, w, r, m);
    forall i | 1 <= i <= m ensures |rows[i]| == m + 1 {
      PivotRowSum(rho, w, r, m, i);
    }
    var vb' := vb[r := q];
    forall i, k | 1 <= i <= m && 1 <= k <= m
      ensures Dot(rows[i], A[vb'[k]], m) == if i == k then 1.0 else 0.0
    {
      PivotRowSum(rho, w, r, m, i);
      var col := A[vb'[k]];
      InverseRow(A, vb, rho, w, A[q], m, i);
      InverseRow(A, vb, rho, w, A[q], m, r);
      if i != r {
        DotLinear(rows[i], rho[i], -(w[i] / w[r]), rho[r], col, m);
        DivMul(w[i], w[r]);
        MulNegated(w[i] / w[r], w[r]);
        MulZero(-(w[i] / w[r]));
      } else {
        DotLinear(rows[i], rho[r], 1.0 / w[r] - 1.0, rho[r], col, m);
        Quotient(1.0, w[r]);
        MulZero(1.0 / w[r] - 1.0);
      }
    }
  }

  lemma MulNegated(a: real, b: real)
    ensures Mul(-a, b) == -Mul(a, b) && Mul(-a, -a) == Mul(a, a)
  {
  }

  /** The weights that the in-place update leaves behind: the entering column `q` takes over from row `r`,
      every other basic column is corrected with `tau`, and no other weight changes. */
  ghost predicate DualUpdate(edge: seq<real>, edge': seq<real>, vb: seq<nat>, w: seq<real>, tau: seq<real>, m: nat, r: nat, q: nat) {
    && |edge'| == |edge| && |vb| == |w| == |tau| == m + 1 && 1 <= r <= m && q < |edge| && w[r] != 0.0
    && (forall i :: 1 <= i <= m ==> vb[i] < |edge|)
    && edge'[q] == ScaledWeight(w[r], edge[vb[r]])
    && (forall i :: 1 <= i <= m && i != r ==> edge'[vb[i]] == CorrectedWeight(edge[vb[i]], w[i] / w[r], edge[vb[r]], tau[i]))
    && (forall j :: 0 <= j < |edge| && j != q && j !in vb[1..] ==> edge'[j] == edge[j])
  }

  /** The corrected weight of one row. */
  lemma DualWeight(A: seq<seq<real>>, vb: seq<nat>, rho: seq<seq<real>>, w: seq<real>, tau: seq<real>, m: nat, r: nat, i: nat)
    requires Shaped(A, vb, m) && IsInverse(A, vb, rho, m) && |w| == m + 1 && 1 <= r <= m && 1 <= i <= m && w[r] != 0.0
    requires Solves(A, vb, tau, rho[r], m)
    ensures |PivotRows(rho, w, r, m)[i]| == m + 1
    ensures var z := PivotRows(rho, w, r, m)[i];
            Dot(z, z, m) == if i == r then ScaledWeight(w[r], Dot(rho[r], rho[r], m))
                            else CorrectedWeight(Dot(rho[i], rho[i], m), w[i] / w[r], Dot(rho[r], rho[r], m), tau[i])
  {
    PivotRowSum(rho, w, r, m, i);
    hide Dot, Mul, IsSum, CombAt, IsInverse;
    var z := PivotRows(rho, w, r, m)[i];
    if i == r {
      NormOfSum(z, rho[r], 1.0 / w[r] - 1.0, rho[r], m);
      ScaledNorm(Dot(z, z, m), Dot(rho[r], rho[r], m), w[r]);
    } else {
      NormOfSum(z, rho[i], -(w[i] / w[r]), rho[r], m);
      InverseRow(A, vb, rho, tau, rho[r], m, i);
      MulNegated(w[i] / w[r], tau[i]);
      CorrectedNorm(Dot(rho[i], rho[i], m), w[i] / w[r], Dot(rho[r], rho[r], m), tau[i]);
    }
  }

  /** The new weight of the entering column: `(hold*hold) * cEdge` with `hold = 1 / rw`. */
  function ScaledWeight(rw: real, cEdge: real): real
    requires rw != 0.0
  {
    (1.0 / rw) * (1.0 / rw) * cEdge
  }

  /** The in-place correction `*newEdge += (hold*hold) * cEdge; *newEdge -= 2*hold*vEdge[i]`. */
  function CorrectedWeight(edge: real, hold: real, cEdge: real, v: real): real {
    edge + hold * hold * cEdge - 2.0 * hold * v
  }

  lemma ScaledNorm(n: real, d: real, rw: real)
    requires rw != 0.0
    requires n == d + 2.0 * Mul(1.0 / rw - 1.0, d) + Mul(Mul(1.0 / rw - 1.0, 1.0 / rw - 1.0), d)
    ensures n == ScaledWeight(rw, d)
  {
    var g := 1.0 / rw;
    assert (g - 1.0) * (g - 1.0) == g * g - 2.0 * g + 1.0;
    assert (g * g - 2.0 * g + 1.0) * d == g * g * d - 2.0 * g * d + d;
  }

  lemma CorrectedNorm(p: real, h: real, s: real, t: real)
    ensures p - 2.0 * Mul(h, t) + Mul(Mul(h, h), s) == CorrectedWeight(p, h, s, t)
  {
  }

  lemma DualExactRow(A: seq<seq<real>>, vb: seq<nat>, rho: seq<seq<real>>, w: seq<real>, tau: seq<real>,
                     edge: seq<real>, edge': seq<real>, m: nat, r: nat, q: nat, i: nat)
    requires Shaped(A, vb, m) && IsInverse(A, vb, rho, m) && TrueDual(edge, vb, rho, m)
    requires 1 <= q < |A| && Solves(A, vb, w, A[q], m)
    requires 1 <= r <= m && 1 <= i <= m && Solves(A, vb, tau, rho[r], m)
    requires DualUpdate(edge, edge', vb, w, tau, m, r, q)
    ensures var z := PivotRows(rho, w, r, m)[i]; var e := vb[r := q][i];
            e < |edge'| && |z| == m + 1 && edge'[e] == Dot(z, z, m) && edge'[e] > 0.0
  {
    var z, vb' := PivotRows(rho, w, r, m)[i], vb[r := q];
    PivotIsInverse(A, vb, rho, w, m, r, q);
    DualWeight(A, vb, rho, w, tau, m, r, i);
    assert Dot(z, A[vb'[i]], m) == 1.0;
    NormPositive(z, A[vb'[i]], m);
    hide Dot, PivotRows, Solves, IsInverse, ScaledWeight, CorrectedWeight;
  }

  /** Exactness of the dual update: true norms before the pivot are true norms after it, and stay positive. */
  lemma DualExact(A: seq<seq<real>>, vb: seq<nat>, rho: seq<seq<real>>, w: seq<real>, tau: seq<real>,
                  edge: seq<real>, edge': seq<real>, m: nat, r: nat, q: nat)
    requires Shaped(A, vb, m) && IsInverse(A, vb, rho, m) && TrueDual(edge, vb, rho, m) && Distinct(vb)
    requires 1 <= q < |A| && q !in vb[1..] && Solves(A, vb, w, A[q], m)
    requires 1 <= r <= m && Solves(A, vb, tau, rho[r], m)
    requires DualUpdate(edge, edge', vb, w, tau, m, r, q)
    ensures var rho' := PivotRows(rho, w, r, m); var vb' := vb[r := q];
            && Shaped(A, vb', m) && Distinct(vb') && IsInverse(A, vb', rho', m) && TrueDual(edge', vb', rho', m)
            && forall i :: 1 <= i <= m ==> edge'[vb'[i]] > 0.0
  {
    var rho', vb' := PivotRows(rho, w, r, m), vb[r := q];
    PivotIsInverse(A, vb, rho, w, m, r, q);
    forall i | 1 <= i <= m ensures vb'[i] < |edge'| && |rho'[i]| == m + 1 && edge'[vb'[i]] == Dot(rho'[i], rho'[i], m) && edge'[vb'[i]] > 0.0 {
      DualExactRow(A, vb, rho, w, tau, edge, edge', m, r, q, i);
    }
    forall i, k | 1 <= i < k < |vb'| ensures vb'[i] != vb'[k] {
      assert vb[1..][i - 1] == vb[i] && vb[1..][k - 1] == vb[k];
    }
  }

  // ------------------------------------------------------------------ primal weights

  /** Column `j`'s weight is one plus the squared norm of its transformed column. */
  ghost predicate TruePrimal(edge: seq<real>, A: seq<seq<real>>, vb: seq<nat>, alpha: seq<seq<real>>, m: nat, j: nat)
    requires Shaped(A, vb, m)
  {
    j < |A| && j < |alpha| && j < |edge| && Solves(A, vb, alpha[j], A[j], m) && edge[j] == 1.0 + Dot(alpha[j], alpha[j], m)
  }

  /** A column transformed to the basis in which `w` (the transformed entering column) has replaced row `r`. */
  ghost function PivotColumn(c: seq<real>, w: seq<real>, r: nat, m: nat): (z: seq<real>)
    requires |c| == m + 1 && |w| == m + 1 && 1 <= r <= m && w[r] != 0.0
    ensures |z| == m + 1
  {
    var h := c[r] / w[r];
    seq(m + 1, t requires 0 <= t <= m => if t == r then h else c[t] + Mul(-h, w[t]))
  }

  lemma {:induction false} PivotComb(A: seq<seq<real>>, vb: seq<nat>, c: seq<real>, w: seq<real>, m: nat, r: nat, q: nat, t: nat, k: nat)
    requires Shaped(A, vb, m) && |c| == m + 1 && |w| == m + 1 && 1 <= r <= m && w[r] != 0.0
    requires 1 <= q < |A| && t <= m && k <= m
    ensures Shaped(A, vb[r := q], m)
    ensures CombAt(A, vb[r := q], PivotColumn(c, w, r, m), t, m, k)
         == CombAt(A, vb, c, t, m, k) + Mul(-(c[r] / w[r]), CombAt(A, vb, w, t, m, k)) + if r <= k then Mul(c[r] / w[r], A[q][t]) else 0.0
  {
    hide Mul;
    var h := c[r] / w[r];
    MulZero(-h);
    if k > 0 {
      PivotComb(A, vb, c, w, m, r, q, t, k - 1);
      var a := A[vb[k]][t];
      MulSum(-h, CombAt(A, vb, w, t, m, k - 1), Mul(w[k], a));
      if k == r {
        // the old basic column's two contributions cancel
        MulAssoc(-h, w[k], a);
        MulNegated(h, w[k]);
        DivMul(c[r], w[r]);
        MulNegated(c[r], a);
      } else {
        MulDistributes(c[k], -h, w[k], a);
      }
    }
  }

  /** The transformed columns of the new basis solve the new systems. */
  lemma PivotColumnSolves(A: seq<seq<real>>, vb: seq<nat>, c: seq<real>, w: seq<real>, v: seq<real>, m: nat, r: nat, q: nat)
    requires Shaped(A, vb, m) && |c| == m + 1 && |w| == m + 1 && 1 <= r <= m && w[r] != 0.0 && 1 <= q < |A|
    requires Solves(A, vb, c, v, m) && Solves(A, vb, w, A[q], m)
    ensures Shaped(A, vb[r := q], m) && Solves(A, vb[r := q], PivotColumn(c, w, r, m), v, m)
  {
    hide Mul, CombAt, PivotColumn;
    var vb' := vb[r := q];
    forall t | 1 <= t <= m ensures CombAt(A, vb', PivotColumn(c, w, r, m), t, m, m) == v[t] {
      PivotComb(A, vb, c, w, m, r, q, t, m);
      MulNegated(c[r] / w[r], A[q][t]);
    }
  }

  /** The squared norm of a transformed column after the pivot. */
  lemma {:induction false} PivotColumnNorm(c: seq<real>, w: seq<real>, r: nat, m: nat, k: nat)
    requires |c| == m + 1 && |w| == m + 1 && 1 <= r <= m && w[r] != 0.0 && k <= m
    ensures var h := c[r] / w[r]; var z := PivotColumn(c, w, r, m);
            Dot(z, z, k) == Dot(c, c, k) - 2.0 * Mul(h, Dot(c, w, k)) + Mul(Mul(h, h), Dot(w, w, k))
                            + if r <= k then Mul(h, h) else 0.0
  {
    hide Mul;
    var h := c[r] / w[r];
    var z := PivotColumn(c, w, r, m);
    MulZero(h);
    MulZero(Mul(h, h));
    if k > 0 {
      PivotColumnNorm(c, w, r, m, k - 1);
      MulSum(h, Dot(c, w, k - 1), Mul(c[k], w[k]));
      MulSum(Mul(h, h), Dot(w, w, k - 1), Mul(w[k], w[k]));
      if k == r {
        DivMul(c[r], w[r]);
        PivotEntry(c[r], h, w[r]);
      } else {
        OtherEntry(c[k], h, w[k]);
      }
    }
  }

  lemma PivotEntry(c: real, h: real, w: real)
    requires Mul(h, w) == c
    ensures Mul(c, c) - 2.0 * Mul(h, Mul(c, w)) + Mul(Mul(h, h), Mul(w, w)) == 0.0
  {
    assert h * w == c;
    assert h * (c * w) == c * (h * w) == c * c;
    assert (h * h) * (w * w) == (h * w) * (h * w) == c * c;
  }

  lemma OtherEntry(c: real, h: real, w: real)
    ensures Mul(c + Mul(-h, w), c + Mul(-h, w)) == Mul(c, c) - 2.0 * Mul(h, Mul(c, w)) + Mul(Mul(h, h), Mul(w, w))
  {
    var p := h * w;
    assert -h * w == -p;
    assert (c - p) * (c - p) == c * c - 2.0 * (p * c) + p * p;
    assert p * c == h * (c * w);
    assert p * p == (h * h) * (w * w);
  }

  /** The floor `hold*hold + 1` never changes a weight that is exact. */
  lemma FloorInactive(z: seq<real>, m: nat, r: nat)
    requires |z| == m + 1 && 1 <= r <= m
    ensures 1.0 + Dot(z, z, m) >= Mul(z[r], z[r]) + 1.0
  {
    NormAtLeast(z, m, r);
  }

  ghost function Unit(r: nat, m: nat): (e: seq<real>)
    ensures |e| == m + 1
  {
    seq(m + 1, t => if t == r then 1.0 else 0.0)
  }

  lemma {:induction false} DotUnit(c: seq<real>, r: nat, m: nat, k: nat)
    requires |c| == m + 1 && 1 <= r <= m && k <= m
    ensures Dot(c, Unit(r, m), k) == if r <= k then c[r] else 0.0
    ensures Dot(Unit(r, m), c, k) == if r <= k then c[r] else 0.0
  {
    hide Mul;
    if k > 0 {
      DotUnit(c, r, m, k - 1);
      MulZero(c[k]);
    }
  }

  lemma {:induction false} UnitComb(A: seq<seq<real>>, vb: seq<nat>, r: nat, m: nat, t: nat, k: nat)
    requires Shaped(A, vb, m) && 1 <= r <= m && t <= m && k <= m
    ensures CombAt(A, vb, Unit(r, m), t, m, k) == if r <= k then A[vb[r]][t] else 0.0
  {
    hide Mul;
    if k > 0 {
      UnitComb(A, vb, r, m, t, k - 1);
      MulZero(A[vb[k]][t]);
    }
  }

  /** `y` times the basic columns gives `g`: what `bsolve` returns for the right-hand side `g`. */
  ghost predicate SolvesRow(A: seq<seq<real>>, vb: seq<nat>, y: seq<real>, g: seq<real>, m: nat)
    requires Shaped(A, vb, m)
  {
    |y| == m + 1 && |g| == m + 1 && forall k :: 1 <= k <= m ==> Dot(y, A[vb[k]], m) == g[k]
  }

  lemma {:induction false} DotSumRow(A: seq<seq<real>>, vb: seq<nat>, c: seq<real>, y: seq<real>, g: seq<real>, m: nat, k: nat)
    requires Shaped(A, vb, m) && SolvesRow(A, vb, y, g, m) && |c| == m + 1 && k <= m
    ensures DotSum(A, vb, c, y, m, k) == Dot(c, g, k)
  {
    hide Mul;
    if k > 0 {
      DotSumRow(A, vb, c, y, g, m, k - 1);
    }
  }

  /** The product of such a row with a column is the inner product of `g` with the transformed column. */
  lemma RowTimesColumn(A: seq<seq<real>>, vb: seq<nat>, c: seq<real>, v: seq<real>, y: seq<real>, g: seq<real>, m: nat)
    requires Shaped(A, vb, m) && SolvesRow(A, vb, y, g, m) && Solves(A, vb, c, v, m)
    ensures Dot(y, v, m) == Dot(c, g, m)
  {
    DotComb(A, vb, c, y, m, m, v);
    DotSumRow(A, vb, c, y, g, m, m);
  }

  /** What the update loop does to the weight of a nonbasic column other than the entering one. */
  function PrimalWeight(edge: real, alpha: real, cAlpha: real, cEdge: real, v: real): real
    requires cAlpha != 0.0
  {
    if alpha == 0.0 then edge
    else var hold := alpha / cAlpha; Max(CorrectedWeight(edge, hold, cEdge, v), hold * hold + 1.0)
  }

  /** The transformed columns after the pivot; the leaving column was a unit vector. */
  ghost function PivotAlpha(alpha: seq<seq<real>>, vb: seq<nat>, w: seq<real>, r: nat, m: nat, j: nat): seq<real>
    requires |vb| == m + 1 && |w| == m + 1 && 1 <= r <= m && w[r] != 0.0
    requires j < |alpha| && (j == vb[r] || |alpha[j]| == m + 1)
  {
    PivotColumn(if j == vb[r] then Unit(r, m) else alpha[j], w, r, m)
  }

  /** Exactness for a column that stays nonbasic; `y` and `rho` are the rows the update solves for. */
  lemma PrimalExactStays(A: seq<seq<real>>, vb: seq<nat>, alpha: seq<seq<real>>, edge: seq<real>, m: nat, r: nat, q: nat, j: nat,
                         y: seq<real>, rho: seq<real>)
    requires Shaped(A, vb, m) && 1 <= r <= m && 1 <= q < |A|
    requires TruePrimal(edge, A, vb, alpha, m, q) && TruePrimal(edge, A, vb, alpha, m, j) && j != vb[r]
    requires SolvesRow(A, vb, y, alpha[q], m) && SolvesRow(A, vb, rho, Unit(r, m), m) && alpha[q][r] != 0.0
    ensures Dot(rho, A[j], m) == alpha[j][r] && Dot(rho, A[q], m) == alpha[q][r]
    ensures Shaped(A, vb[r := q], m)
    ensures var z := PivotAlpha(alpha, vb, alpha[q], r, m, j);
            && Solves(A, vb[r := q], z, A[j], m)
            && PrimalWeight(edge[j], alpha[j][r], alpha[q][r], edge[q], Dot(y, A[j], m)) == 1.0 + Dot(z, z, m)
  {
    var w, c := alpha[q], alpha[j];
    var h := c[r] / w[r];
    var z := PivotColumn(c, w, r, m);
    RowTimesColumn(A, vb, c, A[j], rho, Unit(r, m), m);
    DotUnit(c, r, m, m);
    RowTimesColumn(A, vb, w, A[q], rho, Unit(r, m), m);
    DotUnit(w, r, m, m);
    RowTimesColumn(A, vb, c, A[j], y, w, m);
    PivotColumnSolves(A, vb, c, w, A[j], m, r, q);
    PivotColumnNorm(c, w, r, m, m);
    FloorInactive(z, m, r);
    assert z[r] == h;
    hide Dot, CombAt, PivotColumn;
    PrimalNorm(edge[j], c[r], w[r], edge[q], Dot(c, w, m), Dot(c, c, m), Dot(w, w, m), Dot(z, z, m));
  }

  lemma PrimalNorm(edge: real, alpha: real, cAlpha: real, cEdge: real, v: real, cc: real, ww: real, zz: real)
    requires cAlpha != 0.0 && edge == 1.0 + cc && cEdge == 1.0 + ww
    requires var h := alpha / cAlpha; zz == cc - 2.0 * Mul(h, v) + Mul(Mul(h, h), ww) + Mul(h, h) && 1.0 + zz >= Mul(h, h) + 1.0
    ensures PrimalWeight(edge, alpha, cAlpha, cEdge, v) == 1.0 + zz
  {
    var h := alpha / cAlpha;
    assert h * h * cEdge == h * h + h * h * ww;
    if alpha == 0.0 {
      DivMul(alpha, cAlpha);
      assert h == 0.0;
    }
  }

  /** Exactness for the column that leaves the basis. */
  lemma PrimalExactLeaves(A: seq<seq<real>>, vb: seq<nat>, alpha: seq<seq<real>>, edge: seq<real>, m: nat, r: nat, q: nat)
    requires Shaped(A, vb, m) && 1 <= r <= m && 1 <= q < |A| && vb[r] < |alpha|
    requires TruePrimal(edge, A, vb, alpha, m, q) && alpha[q][r] != 0.0
    ensures Shaped(A, vb[r := q], m)
    ensures var z := PivotAlpha(alpha, vb, alpha[q], r, m, vb[r]);
            && Solves(A, vb[r := q], z, A[vb[r]], m)
            && ScaledWeight(alpha[q][r], edge[q]) == 1.0 + Dot(z, z, m)
  {
    var w, e := alpha[q], Unit(r, m);
    forall t | 1 <= t <= m ensures CombAt(A, vb, e, t, m, m) == A[vb[r]][t] {
      UnitComb(A, vb, r, m, t, m);
    }
    PivotColumnSolves(A, vb, e, w, A[vb[r]], m, r, q);
    PivotColumnNorm(e, w, r, m, m);
    DotUnit(e, r, m, m);
    DotUnit(w, r, m, m);
    var z := PivotColumn(e, w, r, m);
    hide Dot, CombAt, PivotColumn;
    LeavingNorm(w[r], Dot(w, w, m), Dot(z, z, m), edge[q]);
  }

  lemma LeavingNorm(a: real, ww: real, zz: real, cEdge: real)
    requires a != 0.0 && cEdge == 1.0 + ww
    requires var h := 1.0 / a; zz == 1.0 - 2.0 * Mul(h, a) + Mul(Mul(h, h), ww) + Mul(h, h)
    ensures ScaledWeight(a, cEdge) == 1.0 + zz
  {
    var h := 1.0 / a;
    DivMul(1.0, a);
    assert h * h * cEdge == h * h + h * h * ww;
  }
}
