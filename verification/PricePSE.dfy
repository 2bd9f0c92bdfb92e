/** The price vector of lp_pricePSE.c, updated in place at every pivot (steepest edge, true-norm start). */
module PricePSE {
  import opened Reals
  import opened SteepestEdge

  class Pricer {
    /** Rows and columns of the model; vectors are 1-based and `edgeVector[0]` is the kind of weights. */
    const m: nat
    const n: nat
    const epspivot: real
    const edgeVector: array<real>
    const varBasic: array<nat>
    const isBasic: array<bool>
    ghost const A: seq<seq<real>>

    /** The basis is a set of distinct columns and `isBasic` marks them. */
    ghost predicate BasisOk()
      reads varBasic, isBasic
    {
      && edgeVector.Length == n + 1 == isBasic.Length == |A| && epspivot > 0.0
      && Shaped(A, varBasic[..], m) && Distinct(varBasic[..])
      && forall j :: 1 <= j <= n ==> (isBasic[j] <==> j in varBasic[..][1..])
    }

    /** Dual weights: `rho` is the basis inverse by rows. */
    ghost predicate DualNorms(rho: seq<seq<real>>)
      reads varBasic, isBasic, edgeVector
    {
      BasisOk() && IsInverse(A, varBasic[..], rho, m) && TrueDual(edgeVector[..], varBasic[..], rho, m)
    }

    /** Primal weights: `alpha[j]` is column `j` transformed to the basis. */
    ghost predicate PrimalNorms(alpha: seq<seq<real>>)
      reads varBasic, isBasic, edgeVector
    {
      BasisOk() && |alpha| == n + 1 &&
      forall j :: 1 <= j <= n && !isBasic[j] ==> TruePrimal(edgeVector[..], A, varBasic[..], alpha, m, j)
    }

    constructor (A: seq<seq<real>>, vb: seq<nat>, m: nat, epspivot: real)
      requires |A| > 0 && Shaped(A, vb, m) && Distinct(vb) && epspivot > 0.0
      ensures this.m == m && this.A == A && n == |A| - 1 && varBasic[..] == vb && BasisOk()
      ensures fresh(edgeVector) && fresh(varBasic) && fresh(isBasic)
    {
      this.A, this.m, this.n, this.epspivot := A, m, |A| - 1, epspivot;
      edgeVector := new real[|A|](_ => -1.0);
      varBasic := new nat[m + 1](i requires 0 <= i < m + 1 => vb[i]);
      isBasic := new bool[|A|](j => j in vb[1..]);
      new;
      assert varBasic[..] == vb;
    }

    /** `restartPricer` for the dual; `rows[i]` is what `bsolve` returns for row `i`. */
    method RestartDual(rows: seq<seq<real>>)
      requires BasisOk() && IsInverse(A, varBasic[..], rows, m)
      modifies edgeVector
      ensures DualNorms(rows) && edgeVector[0] == 1.0
    {
      edgeVector[0] := 1.0;
      for i := 1 to m + 1
        invariant edgeVector[0] == 1.0
        invariant forall k :: 1 <= k < i ==> edgeVector[varBasic[k]] == Dot(rows[k], rows[k], m)
      {
        var seNorm := 0.0;
        for j := 1 to m + 1
          invariant seNorm == Dot(rows[i], rows[i], j - 1)
        {
          seNorm := seNorm + rows[i][j] * rows[i][j];
        }
        assert forall k :: 1 <= k < i ==> varBasic[..][k] != varBasic[..][i];
        edgeVector[varBasic[i]] := seNorm;
      }
    }

    /** `restartPricer` for the primal; `cols[j]` is what `fsolve` returns for column `j`. */
    method RestartPrimal(cols: seq<seq<real>>)
      requires BasisOk() && |cols| == n + 1
      requires forall j :: 1 <= j <= n && !isBasic[j] ==> Solves(A, varBasic[..], cols[j], A[j], m)
      modifies edgeVector
      ensures PrimalNorms(cols) && edgeVector[0] == 0.0
    {
      edgeVector[0] := 0.0;
      for i := 1 to n + 1
        invariant edgeVector[0] == 0.0
        invariant forall j :: 1 <= j < i && !isBasic[j] ==> edgeVector[j] == 1.0 + Dot(cols[j], cols[j], m)
      {
        if !isBasic[i] {
          var seNorm := 1.0;
          for j := 1 to m + 1
            invariant seNorm == 1.0 + Dot(cols[i], cols[i], j - 1)
          {
            seNorm := seNorm + cols[i][j] * cols[i][j];
          }
          edgeVector[i] := seNorm;
        }
      }
    }

    /** The two assignments by which the update loops correct one weight. */
    method CorrectEdge(target: nat, hold: real, cEdge: real, v: real)
      requires target < edgeVector.Length
      modifies edgeVector
      ensures edgeVector[..] == old(edgeVector[..])[target := CorrectedWeight(old(edgeVector[target]), hold, cEdge, v)]
    {
      edgeVector[target] := edgeVector[target] + hold * hold * cEdge;
      edgeVector[target] := edgeVector[target] - 2.0 * hold * v;
    }

    /** The dual part of `updatePricer`: `w` is the transformed entering column and `tau` solves the basis
        system for the leaving row of the inverse. A tiny pivot element leaves the weights alone and asks
        for a refresh; the test for a nonpositive weight never asks for one. */
    method UpdateDual(rownr: nat, colnr: nat, w: seq<real>, tau: seq<real>, ghost rho: seq<seq<real>>) returns (forceRefresh: bool)
      requires DualNorms(rho) && 1 <= rownr <= m && 1 <= colnr <= n && !isBasic[colnr]
      requires Solves(A, varBasic[..], w, A[colnr], m) && Solves(A, varBasic[..], tau, rho[rownr], m)
      modifies edgeVector
      ensures forceRefresh <==> -epspivot < w[rownr] < epspivot
      ensures forceRefresh ==> edgeVector[..] == old(edgeVector[..])
      ensures !forceRefresh ==> DualUpdate(old(edgeVector[..]), edgeVector[..], varBasic[..], w, tau, m, rownr, colnr)
    {
      assert |w| == |tau| == m + 1;
      hide IsInverse, Solves, CorrectedWeight, ScaledWeight, DualRows;
      ghost var edge0, vb := edgeVector[..], varBasic[..];
      var exitcol := varBasic[rownr];
      var cEdge := edgeVector[exitcol];
      var rw := w[rownr];
      forceRefresh := -epspivot < rw < epspivot;
      if !forceRefresh {
        edgeVector[colnr] := ScaledWeight(rw, cEdge);
        FirstRow(edge0, vb, w, tau, m, rownr, colnr);
        for i := 1 to m + 1
          invariant DualRows(edge0, edgeVector[..], vb, w, tau, m, rownr, colnr, i)
        {
          NextRow(edge0, edgeVector[..], vb, w, tau, m, rownr, colnr, i);
          if i != rownr && w[i] != 0.0 {
            WeightPositive(A, vb, rho, w, tau, edge0, m, rownr, colnr, i);
            var target := varBasic[i];
            CorrectEdge(target, w[i] / rw, cEdge, tau[i]);
            assert edgeVector[target] > 0.0;
          }
        }
        LastRow(edge0, edgeVector[..], vb, w, tau, m, rownr, colnr);
      }
    }

    /** `verifyPricer`. For primal weights it tells whether all of them are positive; for dual weights it
        always fails, since it tests the last column index visited for zero. */
    method VerifyPricer() returns (ok: bool)
      requires BasisOk()
      ensures edgeVector[0] == 0.0 ==> (ok <==> forall j :: 1 <= j <= n && !isBasic[j] ==> edgeVector[j] > 0.0)
      ensures edgeVector[0] != 0.0 ==> !ok
    {
      var value := edgeVector[0];
      if value < 0.0 {
        return false;
      }
      var k := 1;
      if value == 0.0 {
        k := n;
        while k > 0 && (isBasic[k] || edgeVector[k] > 0.0)
          invariant 0 <= k <= n
          invariant forall j :: k < j <= n && !isBasic[j] ==> edgeVector[j] > 0.0
        {
          k := k - 1;
        }
      } else {
        var i := m;
        while i > 0
          invariant 0 <= i <= m && k != 0
        {
          BasicMember(i);
          k := varBasic[i];
          if edgeVector[k] <= 0.0 {
            break;
          }
          i := i - 1;
        }
      }
      ok := k == 0;
    }

    /** `set_basisvar`: column `colnr` replaces the basic column of row `rownr`. */
    method SetBasisVar(rownr: nat, colnr: nat) returns (leavingCol: nat)
      requires BasisOk() && 1 <= rownr <= m && 1 <= colnr <= n && !isBasic[colnr]
      modifies varBasic, isBasic
      ensures BasisOk() && varBasic[..] == old(varBasic[..])[rownr := colnr] && leavingCol == old(varBasic[rownr])
      ensures isBasic[..] == old(isBasic[..])[leavingCol := false][colnr := true]
    {
      leavingCol := varBasic[rownr];
      ghost var vb := varBasic[..];
      SwapBasic(vb, rownr, colnr);
      BasicPositions(vb, rownr, colnr);
      varBasic[rownr] := colnr;
      isBasic[leavingCol] := false;
      isBasic[colnr] := true;
      assert varBasic[..] == vb[rownr := colnr];
    }

    /** One dual pivot: the weights stay the squared norms of the rows of the basis inverse, and positive. */
    method PivotDual(rownr: nat, colnr: nat, w: seq<real>, tau: seq<real>, ghost rho: seq<seq<real>>)
      requires DualNorms(rho) && 1 <= rownr <= m && 1 <= colnr <= n && !isBasic[colnr]
      requires Solves(A, varBasic[..], w, A[colnr], m) && Solves(A, varBasic[..], tau, rho[rownr], m)
      requires !(-epspivot < w[rownr] < epspivot)
      modifies edgeVector, varBasic, isBasic
      ensures DualNorms(PivotRows(rho, w, rownr, m))
      ensures forall i :: 1 <= i <= m ==> edgeVector[varBasic[i]] > 0.0
    {
      hide Solves, IsInverse, DualUpdate, PivotRows;
      ghost var edge0, vb := edgeVector[..], varBasic[..];
      var refresh := UpdateDual(rownr, colnr, w, tau, rho);
      DualExact(A, vb, rho, w, tau, edge0, edgeVector[..], m, rownr, colnr);
      var leaving := SetBasisVar(rownr, colnr);
      assert forall i :: 1 <= i <= m ==> edgeVector[varBasic[..][i]] == edgeVector[varBasic[i]];
    }

    /** The primal part of `updatePricer`: `vAlpha` and `vEdge` are the products of the leaving row of the
        inverse and of the row solved from the entering column with every nonbasic column. */
    method UpdatePrimal(rownr: nat, colnr: nat, vAlpha: seq<real>, vEdge: seq<real>) returns (forceRefresh: bool)
      requires BasisOk() && 1 <= rownr <= m && 1 <= colnr <= n && !isBasic[colnr]
      requires |vAlpha| == |vEdge| == n + 1
      modifies edgeVector
      ensures forceRefresh <==> -epspivot < vAlpha[colnr] < epspivot
      ensures forceRefresh ==> edgeVector[..] == old(edgeVector[..])
      ensures !forceRefresh ==> PrimalColumns(old(edgeVector[..]), edgeVector[..], isBasic[..], varBasic[rownr], colnr, vAlpha, vEdge, n + 1)
    {
      assert varBasic.Length == m + 1;
      hide Shaped, Distinct, ScaledWeight, CorrectedWeight;
      ghost var edge0 := edgeVector[..];
      var exitcol := varBasic[rownr];
      var cEdge := edgeVector[colnr];
      var cAlpha := vAlpha[colnr];
      BasicMember(rownr);
      forceRefresh := -epspivot < cAlpha < epspivot;
      if !forceRefresh {
        edgeVector[exitcol] := ScaledWeight(cAlpha, cEdge);
        for i := 1 to n + 1
          invariant PrimalColumns(edge0, edgeVector[..], isBasic[..], exitcol, colnr, vAlpha, vEdge, i)
        {
          if !isBasic[i] && i != colnr && vAlpha[i] != 0.0 {
            var hold := vAlpha[i] / cAlpha;
            CorrectEdge(i, hold, cEdge, vEdge[i]);
            edgeVector[i] := Max(edgeVector[i], hold * hold + 1.0);
          }
        }
      }
    }

    lemma BasicMember(i: nat)
      requires BasisOk() && 1 <= i <= m
      ensures 1 <= varBasic[i] <= n && isBasic[varBasic[i]]
    {
      assert varBasic[..][1..][i - 1] == varBasic[i];
      assert varBasic[..][i] == varBasic[i];
    }

    /** One primal pivot: the weights stay one plus the squared norms of the transformed columns. */
    method PivotPrimal(rownr: nat, colnr: nat, vAlpha: seq<real>, vEdge: seq<real>,
                       ghost alpha: seq<seq<real>>, ghost y: seq<real>, ghost rho: seq<real>)
      requires PrimalNorms(alpha) && 1 <= rownr <= m && 1 <= colnr <= n && !isBasic[colnr]
      requires |alpha[colnr]| == m + 1
      requires SolvesRow(A, varBasic[..], y, alpha[colnr], m) && SolvesRow(A, varBasic[..], rho, Unit(rownr, m), m)
      requires |vAlpha| == |vEdge| == n + 1
      requires forall j :: 1 <= j <= n && !isBasic[j] ==> vAlpha[j] == Dot(rho, A[j], m) && vEdge[j] == Dot(y, A[j], m)
      requires !(-epspivot < vAlpha[colnr] < epspivot)
      modifies edgeVector, varBasic, isBasic
      ensures alpha[colnr][rownr] == vAlpha[colnr]
      ensures PrimalNorms(PivotedColumns(alpha, old(isBasic[..]), old(varBasic[..]), rownr, colnr, m))
    {
      assert varBasic.Length == m + 1;
      hide Solves, SolvesRow, PivotAlpha, Dot, PrimalColumns, TruePrimal, Shaped, Distinct, PivotedColumns;
      ghost var edge0, vb, basic := edgeVector[..], varBasic[..], isBasic[..];
      EnteringPivot(A, vb, alpha, edge0, m, rownr, colnr, y, rho);
      BasicMember(rownr);
      var refresh := UpdatePrimal(rownr, colnr, vAlpha, vEdge);
      ghost var alpha' := PivotedColumns(alpha, basic, vb, rownr, colnr, m);
      forall j | 1 <= j <= n && (!basic[j] || j == vb[rownr]) && j != colnr
        ensures Shaped(A, vb[rownr := colnr], m) && |alpha'| == n + 1 && TruePrimal(edgeVector[..], A, vb[rownr := colnr], alpha', m, j)
      {
        ColumnExact(A, vb, alpha, edge0, edgeVector[..], basic, m, n, rownr, colnr, j, y, rho, vAlpha, vEdge);
      }
      var leaving := SetBasisVar(rownr, colnr);
      SizePivoted(alpha, basic, vb, rownr, colnr, m);
    }
  }

  /** The primal update when the columns 1..i-1 are done. */
  ghost predicate PrimalColumns(edge0: seq<real>, edge: seq<real>, basic: seq<bool>, exitcol: nat, q: nat,
                                vAlpha: seq<real>, vEdge: seq<real>, i: nat)
  {
    && |edge| == |edge0| == |basic| == |vAlpha| == |vEdge| && exitcol < |edge| && q < |edge| && vAlpha[q] != 0.0 && basic[exitcol] && !basic[q]
    && edge[exitcol] == ScaledWeight(vAlpha[q], edge0[q])
    && (forall j :: 1 <= j < |edge| && !basic[j] && j != q ==>
          edge[j] == if j < i then PrimalWeight(edge0[j], vAlpha[j], vAlpha[q], edge0[q], vEdge[j]) else edge0[j])
    && (forall j :: 0 <= j < |edge| && j != exitcol && (j == 0 || j == q || basic[j]) ==> edge[j] == edge0[j])
  }

  /** The transformed columns after a primal pivot. */
  ghost function PivotedColumns(alpha: seq<seq<real>>, basic: seq<bool>, vb: seq<nat>, r: nat, q: nat, m: nat): (cols: seq<seq<real>>)
    requires |basic| == |alpha| && |vb| == m + 1 && 1 <= r <= m && q < |alpha| && |alpha[q]| == m + 1 && alpha[q][r] != 0.0
  {
    seq(|alpha|, j requires 0 <= j < |alpha| =>
      if j == vb[r] || |alpha[j]| == m + 1 then PivotAlpha(alpha, vb, alpha[q], r, m, j) else alpha[j])
  }

  lemma SizePivoted(alpha: seq<seq<real>>, basic: seq<bool>, vb: seq<nat>, r: nat, q: nat, m: nat)
    requires |basic| == |alpha| && |vb| == m + 1 && 1 <= r <= m && q < |alpha| && |alpha[q]| == m + 1 && alpha[q][r] != 0.0
    ensures |PivotedColumns(alpha, basic, vb, r, q, m)| == |alpha|
  {
  }

  /** The pivot element as the update sees it is the entry of the transformed entering column. */
  lemma EnteringPivot(A: seq<seq<real>>, vb: seq<nat>, alpha: seq<seq<real>>, edge: seq<real>, m: nat, r: nat, q: nat, y: seq<real>, rho: seq<real>)
    requires Shaped(A, vb, m) && 1 <= r <= m && TruePrimal(edge, A, vb, alpha, m, q)
    requires SolvesRow(A, vb, rho, Unit(r, m), m)
    ensures |alpha[q]| == m + 1 && alpha[q][r] == Dot(rho, A[q], m)
  {
    RowTimesColumn(A, vb, alpha[q], A[q], rho, Unit(r, m), m);
    DotUnit(alpha[q], r, m, m);
  }

  /** Exactness of one weight after a primal pivot. */
  lemma ColumnExact(A: seq<seq<real>>, vb: seq<nat>, alpha: seq<seq<real>>, edge0: seq<real>, edge: seq<real>, basic: seq<bool>,
                    m: nat, n: nat, r: nat, q: nat, j: nat, y: seq<real>, rho: seq<real>, vAlpha: seq<real>, vEdge: seq<real>)
    requires Shaped(A, vb, m) && 1 <= r <= m && 1 <= q <= n && 1 <= j <= n && |A| == |alpha| == n + 1 && vb[r] <= n
    requires PrimalColumns(edge0, edge, basic, vb[r], q, vAlpha, vEdge, n + 1) && |edge| == n + 1
    requires TruePrimal(edge0, A, vb, alpha, m, q) && (j != vb[r] ==> !basic[j] && TruePrimal(edge0, A, vb, alpha, m, j)) && j != q
    requires SolvesRow(A, vb, y, alpha[q], m) && SolvesRow(A, vb, rho, Unit(r, m), m)
    requires vAlpha[q] == Dot(rho, A[q], m) && (j != vb[r] ==> vAlpha[j] == Dot(rho, A[j], m) && vEdge[j] == Dot(y, A[j], m))
    requires |alpha[q]| == m + 1 && alpha[q][r] == vAlpha[q]
    ensures Shaped(A, vb[r := q], m)
    ensures var alpha' := PivotedColumns(alpha, basic, vb, r, q, m);
            |alpha'| == n + 1 && TruePrimal(edge, A, vb[r := q], alpha', m, j)
  {
    if j == vb[r] {
      PrimalExactLeaves(A, vb, alpha, edge0, m, r, q);
    } else {
      PrimalExactStays(A, vb, alpha, edge0, m, r, q, j, y, rho);
    }
    hide Dot, CombAt, ScaledWeight, PrimalWeight, SolvesRow, PivotAlpha;
  }

  lemma SwapBasic(vb: seq<nat>, r: nat, q: nat)
    requires Distinct(vb) && 1 <= r < |vb| && q !in vb[1..]
    ensures Distinct(vb[r := q])
    ensures forall j :: j in vb[r := q][1..] <==> j == q || (j in vb[1..] && j != vb[r])
  {
    var vb' := vb[r := q];
    forall i | 1 <= i < |vb| ensures vb[i] != q {
      assert vb[1..][i - 1] == vb[i];
    }
    forall j ensures j in vb'[1..] <==> j == q || (j in vb[1..] && j != vb[r]) {
      if j in vb[1..] && j != vb[r] {
        var i :| 0 <= i < |vb[1..]| && vb[1..][i] == j;
        assert vb[i + 1] == j && vb'[1..][i] == j;
      }
      assert vb'[1..][r - 1] == q;
      if j in vb'[1..] {
        var i :| 0 <= i < |vb'[1..]| && vb'[1..][i] == j;
        assert vb'[i + 1] == j;
        if i + 1 != r {
          assert vb[1..][i] == j;
        }
      }
    }
  }

  /** The update when the rows 1..i-1 are done. */
  ghost predicate DualRows(edge0: seq<real>, edge: seq<real>, vb: seq<nat>, w: seq<real>, tau: seq<real>, m: nat, r: nat, q: nat, i: nat) {
    && |edge| == |edge0| && |vb| == |w| == |tau| == m + 1 && 1 <= r <= m && q < |edge| && w[r] != 0.0
    && (forall k :: 1 <= k <= m ==> vb[k] < |edge|)
    && edge[q] == ScaledWeight(w[r], edge0[vb[r]])
    && (forall k :: 1 <= k <= m ==>
          edge[vb[k]] == if k < i && k != r then CorrectedWeight(edge0[vb[k]], w[k] / w[r], edge0[vb[r]], tau[k]) else edge0[vb[k]])
    && (forall j :: 0 <= j < |edge| && j != q && j !in vb[1..] ==> edge[j] == edge0[j])
  }

  lemma FirstRow(edge: seq<real>, vb: seq<nat>, w: seq<real>, tau: seq<real>, m: nat, r: nat, q: nat)
    requires |vb| == |w| == |tau| == m + 1 && 1 <= r <= m && q < |edge| && w[r] != 0.0 && q !in vb[1..] && Distinct(vb)
    requires forall k :: 1 <= k <= m ==> vb[k] < |edge|
    ensures DualRows(edge, edge[q := ScaledWeight(w[r], edge[vb[r]])], vb, w, tau, m, r, q, 1)
  {
    forall k | 1 <= k <= m ensures vb[k] != q {
      BasicPositions(vb, k, q);
    }
  }

  lemma LastRow(edge0: seq<real>, edge: seq<real>, vb: seq<nat>, w: seq<real>, tau: seq<real>, m: nat, r: nat, q: nat)
    requires DualRows(edge0, edge, vb, w, tau, m, r, q, m + 1)
    ensures DualUpdate(edge0, edge, vb, w, tau, m, r, q)
  {
  }

  lemma NextRow(edge0: seq<real>, edge: seq<real>, vb: seq<nat>, w: seq<real>, tau: seq<real>, m: nat, r: nat, q: nat, i: nat)
    requires DualRows(edge0, edge, vb, w, tau, m, r, q, i) && 1 <= i <= m && q !in vb[1..] && Distinct(vb)
    ensures edge[vb[i]] == edge0[vb[i]]
    ensures i == r || w[i] == 0.0 ==> DualRows(edge0, edge, vb, w, tau, m, r, q, i + 1)
    ensures i != r ==> DualRows(edge0, edge[vb[i] := CorrectedWeight(edge[vb[i]], w[i] / w[r], edge0[vb[r]], tau[i])], vb, w, tau, m, r, q, i + 1)
  {
    BasicPositions(vb, i, q);
    hide ScaledWeight, CorrectedWeight;
    if w[i] == 0.0 {
      ZeroCorrection(edge0[vb[i]], w[r], edge0[vb[r]], tau[i]);
    }
  }

  lemma ZeroCorrection(edge: real, rw: real, cEdge: real, v: real)
    requires rw != 0.0
    ensures CorrectedWeight(edge, 0.0 / rw, cEdge, v) == edge
  {
    DivMul(0.0, rw);
    assert 0.0 / rw == 0.0;
  }

  lemma BasicPositions(vb: seq<nat>, i: nat, q: nat)
    requires Distinct(vb) && 1 <= i < |vb| && q !in vb[1..]
    ensures vb[i] != q && vb[i] in vb[1..] && forall k :: 1 <= k < |vb| && k != i ==> vb[k] != vb[i]
  {
    assert vb[1..][i - 1] == vb[i];
  }

  /** A corrected dual weight is the squared norm of a row of an inverse, hence positive. */
  lemma WeightPositive(A: seq<seq<real>>, vb: seq<nat>, rho: seq<seq<real>>, w: seq<real>, tau: seq<real>, edge: seq<real>,
                       m: nat, r: nat, q: nat, i: nat)
    requires Shaped(A, vb, m) && IsInverse(A, vb, rho, m) && TrueDual(edge, vb, rho, m)
    requires 1 <= r <= m && 1 <= q < |A| && Solves(A, vb, w, A[q], m) && w[r] != 0.0
    requires 1 <= i <= m && i != r && Solves(A, vb, tau, rho[r], m)
    ensures CorrectedWeight(edge[vb[i]], w[i] / w[r], edge[vb[r]], tau[i]) > 0.0
  {
    var z, vb' := PivotRows(rho, w, r, m)[i], vb[r := q];
    PivotIsInverse(A, vb, rho, w, m, r, q);
    DualWeight(A, vb, rho, w, tau, m, r, i);
    assert Dot(z, A[vb'[i]], m) == 1.0;
    NormPositive(z, A[vb'[i]], m);
    hide Dot, PivotRows, Solves, CorrectedWeight;
  }
}
