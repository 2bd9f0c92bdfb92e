/** The basis of a model as it is kept and changed in place (lp_lib.c). */
module LpBases {
  import opened Bases
  import opened BasisFiles
  import opened Numbers

  class LpBasis {
    var rows: nat
    var sum: nat
    /** Presolve has been run. */
    var wasPresolved: bool
    /** The counts of the model that the user built. */
    var origRows: nat
    var origCols: nat
    var basisValid: bool
    const varBasic: array<int>
    const isBasic: array<bool>
    const isLower: array<bool>

    /** The arrays have room for the model. */
    ghost predicate Shaped()
      reads this
    {
      rows <= sum && rows < varBasic.Length && sum < isBasic.Length && sum < isLower.Length && isBasic != isLower
    }

    ghost predicate Valid()
      reads this, varBasic, isBasic
    {
      Shaped() && IsBasis(varBasic[..], isBasic[..], rows, sum)
    }

    /** Presolve has changed the number of rows or columns. */
    predicate Resized()
      reads this
    {
      rows != origRows || sum - rows != origCols
    }

    constructor (rows: nat, sum: nat, capacity: nat)
      requires rows <= sum <= capacity
      ensures this.rows == rows && this.sum == sum && Shaped() && !wasPresolved && !Resized()
      ensures fresh(varBasic) && fresh(isBasic) && fresh(isLower)
      ensures varBasic.Length == isBasic.Length == isLower.Length == capacity + 1
    {
      this.rows, this.sum, origRows, origCols, wasPresolved := rows, sum, rows, sum - rows, false;
      varBasic, isBasic, isLower := new int[capacity + 1], new bool[capacity + 1], new bool[capacity + 1];
    }

    /** `default_basis`: the slacks are basic, everything is at its lower bound. */
    method DefaultBasis()
      requires Shaped()
      modifies varBasic, isBasic, isLower
      ensures Valid()
      ensures forall i :: 1 <= i <= rows ==> varBasic[i] == i
      ensures isBasic[..] == DefaultFlags(old(isBasic[..]), rows, sum) && isLower[..] == DefaultBounds(old(isLower[..]), sum)
    {
      hide IsBasis;
      var i := 1;
      while i <= rows
        invariant 1 <= i <= rows + 1
        invariant forall j :: 1 <= j < i ==> varBasic[j] == j
        invariant forall j :: 1 <= j < i ==> isBasic[j] && isLower[j]
        invariant forall j :: 0 <= j < isBasic.Length && !(1 <= j < i) ==> isBasic[j] == old(isBasic[..])[j]
        invariant forall j :: 0 <= j < isLower.Length && !(1 <= j < i) ==> isLower[j] == old(isLower[..])[j]
      {
        varBasic[i], isBasic[i], isLower[i] := i, true, true;
        i := i + 1;
      }
      varBasic[0] := 1;
      ClearColumns(i);
      isLower[0] := true;
      SlackBasis(varBasic[..], isBasic[..], rows, sum);
    }

    method ClearColumns(i0: nat)
      requires Shaped() && i0 == rows + 1
      modifies isBasic, isLower
      ensures forall j :: 0 <= j < isBasic.Length ==> isBasic[j] == if rows < j <= sum then false else old(isBasic[..])[j]
      ensures forall j :: 0 <= j < isLower.Length ==> isLower[j] == if rows < j <= sum then true else old(isLower[..])[j]
    {
      var i := i0;
      while i <= sum
        invariant rows < i <= sum + 1
        invariant forall j :: 0 <= j < isBasic.Length ==> isBasic[j] == if rows < j < i then false else old(isBasic[..])[j]
        invariant forall j :: 0 <= j < isLower.Length ==> isLower[j] == if rows < j < i then true else old(isLower[..])[j]
      {
        isBasic[i], isLower[i] := false, true;
        i := i + 1;
      }
    }

    /** `verify_basis`. */
    method VerifyBasis() returns (ok: bool)
      requires Shaped()
      ensures ok <==> Verified(varBasic[..], isBasic[..], rows, sum)
    {
      var i := 1;
      while i <= rows
        invariant 1 <= i <= rows + 1
        invariant forall j :: 1 <= j < i ==> 1 <= varBasic[j] <= sum && isBasic[varBasic[j]]
      {
        var ii := varBasic[i];
        if ii < 1 || ii > sum || !isBasic[ii] {
          return false;
        }
        i := i + 1;
      }
      var left: int := rows;
      i := 1;
      while i <= sum
        invariant 1 <= i <= sum + 1 && left == rows - CountTo(isBasic[..], i - 1)
      {
        if isBasic[i] {
          left := left - 1;
        }
        i := i + 1;
      }
      ok := left == 0;
    }

    /** `set_basisvar`. */
    method SetBasisVar(basisPos: nat, enteringCol: int) returns (leavingCol: int)
      requires Valid() && 1 <= basisPos <= rows && 1 <= enteringCol <= sum
      modifies varBasic, isBasic
      ensures leavingCol == old(varBasic[basisPos])
      ensures forall i :: 1 <= i <= rows ==> varBasic[i] == if i == basisPos then enteringCol else old(varBasic[i])
      ensures forall k :: 1 <= k <= sum ==> (isBasic[k] <==> k == enteringCol || (old(isBasic[k]) && k != leavingCol))
      ensures Valid() <==> !old(isBasic[enteringCol]) || enteringCol == leavingCol
    {
      ghost var vb0, isb0 := varBasic[..], isBasic[..];
      leavingCol := varBasic[basisPos];
      varBasic[0] := 0;
      varBasic[basisPos] := enteringCol;
      isBasic[leavingCol] := false;
      isBasic[enteringCol] := true;
      Replaced(vb0, isb0, varBasic[..], isBasic[..], rows, sum, basisPos, enteringCol);
    }

    lemma ValidParts()
      requires Valid()
      ensures Shaped() && IsBasis(varBasic[..], isBasic[..], rows, sum)
      ensures rows <= sum && rows < varBasic.Length && sum < isBasic.Length && sum < isLower.Length
    {
    }

    // ---------------------------------------------------------------- shift_basis

    /** `shift_basis` for an insertion of `delta` indices at `base`. The counts are changed by the caller. */
    method InsertBasis(base: nat, delta: nat, isrow: bool, updating: bool)
      requires Valid() && 1 <= base <= sum + 1 && delta > 0 && (isrow ==> base <= rows + 1)
      requires sum + delta < isBasic.Length && (isrow ==> rows + delta < varBasic.Length)
      modifies varBasic, isBasic
      ensures FlagsInserted(old(isBasic[..]), isBasic[..], base, delta, isrow, sum)
      ensures IndicesInserted(old(varBasic[..]), varBasic[..], base, delta, isrow, updating, rows)
      ensures IsBasis(varBasic[..], isBasic[..], if isrow then rows + delta else rows, sum + delta)
         <==> updating || NoneFrom(old(varBasic[..]), rows, base)
    {
      hide *;
      ghost var vb0, isb0 := varBasic[..], isBasic[..];
      ValidParts();
      MoveFlags(base, delta);
      if updating {
        UpdateIndices(base, delta);
      }
      ghost var vb1 := varBasic[..];
      InsertNew(base, delta, isrow, isb0, vb1);
      IndicesAre(vb0, vb1, varBasic[..], base, delta, isrow, updating, rows);
      InsertExact(vb0, isb0, varBasic[..], isBasic[..], base, delta, isrow, updating, rows, sum);
    }

    method UpdateIndices(base: nat, delta: nat)
      requires Shaped()
      modifies varBasic
      ensures forall j :: 1 <= j <= rows ==> varBasic[j] == Shift(old(varBasic[..])[j], base, delta)
    {
      ghost var vb0 := varBasic[..];
      var i := 1;
      while i <= rows
        invariant 1 <= i <= rows + 1
        invariant forall j :: 1 <= j < i ==> varBasic[j] == Shift(vb0[j], base, delta)
        invariant forall j :: i <= j <= rows ==> varBasic[j] == vb0[j]
      {
        if varBasic[i] >= base {
          varBasic[i] := varBasic[i] + delta;
        }
        i := i + 1;
      }
    }

    /** Move the flags from `base` on up by `delta`. */
    method MoveFlags(base: nat, delta: nat)
      requires Shaped() && 1 <= base <= sum + 1 && sum + delta < isBasic.Length
      modifies isBasic
      ensures forall k :: 0 <= k < isBasic.Length ==>
                isBasic[k] == MovedFlag(old(isBasic[..]), base + delta, delta, sum, k)
    {
      ghost var isb0 := isBasic[..];
      var i := sum;
      while i >= base
        invariant base - 1 <= i <= sum
        invariant forall k :: 0 <= k < isBasic.Length ==>
                    isBasic[k] == MovedFlag(isb0, i + delta + 1, delta, sum, k)
      {
        isBasic[i + delta] := isBasic[i];
        i := i - 1;
      }
    }

    /** Set the flags of the new indices, and make new slacks basic. */
    method InsertNew(base: nat, delta: nat, isrow: bool, ghost isb0: seq<bool>, ghost vb1: seq<int>)
      requires Shaped() && 1 <= base <= sum + 1 && vb1 == varBasic[..] && |isb0| == isBasic.Length
      requires sum + delta < isBasic.Length && (isrow ==> rows + delta < varBasic.Length)
      requires forall k :: 0 <= k < isBasic.Length ==>
                 isBasic[k] == MovedFlag(isb0, base + delta, delta, sum, k)
      modifies varBasic, isBasic
      ensures FlagsInserted(isb0, isBasic[..], base, delta, isrow, sum)
      ensures forall i :: 1 <= i <= rows ==> varBasic[i] == vb1[i]
      ensures isrow ==> forall i :: rows < i <= rows + delta ==> varBasic[i] == base + (i - rows - 1)
    {
      var i := 0;
      while i < delta
        invariant 0 <= i <= delta
        invariant forall k :: 1 <= k <= sum + delta && !(base + i <= k < base + delta) ==>
                    isBasic[k] == FlagInserted(isb0, base, delta, isrow, k)
        invariant forall j :: 1 <= j <= rows ==> varBasic[j] == vb1[j]
        invariant isrow ==> forall j :: rows < j <= rows + i ==> varBasic[j] == base + (j - rows - 1)
      {
        isBasic[base + i] := isrow;
        if isrow {
          varBasic[rows + 1 + i] := base + i;
        }
        i := i + 1;
      }
    }

    /** `shift_basis` for the deletion of base..base + d - 1. Returns what the code returns. */
    method DeleteBasis(base: nat, d: nat, isrow: bool, isEquality: seq<bool>) returns (ok: bool)
      requires Valid() && 1 <= base && d > 0 && (if isrow then base + d <= rows + 1 else rows < base && base + d <= sum + 1)
      requires |isEquality| > rows
      modifies varBasic, isBasic
      ensures IsBasis(varBasic[..], isBasic[..], if isrow then rows - d else rows, sum - d)
      ensures var kept := Kept(old(varBasic[1..rows + 1]), base, d);
              && ok == (d <= if !isrow && |kept| < rows then 0 else |kept|)
              && (isrow ==> varBasic[1..rows - d + 1] <= kept)
              && (!isrow ==> kept <= varBasic[1..rows + 1] && FilledUp(varBasic[..], isBasic[..], |kept|, rows, rows, isEquality))
    {
      hide *;
      ValidParts();
      var k := Survivors(base, d);
      if isrow {
        FinishRows(k, rows - d, sum - d);
      } else {
        FinishColumns(k, sum - d, isEquality);
        if k < rows {
          k := 0;
        }
      }
      ok := k - d >= 0;
    }

    method Survivors(base: nat, d: nat) returns (k: nat)
      requires Valid() && 1 <= base && base + d <= sum + 1
      modifies varBasic, isBasic
      ensures Shaped() && rows - d <= k <= rows && InRange(varBasic[..], k, sum - d) && Distinct(varBasic[..], k)
      ensures varBasic[1..k + 1] == Kept(old(varBasic[1..rows + 1]), base, d)
      ensures forall j :: 1 <= j <= sum ==> !isBasic[j]
    {
      ghost var vb0 := varBasic[..];
      assert vb0[1..rows + 1] == varBasic[1..rows + 1];
      hide InRange, Distinct, Kept;
      k := Compact(base, d);
      assert varBasic[..][1..k + 1] == varBasic[1..k + 1];
      KeptIsBasis(vb0, varBasic[..], isBasic[..], rows, sum, base, d, k);
    }

    /** Set the flags of the first `m` of the `k` survivors of a row deletion. */
    method FinishRows(k: nat, m: nat, n: nat)
      requires Shaped() && m <= k <= rows && n <= sum && InRange(varBasic[..], k, n) && Distinct(varBasic[..], k)
      requires forall j :: 1 <= j <= sum ==> !isBasic[j]
      modifies isBasic
      ensures IsBasis(varBasic[..], isBasic[..], m, n)
      ensures varBasic[1..m + 1] <= varBasic[1..k + 1]
    {
      hide IsBasis, InRange, Distinct;
      FirstPart(varBasic[..], k, m, n);
      MarkBasic(m, n);
    }

    /** Set the flags of the `k` survivors of a column deletion and fill up with slacks. */
    method FinishColumns(k: nat, n: nat, isEquality: seq<bool>)
      requires Shaped() && k <= rows <= n <= sum && InRange(varBasic[..], k, n) && Distinct(varBasic[..], k) && rows < |isEquality|
      requires forall j :: 1 <= j <= sum ==> !isBasic[j]
      modifies varBasic, isBasic
      ensures IsBasis(varBasic[..], isBasic[..], rows, n)
      ensures old(varBasic[1..k + 1]) <= varBasic[1..rows + 1]
      ensures FilledUp(varBasic[..], isBasic[..], k, rows, rows, isEquality)
    {
      hide IsBasis, InRange, Distinct, FilledUp;
      ghost var kept := varBasic[1..k + 1];
      MarkBasic(k, n);
      if k < rows {
        Refill(k, n, isEquality);
        assert varBasic[1..rows + 1][..k] == varBasic[1..k + 1];
      } else {
        NothingFilled(varBasic[..], isBasic[..], rows, isEquality);
      }
    }

    /** Drop the deleted indices from the basic vector and renumber the others; clear all flags. */
    method Compact(base: nat, d: nat) returns (k: nat)
      requires Valid() && 1 <= base && base + d <= sum + 1
      modifies varBasic, isBasic
      ensures k <= rows && varBasic[1..k + 1] == Kept(old(varBasic[1..rows + 1]), base, d)
      ensures forall j :: 1 <= j <= sum ==> !isBasic[j]
    {
      ghost var vb0, isb0 := varBasic[..], isBasic[..];
      StillFlaggedAtStart(vb0, isb0, rows, sum);
      assert InRange(vb0, rows, sum);
      hide IsBasis, StillFlagged, InRange;
      k := 0;
      var i := 1;
      while i <= rows
        invariant 1 <= i <= rows + 1 && Compacted(vb0, varBasic[..], isBasic[..], rows, sum, base, d, i, k)
      {
        k := CompactOne(base, d, k, i, vb0);
        i := i + 1;
      }
      NoneFlagged(vb0, isBasic[..], rows, sum);
    }

    method CompactOne(base: nat, d: nat, k: nat, i: nat, ghost vb0: seq<int>) returns (k': nat)
      requires Shaped() && InRange(vb0, rows, sum) && 1 <= i <= rows
      requires Compacted(vb0, varBasic[..], isBasic[..], rows, sum, base, d, i, k)
      modifies varBasic, isBasic
      ensures Compacted(vb0, varBasic[..], isBasic[..], rows, sum, base, d, i + 1, k')
    {
      hide *;
      k' := k;
      ghost var vb, isb := varBasic[..], isBasic[..];
      CompactedParts(vb0, vb, isb, rows, sum, base, d, i, k);
      var ii := varBasic[i];
      isBasic[ii] := false;
      if ii >= base {
        if ii < base + d {
          return;
        }
        ii := ii - d;
      }
      k' := k + 1;
      varBasic[k'] := ii;
    }

    /** Set the flags of the first `m` basic indices. */
    method MarkBasic(m: nat, n: nat)
      requires Shaped() && n <= sum && InRange(varBasic[..], m, n) && Distinct(varBasic[..], m)
      requires forall j :: 1 <= j <= sum ==> !isBasic[j]
      modifies isBasic
      ensures IsBasis(varBasic[..], isBasic[..], m, n)
    {
      var i := m;
      while i > 0
        invariant 0 <= i <= m
        invariant forall k :: 1 <= k <= sum ==> (isBasic[k] <==> k in varBasic[i + 1..m + 1])
      {
        var j := varBasic[i];
        assert varBasic[i..m + 1] == [j] + varBasic[i + 1..m + 1];
        isBasic[j] := true;
        i := i - 1;
      }
    }

    /** Make slacks basic until there are as many basic indices as rows: two scans, the first without
        equality slacks. */
    method Refill(k0: nat, n: nat, isEquality: seq<bool>)
      requires Shaped() && k0 < rows <= n <= sum && IsBasis(varBasic[..], isBasic[..], k0, n) && rows < |isEquality|
      modifies varBasic, isBasic
      ensures IsBasis(varBasic[..], isBasic[..], rows, n) && varBasic[1..k0 + 1] == old(varBasic[1..k0 + 1])
      ensures FilledUp(varBasic[..], isBasic[..], k0, rows, rows, isEquality)
    {
      hide *;
      NothingScanned(varBasic[..], isBasic[..], k0, rows, n, isEquality);
      var k := Scan(k0, k0, n, false, isEquality);
      if k < rows {
        FirstScanDone(isBasic[..], rows, isEquality);
        ghost var vb1 := varBasic[1..k0 + 1];
        k := Scan(k0, k, n, true, isEquality);
        if k < rows {
          AllFilled(varBasic[..], isBasic[..], k, rows, n, isEquality);
        }
      }
    }

    /** One scan over the slacks. */
    method Scan(ghost k0: nat, k1: nat, n: nat, second: bool, isEquality: seq<bool>) returns (k: nat)
      requires Shaped() && k0 <= k1 <= rows <= n <= sum && IsBasis(varBasic[..], isBasic[..], k1, n)
      requires FilledUp(varBasic[..], isBasic[..], k0, k1, rows, isEquality) && Scanned(isBasic[..], 1, second, rows, isEquality)
      modifies varBasic, isBasic
      ensures k1 <= k <= rows && IsBasis(varBasic[..], isBasic[..], k, n)
      ensures FilledUp(varBasic[..], isBasic[..], k0, k, rows, isEquality)
      ensures k < rows ==> Scanned(isBasic[..], rows + 1, second, rows, isEquality)
      ensures varBasic[1..k0 + 1] == old(varBasic[1..k0 + 1])
    {
      k := k1;
      var i := 1;
      ghost var kept := varBasic[1..k0 + 1];
      hide *;
      while i <= rows && k < rows
        invariant 1 <= i <= rows + 1 && k1 <= k <= rows
        invariant Scanning(varBasic[..], isBasic[..], k0, k, rows, n, i, second, isEquality, kept)
      {
        k := ScanOne(k0, k, n, i, second, isEquality, kept);
        i := i + 1;
      }
    }

    method ScanOne(ghost k0: nat, k: nat, n: nat, i: nat, second: bool, isEquality: seq<bool>, ghost kept: seq<int>) returns (k': nat)
      requires Shaped() && k < rows <= n <= sum && 1 <= i <= rows
      requires Scanning(varBasic[..], isBasic[..], k0, k, rows, n, i, second, isEquality, kept)
      modifies varBasic, isBasic
      ensures k <= k' <= rows && Scanning(varBasic[..], isBasic[..], k0, k', rows, n, i + 1, second, isEquality, kept)
    {
      hide IsBasis, FilledUp;
      k' := k;
      if !isBasic[i] && (!isEquality[i] || second) {
        FillNext(varBasic[..], isBasic[..], k0, k, rows, n, i, second, isEquality);
        k' := k + 1;
        varBasic[k'] := i;
        isBasic[i] := true;
        assert varBasic[1..k0 + 1] == kept;
      } else {
        SkipSlack(isBasic[..], i, second, rows, isEquality);
      }
    }

    // ---------------------------------------------------------------- set_basis and get_basis

    /** `set_basis`: load a basis from signed indices, the nonbasic ones too if `nonbasic`. */
    method SetBasis(bas: array<int>, nonbasic: bool) returns (ok: bool)
      requires Shaped() && bas != varBasic && bas.Length > if nonbasic then sum else rows
      modifies this`basisValid, varBasic, isBasic, isLower
      ensures ok <==> !(wasPresolved && Resized()) && Acceptable(bas[..], rows, sum, if nonbasic then sum else rows)
      ensures ok ==> Valid() && basisValid && Loaded(bas[..], varBasic[..], isLower[..], rows, sum, if nonbasic then sum else rows)
      ensures wasPresolved && Resized() ==> unchanged(varBasic) && unchanged(isBasic) && unchanged(isLower)
      ensures !ok ==> basisValid == old(basisValid)
    {
      if wasPresolved && Resized() {
        return false;
      }
      ClearBasis();
      var n := if nonbasic then sum else rows;
      assert rows <= n && rows < varBasic.Length;
      hide *;
      ok := LoadAll(bas, n);
      if !ok {
        return;
      }
      LoadDone(bas[..], varBasic[..], isBasic[..], isLower[..], rows, sum, n);
      VerifyMeans(varBasic[..], isBasic[..], rows, sum);
      ok := VerifyBasis();
      if ok {
        ghost var vb := varBasic[..];
        basisValid := true;
        varBasic[0] := 0;
        MarkerIsFree(bas[..], vb, varBasic[..], isBasic[..], isLower[..], rows, sum, n);
        StillValid();
      }
    }

    /** The entries 1..n; stops at one that is out of range. */
    method LoadAll(bas: array<int>, n: nat) returns (good: bool)
      requires Shaped() && bas != varBasic && n < bas.Length
      requires forall k :: 1 <= k <= sum ==> isLower[k]
      requires forall k :: 1 <= k <= sum ==> !isBasic[k]
      modifies varBasic, isBasic, isLower
      ensures good ==> Loading(bas[..], varBasic[..], isBasic[..], isLower[..], rows, sum, n + 1)
      ensures !good ==> !Acceptable(bas[..], rows, sum, n)
    {
      StartLoad(bas);
      hide *;
      var i := 1;
      while i <= n
        invariant 1 <= i <= n + 1 && Loading(bas[..], varBasic[..], isBasic[..], isLower[..], rows, sum, i)
      {
        var s := bas[i];
        var k := if s < 0 then -s else s;
        if k <= 0 || k > sum {
          NotAcceptable(bas[..], rows, sum, n, i) by { assert Abs(s) == k; }
          return false;
        }
        LoadOne(bas, i, s, k);
        i := i + 1;
      }
      good := true;
    }

    lemma StillValid()
      requires Shaped() && IsBasis(varBasic[..], isBasic[..], rows, sum)
      ensures Valid()
    {
    }

    lemma StartLoad(bas: array<int>)
      requires Shaped() && bas.Length > 0
      requires forall k :: 1 <= k <= sum ==> isLower[k]
      requires forall k :: 1 <= k <= sum ==> !isBasic[k]
      ensures Loading(bas[..], varBasic[..], isBasic[..], isLower[..], rows, sum, 1)
      ensures rows <= sum && varBasic.Length > rows
    {
    }

    /** One entry of `set_basis`. */
    method LoadOne(bas: array<int>, i: nat, s: int, k: nat)
      requires Shaped() && bas != varBasic && 1 <= i < bas.Length && s == bas[i] && k == Abs(s) && 1 <= k <= sum
      requires Loading(bas[..], varBasic[..], isBasic[..], isLower[..], rows, sum, i)
      modifies varBasic, isBasic, isLower
      ensures Loading(bas[..], varBasic[..], isBasic[..], isLower[..], rows, sum, i + 1)
    {
      hide Loading;
      LoadNext(bas[..], varBasic[..], isBasic[..], isLower[..], rows, sum, i);
      if i <= rows {
        varBasic[i] := k;
        isBasic[k] := true;
      } else if s > 0 {
        isLower[k] := false;
      }
    }

    /** `get_basis`: the basic indices and, if `nonbasic`, the nonbasic ones, negated at their lower bound. */
    method GetBasis(bas: array<int>, nonbasic: bool) returns (ok: bool)
      requires Valid() && bas != varBasic && bas.Length > if nonbasic then sum else rows
      modifies bas
      ensures ok <==> basisValid && !Resized()
      ensures !ok ==> unchanged(bas)
      ensures ok && nonbasic ==> Saved(bas[..], varBasic[..], isBasic[..], isLower[..], rows, sum)
      ensures ok ==> bas[0] == 0 && forall i :: 1 <= i <= rows ==> bas[i] == Signed(isLower[..], varBasic[i])
    {
      if !basisValid || Resized() {
        return false;
      }
      SaveBasic(bas);
      if nonbasic {
        SaveNonbasic(bas, rows + 1);
      }
      ok := true;
    }

    /** Save the basic indices in positions 1..rows. */
    method SaveBasic(bas: array<int>)
      requires Valid() && bas != varBasic && bas.Length > rows
      modifies bas
      ensures bas[0] == 0 && forall i :: 1 <= i <= rows ==> bas[i] == Signed(isLower[..], varBasic[i])
    {
      bas[0] := 0;
      var i := 1;
      while i <= rows
        invariant 1 <= i <= rows + 1 && Valid() && bas[0] == 0
        invariant forall q :: 1 <= q < i ==> bas[q] == Signed(isLower[..], varBasic[q])
      {
        var k := varBasic[i];
        bas[i] := if isLower[k] then -k else k;
        i := i + 1;
      }
    }

    method SaveOne(bas: array<int>, ghost bas0: seq<int>, ghost isb: seq<bool>, ghost isl: seq<bool>, i: nat, k: nat) returns (i': nat)
      requires Shaped() && bas != varBasic && isb == isBasic[..] && isl == isLower[..] && 1 <= k <= sum && i <= sum
      requires Saving(bas[..], bas0, isb, isl, rows, sum, i, k)
      modifies bas
      ensures Saving(bas[..], bas0, isb, isl, rows, sum, i', k + 1)
    {
      i' := i;
      if !isBasic[k] {
        ghost var before := bas[rows + 1..i];
        var s: int := k;
        bas[i] := if isLower[k] then -s else s;
        i' := i + 1;
        assert bas[rows + 1..i'] == before + [Signed(isl, k)];
      }
    }

    /** Append the nonbasic indices from position `i0` on. */
    method SaveNonbasic(bas: array<int>, i0: nat)
      requires Valid() && bas != varBasic && bas.Length > sum && i0 == rows + 1
      modifies bas
      ensures forall q :: 0 <= q <= rows ==> bas[q] == old(bas[..])[q]
      ensures bas[..][rows + 1..sum + 1] == NonbasicTo(isBasic[..], isLower[..], sum)
    {
      hide *;
      ghost var bas0, isb, isl := bas[..], isBasic[..], isLower[..];
      ValidParts();
      StartSaving(bas0, varBasic[..], isb, isl, rows, sum);
      var i: nat, k: nat := i0, 1;
      while k <= sum && i <= sum
        invariant 1 <= k <= sum + 1 && Saving(bas[..], bas0, isb, isl, rows, sum, i, k)
      {
        i := SaveOne(bas, bas0, isb, isl, i, k);
        k := k + 1;
      }
      SavingDone(bas[..], bas0, isb, isl, rows, sum, i, k);
    }

    /** Nothing basic, everything at its lower bound. */
    method ClearBasis()
      requires Shaped()
      modifies varBasic, isBasic, isLower
      ensures forall k :: 1 <= k <= sum ==> isLower[k]
      ensures forall k :: 1 <= k <= sum ==> !isBasic[k]
    {
      isLower[0] := true;
      var i := 1;
      while i <= sum
        invariant 1 <= i <= sum + 1
        invariant forall k :: 1 <= k < i ==> isLower[k]
        invariant forall k :: 1 <= k < i ==> !isBasic[k]
      {
        isLower[i], isBasic[i] := true, false;
        i := i + 1;
      }
      i := 1;
      while i <= rows
        invariant 1 <= i <= rows + 1
        invariant forall k :: 1 <= k <= sum ==> isLower[k]
        invariant forall k :: 1 <= k <= sum ==> !isBasic[k]
      {
        varBasic[i] := 0;
        i := i + 1;
      }
    }

    // ---------------------------------------------------------------- basis files

    /** `MPS_writeBAS`: the lines of a basis file. */
    method WriteBas() returns (lines: seq<Line>)
      requires Shaped()
      ensures lines == Written(isBasic[..], isLower[..], rows, sum)
    {
      ghost var isb, isl := isBasic[..], isLower[..];
      var ib, i := rows, 0;
      lines := [];
      ghost var round := 0;
      StartWriting(isb, isl, rows, sum);
      hide *;
      while ib < sum || i < sum
        invariant Writing(lines, isb, isl, rows, sum, ib, i, round)
        decreases if ib < sum then sum - ib else 0, if i < sum then sum - i else 0
      {
        var ib' := NextBasic(ib);
        var i' := NextNonbasic(i);
        WriteNext(lines, isb, isl, rows, sum, ib, i, round, ib', i');
        ib, i, round := ib', i', round + 1;
        if ib <= sum && i <= sum {
          lines := lines + [Pair(isLower[i], ib, i)];
        } else if i <= sum {
          lines := lines + [Single(isLower[i], i)];
        }
      }
      WritingDone(lines, isb, isl, rows, sum, ib, i, round);
      lines := lines + [EndData];
    }

    /** The next basic structural after `ib`, or a number above `sum`. */
    method NextBasic(ib: nat) returns (ib': nat)
      requires Shaped() && ib >= rows
      ensures ib < ib' && BasicStep(isBasic[..], rows, sum, ib, ib')
    {
      ib' := ib + 1;
      while ib' <= sum && !isBasic[ib']
        invariant ib < ib' && (ib < sum ==> ib' <= sum + 1) && (ib >= sum ==> ib' == ib + 1)
        invariant BasicCols(isBasic[..], rows, Min(ib' - 1, sum)) == BasicCols(isBasic[..], rows, Min(ib, sum))
      {
        ib' := ib' + 1;
      }
    }

    /** The next nonbasic index to be written after `i`, or a number above `sum`. */
    method NextNonbasic(i: nat) returns (i': nat)
      requires Shaped()
      ensures i < i' && NonbasicStep(isBasic[..], isLower[..], rows, sum, i, i')
    {
      i' := i + 1;
      while i' <= sum && (isBasic[i'] || (i' > rows && isLower[i']))
        invariant i < i' && (i < sum ==> i' <= sum + 1) && (i >= sum ==> i' == i + 1)
        invariant ToWrite(isBasic[..], isLower[..], rows, Min(i' - 1, sum)) == ToWrite(isBasic[..], isLower[..], rows, Min(i, sum))
      {
        i' := i' + 1;
      }
    }

    /** `MPS_readBAS`: start from the default basis, apply the lines up to the end mark or one that cannot be
        read, and list the basic indices in ascending order. */
    method ReadBas(lines: seq<Line>) returns (ok: bool)
      requires Shaped() && forall q :: 0 <= q < Entries(lines) ==> IsEntry(lines[q], sum)
      requires |BasicCols(FlagsAfter(DefaultFlags(isBasic[..], rows, sum), lines, Entries(lines), sum), 0, sum)| < varBasic.Length
      modifies varBasic, isBasic, isLower
      ensures ok <==> Entries(lines) < |lines| && lines[Entries(lines)].EndData?
      ensures isBasic[..] == FlagsAfter(DefaultFlags(old(isBasic[..]), rows, sum), lines, Entries(lines), sum)
      ensures isLower[..] == BoundsAfter(DefaultBounds(old(isLower[..]), sum), lines, Entries(lines), sum)
      ensures var asc := BasicCols(isBasic[..], 0, sum); |asc| < varBasic.Length && varBasic[1..|asc| + 1] == asc
    {
      DefaultBasis();
      assert sum < isBasic.Length && sum < isLower.Length;
      hide *;
      var q := ApplyLines(lines);
      ok := q < |lines| && lines[q].EndData?;
      ListBasic();
    }

    /** Apply the lines before the first that is no entry. */
    method ApplyLines(lines: seq<Line>) returns (q: nat)
      requires Shaped() && forall q :: 0 <= q < Entries(lines) ==> IsEntry(lines[q], sum)
      modifies isBasic, isLower
      ensures q == Entries(lines)
      ensures isBasic[..] == FlagsAfter(old(isBasic[..]), lines, Entries(lines), sum)
      ensures isLower[..] == BoundsAfter(old(isLower[..]), lines, Entries(lines), sum)
    {
      ghost var isb0, isl0 := isBasic[..], isLower[..];
      q := 0;
      while q < |lines| && (lines[q].Pair? || lines[q].Single?)
        invariant q <= Entries(lines)
        invariant isBasic[..] == FlagsAfter(isb0, lines, q, sum) && isLower[..] == BoundsAfter(isl0, lines, q, sum)
      {
        assert q < Entries(lines);
        ApplyLine(lines[q]);
        q := q + 1;
      }
    }

    method ApplyLine(l: Line)
      requires Shaped() && IsEntry(l, sum)
      modifies isBasic, isLower
      ensures isBasic[..] == SetFlags(old(isBasic[..]), l, sum) && isLower[..] == SetBound(old(isLower[..]), l, sum)
    {
      match l
      case Pair(lower, b, n) =>
        isLower[n] := lower;
        isBasic[b] := true;
        isBasic[n] := false;
      case Single(lower, n) =>
        isLower[n] := lower;
        isBasic[n] := false;
    }

    /** Fill the basic vector with the indices whose flag is set. */
    method ListBasic()
      requires Shaped() && |BasicCols(isBasic[..], 0, sum)| < varBasic.Length
      modifies varBasic
      ensures var asc := BasicCols(isBasic[..], 0, sum); |asc| < varBasic.Length && varBasic[1..|asc| + 1] == asc
    {
      var ib, i := 0, 1;
      ghost var isb := isBasic[..];
      while i <= sum
        invariant 1 <= i <= sum + 1 && isBasic[..] == isb
        invariant ib == |BasicCols(isb, 0, i - 1)| < varBasic.Length && varBasic[1..ib + 1] == BasicCols(isb, 0, i - 1)
      {
        BasicColsGrow(isb, 0, i, sum);
        if isBasic[i] {
          ghost var before := varBasic[1..ib + 1];
          ib := ib + 1;
          varBasic[ib] := i;
          assert varBasic[1..ib + 1] == before + [i];
        }
        i := i + 1;
      }
    }
  }
}
