/** The pass of `varmap_compact` over the entries of the maps, for whatever counts it is called with. */
module VarPasses {
  import opened Numbers
  import opened VarMaps

  // ------------------------------------------------------------------ what the pass computes

  /** The element of the original-to-current map that entry `i` is taken to refer to: that of a row for the
      first `pr` entries, that of a column for the rest. */
  function Slot(v: seq<int>, pr: nat, origRows: nat, i: nat): int
    requires i < |v|
  {
    if i <= pr then Abs(v[i]) else origRows + Abs(v[i])
  }

  /** Entries among 1..n that are not negated. */
  function Sum(v: seq<int>, n: nat): nat
    requires n < |v|
  {
    |Alive(v[1..n + 1])|
  }

  lemma SumNext(v: seq<int>, n: nat)
    requires 1 <= n < |v|
    ensures Alive(v[1..n + 1]) == Alive(v[1..n]) + if v[n] < 0 then [] else [v[n]]
    ensures Sum(v, n) == Sum(v, n - 1) + if v[n] < 0 then 0 else 1
  {
    assert v[1..n + 1] == v[1..n] + [v[n]];
    AliveSnoc(v[1..n], v[n]);
  }

  lemma {:induction false} SumGrows(v: seq<int>, m: nat, n: nat)
    requires m <= n < |v|
    ensures Sum(v, m) <= Sum(v, n) <= Sum(v, m) + (n - m)
  {
    if m < n {
      SumGrows(v, m, n - 1);
      SumNext(v, n);
    }
  }

  /** `n_rows` of the code after entries 1..n: the count at the last one that is positive. */
  function RowsUpTo(v: seq<int>, n: nat): nat
    requires n < |v|
  {
    if n == 0 then 0 else if v[n] > 0 then Sum(v, n) else RowsUpTo(v, n - 1)
  }

  lemma {:induction false} RowsAreSum(v: seq<int>, n: nat)
    requires n < |v| && forall i :: 1 <= i <= n ==> v[i] != 0
    ensures RowsUpTo(v, n) == Sum(v, n)
  {
    if n == 0 {
      assert v[1..1] == [];
    } else {
      RowsAreSum(v, n - 1);
      SumNext(v, n);
    }
  }

  /** The number that a positive entry `i` gives to its element. */
  function Place(v: seq<int>, pr: nat, i: nat): int
    requires i < |v|
  {
    if i <= pr then Sum(v, i) else Sum(v, i) - RowsUpTo(v, pr)
  }

  /** All entries among 1..n refer to elements of the map. */
  ghost predicate InTable(v: seq<int>, size: nat, pr: nat, origRows: nat, n: nat) {
    n < |v| && forall i: nat :: 1 <= i <= n && v[i] != 0 ==> 0 <= Slot(v, pr, origRows, i) < size
  }

  /** The original-to-current map after entries 1..n. */
  function Places(v: seq<int>, o: seq<int>, pr: nat, origRows: nat, n: nat): (r: seq<int>)
    requires InTable(v, |o|, pr, origRows, n)
    ensures |r| == |o|
  {
    if n == 0 then o
    else
      var r := Places(v, o, pr, origRows, n - 1);
      if v[n] == 0 then r else r[Slot(v, pr, origRows, n) := if v[n] < 0 then 0 else Place(v, pr, n)]
  }

  /** The current-to-original map after entries 1..n: those not negated have been moved together. */
  function Moved(v: seq<int>, n: nat): (r: seq<int>)
    requires n < |v|
    ensures |r| == |v|
  {
    SumGrows(v, 0, n);
    assert v[1..1] == [];
    v[..1] + Alive(v[1..n + 1]) + v[Sum(v, n) + 1..]
  }

  lemma MovedNext(v: seq<int>, n: nat)
    requires 1 <= n < |v|
    ensures Sum(v, n - 1) < n && Sum(v, n) <= n
    ensures Moved(v, n) == if v[n] < 0 then Moved(v, n - 1) else Moved(v, n - 1)[Sum(v, n) := v[n]]
  {
    SumNext(v, n);
    SumGrows(v, 0, n - 1);
    assert v[1..1] == [];
    hide Alive;
  }

  /** Entries not yet visited are where they were. */
  lemma MovedAhead(v: seq<int>, n: nat)
    requires n < |v|
    ensures forall q :: n < q < |v| ==> Moved(v, n)[q] == v[q]
  {
    SumGrows(v, 0, n);
    assert v[1..1] == [];
    hide Alive;
  }

  // ------------------------------------------------------------------ the last entry decides

  /** No entry among i + 1..n refers to the element of entry `i`. */
  ghost predicate LastFor(v: seq<int>, pr: nat, origRows: nat, n: nat, s: int, i: nat)
    requires n < |v|
  {
    1 <= i <= n && v[i] != 0 && Slot(v, pr, origRows, i) == s
    && forall j: nat :: i < j <= n && v[j] != 0 ==> Slot(v, pr, origRows, j) != s
  }

  ghost predicate NoneFor(v: seq<int>, pr: nat, origRows: nat, from: nat, n: nat, s: int)
    requires n < |v|
  {
    forall j: nat :: from < j <= n && v[j] != 0 ==> Slot(v, pr, origRows, j) != s
  }

  /** The last entry that refers to an element decides what it becomes. */
  lemma {:induction false} LastDecides(v: seq<int>, o: seq<int>, pr: nat, origRows: nat, n: nat, s: nat, i: nat)
    requires InTable(v, |o|, pr, origRows, n) && s < |o| && LastFor(v, pr, origRows, n, s, i)
    ensures Places(v, o, pr, origRows, n)[s] == if v[i] < 0 then 0 else Place(v, pr, i)
  {
    if i < n {
      LastDecides(v, o, pr, origRows, n - 1, s, i);
    }
  }

  /** An element that no entry refers to keeps its value. */
  lemma {:induction false} NoneKeeps(v: seq<int>, o: seq<int>, pr: nat, origRows: nat, from: nat, n: nat, s: nat)
    requires InTable(v, |o|, pr, origRows, n) && s < |o| && from <= n && NoneFor(v, pr, origRows, from, n, s)
    ensures Places(v, o, pr, origRows, n)[s] == Places(v, o, pr, origRows, from)[s]
  {
    if from < n {
      NoneKeeps(v, o, pr, origRows, from, n - 1, s);
    }
  }

  /** There is a last one, or none. */
  lemma {:induction false} FindLast(v: seq<int>, pr: nat, origRows: nat, from: nat, n: nat, s: int) returns (i: nat)
    requires from <= n < |v|
    ensures from <= i <= n && (i == from ==> NoneFor(v, pr, origRows, from, n, s)) && (i > from ==> LastFor(v, pr, origRows, n, s, i))
  {
    i := from;
    if from < n {
      if v[n] != 0 && Slot(v, pr, origRows, n) == s {
        i := n;
      } else {
        i := FindLast(v, pr, origRows, from, n - 1, s);
      }
    }
  }

  // ------------------------------------------------------------------ the pass, entry by entry

  /** What holds in the loop of `varmap_compact` when entry `i` is next. */
  ghost predicate Passing(v0: seq<int>, o0: seq<int>, v: seq<int>, o: seq<int>, pr: nat, origRows: nat, i: nat, nSum: nat, nRows: nat) {
    && 1 <= i <= |v0| && InTable(v0, |o0|, pr, origRows, i - 1)
    && v == Moved(v0, i - 1) && o == Places(v0, o0, pr, origRows, i - 1)
    && nSum == Sum(v0, i - 1) && nRows == RowsUpTo(v0, Min(i - 1, pr))
  }

  lemma StartPassing(v: seq<int>, o: seq<int>, pr: nat, origRows: nat)
    requires |v| > 0
    ensures Passing(v, o, v, o, pr, origRows, 1, 0, 0)
  {
    assert v[1..1] == [];
  }

  lemma Passed(v0: seq<int>, o0: seq<int>, v: seq<int>, o: seq<int>, pr: nat, origRows: nat, n: nat, nSum: nat, nRows: nat)
    requires Passing(v0, o0, v, o, pr, origRows, n + 1, nSum, nRows)
    ensures InTable(v0, |o0|, pr, origRows, n) && v == Moved(v0, n) && o == Places(v0, o0, pr, origRows, n)
  {
  }

  /** What one entry changes. */
  lemma PassOne(v0: seq<int>, o0: seq<int>, v: seq<int>, o: seq<int>, pr: nat, pc: nat, origRows: nat, i: nat, nSum: nat, nRows: nat)
    requires InTable(v0, |o0|, pr, origRows, pr + pc) && i <= pr + pc
    requires Passing(v0, o0, v, o, pr, origRows, i, nSum, nRows)
    ensures nSum < i < |v| && (v[i] != 0 ==> 0 <= ElementOf(v[i], pr, origRows, i) < |o|)
    ensures var s := ElementOf(v[i], pr, origRows, i);
            if v[i] < 0 then Passing(v0, o0, v, o[s := 0], pr, origRows, i + 1, nSum, nRows)
            else if v[i] == 0 then Passing(v0, o0, v[nSum + 1 := 0], o, pr, origRows, i + 1, nSum + 1, nRows)
            else if i <= pr then Passing(v0, o0, v[nSum + 1 := v[i]], o[s := nSum + 1], pr, origRows, i + 1, nSum + 1, nSum + 1)
            else Passing(v0, o0, v[nSum + 1 := v[i]], o[s := nSum + 1 - nRows], pr, origRows, i + 1, nSum + 1, nRows)
  {
    hide *;
    PassingParts(v0, o0, v, o, pr, origRows, i, nSum, nRows);
    InTableLess(v0, |o0|, pr, origRows, pr + pc, i);
    MovedNext(v0, i);
    MovedAhead(v0, i - 1);
    SumNext(v0, i);
    SumIs(v0, i);
    SumIs(v0, i - 1);
    PlacesNext(v0, o0, pr, origRows, i);
    RowsNext(v0, pr, i);
    var s := ElementOf(v[i], pr, origRows, i);
    if v[i] < 0 {
      PassingIs(v0, o0, v, o[s := 0], pr, origRows, i + 1, nSum, nRows);
    } else if v[i] == 0 {
      PassingIs(v0, o0, v[nSum + 1 := 0], o, pr, origRows, i + 1, nSum + 1, nRows);
    } else if i <= pr {
      PassingIs(v0, o0, v[nSum + 1 := v[i]], o[s := nSum + 1], pr, origRows, i + 1, nSum + 1, nSum + 1);
    } else {
      PassingIs(v0, o0, v[nSum + 1 := v[i]], o[s := nSum + 1 - nRows], pr, origRows, i + 1, nSum + 1, nRows);
    }
  }

  /** The element that the value `x` of entry `i` refers to. */
  function ElementOf(x: int, pr: nat, origRows: nat, i: nat): (r: int)
    ensures r == (if i <= pr then 0 else origRows) + (if x < 0 then -x else x)
  {
    if i <= pr then Abs(x) else origRows + Abs(x)
  }

  lemma PassingParts(v0: seq<int>, o0: seq<int>, v: seq<int>, o: seq<int>, pr: nat, origRows: nat, i: nat, nSum: nat, nRows: nat)
    requires Passing(v0, o0, v, o, pr, origRows, i, nSum, nRows)
    ensures 1 <= i <= |v0| == |v| && |o0| == |o| && InTable(v0, |o0|, pr, origRows, i - 1)
    ensures v == Moved(v0, i - 1) && o == Places(v0, o0, pr, origRows, i - 1)
    ensures nSum == Sum(v0, i - 1) && nRows == RowsUpTo(v0, Min(i - 1, pr))
  {
  }

  lemma PassingIs(v0: seq<int>, o0: seq<int>, v: seq<int>, o: seq<int>, pr: nat, origRows: nat, i: nat, nSum: nat, nRows: nat)
    requires 1 <= i <= |v0| == |v| && |o0| == |o| && InTable(v0, |o0|, pr, origRows, i - 1)
    requires v == Moved(v0, i - 1) && o == Places(v0, o0, pr, origRows, i - 1)
    requires nSum == Sum(v0, i - 1) && nRows == RowsUpTo(v0, Min(i - 1, pr))
    ensures Passing(v0, o0, v, o, pr, origRows, i, nSum, nRows)
  {
  }

  lemma InTableLess(v: seq<int>, size: nat, pr: nat, origRows: nat, n: nat, m: nat)
    requires InTable(v, size, pr, origRows, n) && 1 <= m <= n
    ensures InTable(v, size, pr, origRows, m) && InTable(v, size, pr, origRows, m - 1) && m < |v|
    ensures v[m] != 0 ==> 0 <= ElementOf(v[m], pr, origRows, m) < size
  {
    assert v[m] != 0 ==> 0 <= Slot(v, pr, origRows, m) < size;
  }

  lemma SumIs(v: seq<int>, n: nat)
    requires n < |v|
    ensures Sum(v, n) == |Alive(v[1..n + 1])|
  {
  }

  lemma PlacesNext(v: seq<int>, o: seq<int>, pr: nat, origRows: nat, n: nat)
    requires InTable(v, |o|, pr, origRows, n) && n > 0 && InTable(v, |o|, pr, origRows, n - 1)
    requires v[n] != 0 ==> 0 <= ElementOf(v[n], pr, origRows, n) < |o|
    ensures Places(v, o, pr, origRows, n)
         == if v[n] == 0 then Places(v, o, pr, origRows, n - 1)
            else Places(v, o, pr, origRows, n - 1)[ElementOf(v[n], pr, origRows, n) :=
                   if v[n] < 0 then 0 else if n <= pr then Sum(v, n) else Sum(v, n) - RowsUpTo(v, pr)]
  {
  }

  lemma RowsNext(v: seq<int>, pr: nat, i: nat)
    requires 1 <= i < |v|
    ensures RowsUpTo(v, Min(i, pr)) == if i <= pr && v[i] > 0 then Sum(v, i) else RowsUpTo(v, Min(i - 1, pr))
    ensures i > pr ==> Min(i - 1, pr) == pr
  {
  }

  // ------------------------------------------------------------------ called with the counts of the round

  /** Called with the counts before the round, the pass makes the maps mutually inverse again. */
  lemma RoundCompacts(v: seq<int>, o: seq<int>, rows: nat, cols: nat, origRows: nat, origCols: nat)
    requires MutualMarked(v, o, rows, cols, origRows, origCols)
    ensures InTable(v, |o|, rows, origRows, rows + cols)
    ensures var rs, cs := Alive(RowBlock(v, rows)), Alive(ColBlock(v, rows, cols));
            var v', o' := Moved(v, rows + cols), Places(v, o, rows, origRows, rows + cols);
            && |rs| + |cs| < |v'| && RowBlock(v', |rs|) == rs && ColBlock(v', |rs|, |cs|) == cs
            && Mutual(v', o', |rs|, |cs|, origRows, origCols)
  {
    RoundInTable(v, o, rows, cols, origRows, origCols);
    var rs, cs := RowBlock(v, rows), ColBlock(v, rows, cols);
    var o' := Places(v, o, rows, origRows, rows + cols);
    hide *;
    RowsRenumbered(v, o, rows, cols, origRows, origCols);
    ColsRenumbered(v, o, rows, cols, origRows, origCols);
    RenumberedDone(rs, RowBlock(o, origRows), RowBlock(o', origRows));
    RenumberedDone(cs, ColBlock(o, origRows, origCols), ColBlock(o', origRows, origCols));
    MovedBlocks(v, rows, cols);
    MutualIs(Moved(v, rows + cols), o', |Alive(rs)|, |Alive(cs)|, origRows, origCols);
  }

  lemma MutualIs(v: seq<int>, o: seq<int>, rows: nat, cols: nat, origRows: nat, origCols: nat)
    requires rows + cols < |v| && origRows + origCols < |o|
    requires Inverse(RowBlock(v, rows), RowBlock(o, origRows)) && Inverse(ColBlock(v, rows, cols), ColBlock(o, origRows, origCols))
    ensures Mutual(v, o, rows, cols, origRows, origCols)
  {
  }

  lemma MovedBlocks(v: seq<int>, rows: nat, cols: nat)
    requires rows + cols < |v|
    ensures var rs, cs := Alive(RowBlock(v, rows)), Alive(ColBlock(v, rows, cols)); var v' := Moved(v, rows + cols);
            |rs| + |cs| == Sum(v, rows + cols) < |v'| && RowBlock(v', |rs|) == rs && ColBlock(v', |rs|, |cs|) == cs
  {
    var rs, cs := RowBlock(v, rows), ColBlock(v, rows, cols);
    assert v[1..rows + cols + 1] == rs + cs;
    AliveAppend(rs, cs);
    SumGrows(v, 0, rows + cols);
    assert v[1..1] == [];
    hide Alive;
  }

  /** What a marked round looks like entry by entry. */
  lemma RoundEntry(v: seq<int>, o: seq<int>, rows: nat, cols: nat, origRows: nat, origCols: nat, i: nat)
    requires MutualMarked(v, o, rows, cols, origRows, origCols) && 1 <= i <= rows + cols
    ensures v[i] != 0 && 1 <= Abs(v[i]) <= if i <= rows then origRows else origCols
    ensures o[Slot(v, rows, origRows, i)] == if i <= rows then i else i - rows
  {
    if i <= rows {
      BlockEntry(RowBlock(v, rows), RowBlock(o, origRows), i - 1);
    } else {
      BlockEntry(ColBlock(v, rows, cols), ColBlock(o, origRows, origCols), i - rows - 1);
    }
  }

  lemma RoundInTable(v: seq<int>, o: seq<int>, rows: nat, cols: nat, origRows: nat, origCols: nat)
    requires MutualMarked(v, o, rows, cols, origRows, origCols)
    ensures InTable(v, |o|, rows, origRows, rows + cols)
  {
    forall i: nat | 1 <= i <= rows + cols ensures 0 <= Slot(v, rows, origRows, i) < |o| {
      RoundEntry(v, o, rows, cols, origRows, origCols, i);
    }
  }

  /** Every element is referred to by at most one entry of a round. */
  lemma RoundLast(v: seq<int>, o: seq<int>, rows: nat, cols: nat, origRows: nat, origCols: nat, i: nat)
    requires MutualMarked(v, o, rows, cols, origRows, origCols) && 1 <= i <= rows + cols
    ensures LastFor(v, rows, origRows, rows + cols, Slot(v, rows, origRows, i), i)
  {
    RoundEntry(v, o, rows, cols, origRows, origCols, i);
    forall j: nat | i < j <= rows + cols ensures Slot(v, rows, origRows, j) != Slot(v, rows, origRows, i) {
      RoundEntry(v, o, rows, cols, origRows, origCols, j);
    }
  }

  lemma RowsRenumbered(v: seq<int>, o: seq<int>, rows: nat, cols: nat, origRows: nat, origCols: nat)
    requires MutualMarked(v, o, rows, cols, origRows, origCols) && InTable(v, |o|, rows, origRows, rows + cols)
    ensures Renumbered(RowBlock(v, rows), RowBlock(o, origRows), RowBlock(Places(v, o, rows, origRows, rows + cols), origRows))
  {
    var xs, os0 := RowBlock(v, rows), RowBlock(o, origRows);
    var os := RowBlock(Places(v, o, rows, origRows, rows + cols), origRows);
    assert |os| == |os0| == origRows && |xs| == rows && MarkedBlock(xs, os0);
    forall q | 0 <= q < |xs| ensures 1 <= Abs(xs[q]) <= |os| && os[Abs(xs[q]) - 1] == PlaceOf(xs, q) {
      RowRenumbered(v, o, rows, cols, origRows, origCols, q);
    }
    forall r | 0 <= r < |os| && r + 1 !in Absolute(xs) ensures os[r] == 0 {
      RowDeleted(v, o, rows, cols, origRows, origCols, r);
    }
    hide *;
    RenumberedIs(xs, os0, os);
  }

  lemma RenumberedIs(xs: seq<int>, os0: seq<int>, os: seq<int>)
    requires |os| == |os0| && MarkedBlock(xs, os0)
    requires forall q :: 0 <= q < |xs| ==> 1 <= Abs(xs[q]) <= |os| && os[Abs(xs[q]) - 1] == PlaceOf(xs, q)
    requires forall r :: 0 <= r < |os| && r + 1 !in Absolute(xs) ==> os[r] == 0
    ensures Renumbered(xs, os0, os)
  {
  }

  lemma RowRenumbered(v: seq<int>, o: seq<int>, rows: nat, cols: nat, origRows: nat, origCols: nat, q: nat)
    requires MutualMarked(v, o, rows, cols, origRows, origCols) && InTable(v, |o|, rows, origRows, rows + cols) && q < rows
    ensures var xs := RowBlock(v, rows);
            1 <= Abs(xs[q]) <= origRows && Places(v, o, rows, origRows, rows + cols)[Abs(xs[q])] == PlaceOf(xs, q)
  {
    var xs, i := RowBlock(v, rows), q + 1;
    RoundEntry(v, o, rows, cols, origRows, origCols, i);
    RoundLast(v, o, rows, cols, origRows, origCols, i);
    LastDecides(v, o, rows, origRows, rows + cols, Slot(v, rows, origRows, i), i);
    assert xs[..i] == v[1..i + 1];
    hide MutualMarked, Places, LastFor, Alive;
  }

  lemma RowDeleted(v: seq<int>, o: seq<int>, rows: nat, cols: nat, origRows: nat, origCols: nat, r: nat)
    requires MutualMarked(v, o, rows, cols, origRows, origCols) && InTable(v, |o|, rows, origRows, rows + cols)
    requires r < origRows && r + 1 !in Absolute(RowBlock(v, rows))
    ensures Places(v, o, rows, origRows, rows + cols)[r + 1] == 0
  {
    var xs, os0 := RowBlock(v, rows), RowBlock(o, origRows);
    forall j: nat | 1 <= j <= rows + cols ensures Slot(v, rows, origRows, j) != r + 1 {
      RoundEntry(v, o, rows, cols, origRows, origCols, j);
      if j <= rows {
        assert Absolute(xs)[j - 1] == Abs(v[j]);
      }
    }
    NoneKeeps(v, o, rows, origRows, 0, rows + cols, r + 1);
    assert ZeroIfDeleted(Absolute(xs), os0, r);
    hide Absolute, InTable;
  }

  lemma ColsRenumbered(v: seq<int>, o: seq<int>, rows: nat, cols: nat, origRows: nat, origCols: nat)
    requires MutualMarked(v, o, rows, cols, origRows, origCols) && InTable(v, |o|, rows, origRows, rows + cols)
    ensures Renumbered(ColBlock(v, rows, cols), ColBlock(o, origRows, origCols),
                       ColBlock(Places(v, o, rows, origRows, rows + cols), origRows, origCols))
  {
    var xs, os0 := ColBlock(v, rows, cols), ColBlock(o, origRows, origCols);
    var os := ColBlock(Places(v, o, rows, origRows, rows + cols), origRows, origCols);
    assert |os| == |os0| == origCols && |xs| == cols && MarkedBlock(xs, os0);
    hide *;
    forall q | 0 <= q < |xs| ensures 1 <= Abs(xs[q]) <= |os| && os[Abs(xs[q]) - 1] == PlaceOf(xs, q) {
      ColRenumbered(v, o, rows, cols, origRows, origCols, q);
    }
    forall r | 0 <= r < |os| && r + 1 !in Absolute(xs) ensures os[r] == 0 {
      ColDeleted(v, o, rows, cols, origRows, origCols, r);
    }
    RenumberedIs(xs, os0, os);
  }

  lemma ColDeleted(v: seq<int>, o: seq<int>, rows: nat, cols: nat, origRows: nat, origCols: nat, r: nat)
    requires MutualMarked(v, o, rows, cols, origRows, origCols) && InTable(v, |o|, rows, origRows, rows + cols)
    requires r < origCols && r + 1 !in Absolute(ColBlock(v, rows, cols))
    ensures Places(v, o, rows, origRows, rows + cols)[origRows + r + 1] == 0
    ensures ColBlock(Places(v, o, rows, origRows, rows + cols), origRows, origCols)[r] == 0
  {
    var xs, os0 := ColBlock(v, rows, cols), ColBlock(o, origRows, origCols);
    forall j: nat | 1 <= j <= rows + cols ensures Slot(v, rows, origRows, j) != origRows + r + 1 {
      RoundEntry(v, o, rows, cols, origRows, origCols, j);
      if j > rows {
        assert Absolute(xs)[j - rows - 1] == Abs(v[j]);
      }
    }
    NoneKeeps(v, o, rows, origRows, 0, rows + cols, origRows + r + 1);
    assert ZeroIfDeleted(Absolute(xs), os0, r);
    hide Absolute, InTable;
  }

  lemma ColRenumbered(v: seq<int>, o: seq<int>, rows: nat, cols: nat, origRows: nat, origCols: nat, q: nat)
    requires MutualMarked(v, o, rows, cols, origRows, origCols) && InTable(v, |o|, rows, origRows, rows + cols) && q < cols
    ensures var xs := ColBlock(v, rows, cols);
            1 <= Abs(xs[q]) <= origCols
            && Places(v, o, rows, origRows, rows + cols)[origRows + Abs(xs[q])] == PlaceOf(xs, q)
            && ColBlock(Places(v, o, rows, origRows, rows + cols), origRows, origCols)[Abs(xs[q]) - 1] == PlaceOf(xs, q)
  {
    hide *;
    RoundSizes(v, o, rows, cols, origRows, origCols);
    var xs, i, o' := ColBlock(v, rows, cols), rows + q + 1, Places(v, o, rows, origRows, rows + cols);
    ColAt(v, rows, cols, q);
    RoundEntry(v, o, rows, cols, origRows, origCols, i);
    RoundLast(v, o, rows, cols, origRows, origCols, i);
    SlotOrPlace(v, rows, origRows, i);
    LastDecides(v, o, rows, origRows, rows + cols, Slot(v, rows, origRows, i), i);
    forall k | 1 <= k <= rows ensures v[k] != 0 {
      RoundEntry(v, o, rows, cols, origRows, origCols, k);
    }
    RowsAreSum(v, rows);
    SumSplits(v, rows, i);
    ColAt(o', origRows, origCols, Abs(v[i]) - 1);
    PlaceOfIs(xs, q);
  }

  lemma RoundSizes(v: seq<int>, o: seq<int>, rows: nat, cols: nat, origRows: nat, origCols: nat)
    requires MutualMarked(v, o, rows, cols, origRows, origCols)
    ensures rows + cols < |v| && origRows + origCols < |o|
  {
  }

  lemma ColAt(v: seq<int>, rows: nat, cols: nat, q: nat)
    requires rows + cols < |v| && q < cols
    ensures var xs := ColBlock(v, rows, cols); |xs| == cols && xs[q] == v[rows + q + 1] && xs[..q + 1] == v[rows + 1..rows + q + 2]
  {
  }

  lemma SlotOrPlace(v: seq<int>, pr: nat, origRows: nat, i: nat)
    requires pr < i < |v|
    ensures Slot(v, pr, origRows, i) == origRows + Abs(v[i]) && Place(v, pr, i) == Sum(v, i) - RowsUpTo(v, pr)
    ensures Abs(v[i]) >= 0
  {
  }

  lemma PlaceOfIs(xs: seq<int>, q: nat)
    requires q < |xs|
    ensures PlaceOf(xs, q) == if xs[q] < 0 then 0 else |Alive(xs[..q + 1])|
  {
  }

  lemma SumSplits(v: seq<int>, m: nat, n: nat)
    requires m <= n < |v|
    ensures Sum(v, n) == Sum(v, m) + |Alive(v[m + 1..n + 1])|
  {
    assert v[1..n + 1] == v[1..m + 1] + v[m + 1..n + 1];
    AliveAppend(v[1..m + 1], v[m + 1..n + 1]);
  }

  // ------------------------------------------------------------------ called with the original counts

  /** The maps between two rounds: `rows` and `cols` variables are left, and behind them are entries that
      earlier rounds have left over. */
  ghost predicate Leftover(v: seq<int>, o: seq<int>, rows: nat, cols: nat, origRows: nat, origCols: nat) {
    && Mutual(v, o, rows, cols, origRows, origCols) && rows <= origRows && cols <= origCols
    && |v| == |o| == origRows + origCols + 1
    && forall i: nat :: rows + cols < i <= origRows + origCols ==>
         v[i] != 0 && Abs(v[i]) <= if i <= origRows then origRows + origCols else origCols
  }

  /** `w` is `v` with some of the variables marked as deleted. */
  ghost predicate RoundOf(v: seq<int>, w: seq<int>, n: nat) {
    |w| == |v| && forall i :: 0 <= i < |v| ==> w[i] == v[i] || (1 <= i <= n && w[i] == -v[i])
  }

  /** Called with the original counts, the pass makes the maps mutually inverse for the round `w`. */
  ghost predicate Fits(w: seq<int>, o: seq<int>, rows: nat, cols: nat, origRows: nat, origCols: nat) {
    && rows + cols < |w| && InTable(w, |o|, origRows, origRows, origRows + origCols)
    && var rs, cs := Alive(RowBlock(w, rows)), Alive(ColBlock(w, rows, cols));
       var v', o' := Moved(w, origRows + origCols), Places(w, o, origRows, origRows, origRows + origCols);
       && |rs| + |cs| < |v'| && RowBlock(v', |rs|) == rs && ColBlock(v', |rs|, |cs|) == cs
       && Mutual(v', o', |rs|, |cs|, origRows, origCols)
  }

  /** No row has been deleted before, or no column is left; and the last leftover entry for each element is
      negated and refers to a variable that is deleted. */
  ghost predicate Safe(v: seq<int>, o: seq<int>, rows: nat, cols: nat, origRows: nat, origCols: nat)
    requires Leftover(v, o, rows, cols, origRows, origCols)
  {
    (rows == origRows || cols == 0) && LeftoverZero(v, o, rows + cols, origRows, origCols)
  }

  /** Every leftover entry that decides about an element is negated, and `o` has 0 for that element. */
  ghost predicate LeftoverZero(v: seq<int>, o: seq<int>, n: nat, origRows: nat, origCols: nat)
    requires origRows + origCols < |v|
  {
    forall i: nat :: n < i <= origRows + origCols && Decides(v, origRows, origCols, i) ==> RightlyZero(v, o, origRows, i)
  }

  /** With the original counts, entry `i` is the last one read for its element. */
  ghost predicate Decides(v: seq<int>, origRows: nat, origCols: nat, i: nat)
    requires i <= origRows + origCols < |v|
  {
    LastFor(v, origRows, origRows, origRows + origCols, Slot(v, origRows, origRows, i), i)
  }

  ghost predicate RightlyZero(v: seq<int>, o: seq<int>, origRows: nat, i: nat)
    requires i < |v|
  {
    v[i] < 0 && 0 <= Slot(v, origRows, origRows, i) < |o| && o[Slot(v, origRows, origRows, i)] == 0
  }

  /** While no row has been deleted before, or once no column is left, the call with the original counts is
      right for the round `w` exactly if every leftover entry that decides is negated and refers to a variable
      that is deleted, in this round or before it. */
  lemma OriginalCountsInRound(v: seq<int>, w: seq<int>, o: seq<int>, rows: nat, cols: nat, origRows: nat, origCols: nat)
    requires Leftover(v, o, rows, cols, origRows, origCols) && RoundOf(v, w, rows + cols) && (rows == origRows || cols == 0)
    ensures InTable(w, |o|, rows, origRows, rows + cols)
    ensures Fits(w, o, rows, cols, origRows, origCols)
       <==> LeftoverZero(v, Places(w, o, rows, origRows, rows + cols), rows + cols, origRows, origCols)
  {
    RoundMarked(v, w, o, rows, cols, origRows, origCols);
    RoundInTable(w, o, rows, cols, origRows, origCols);
    hide *;
    LeftoverSizes(v, o, rows, cols, origRows, origCols);
    var o1 := Places(w, o, rows, origRows, rows + cols);
    if LeftoverZero(v, o1, rows + cols, origRows, origCols) {
      ZeroFits(v, w, o, rows, cols, origRows, origCols);
    }
    if Fits(w, o, rows, cols, origRows, origCols) {
      forall i: nat | rows + cols < i <= origRows + origCols && Decides(v, origRows, origCols, i) ensures RightlyZero(v, o1, origRows, i) {
        LeftoverRead(v, w, o, rows, cols, origRows, origCols, i);
      }
      LeftoverIs(v, o1, rows + cols, origRows, origCols);
    }
  }

  lemma LeftoverIs(v: seq<int>, o: seq<int>, n: nat, origRows: nat, origCols: nat)
    requires origRows + origCols < |v|
    ensures LeftoverZero(v, o, n, origRows, origCols)
       <==> forall i: nat :: n < i <= origRows + origCols && Decides(v, origRows, origCols, i) ==> RightlyZero(v, o, origRows, i)
  {
  }

  /** A round that deletes something; without one `presolve_finalize` does not compact. */
  ghost predicate Deletion(v: seq<int>, w: seq<int>, n: nat) {
    RoundOf(v, w, n) && w != v
  }

  /** While several variables are left, the call with the original counts is right for every choice of
      deletions in this round exactly if the earlier rounds have left the maps safe for it. */
  lemma OriginalCounts(v: seq<int>, o: seq<int>, rows: nat, cols: nat, origRows: nat, origCols: nat)
    requires Leftover(v, o, rows, cols, origRows, origCols) && rows + cols >= 2
    ensures (forall w :: Deletion(v, w, rows + cols) ==> Fits(w, o, rows, cols, origRows, origCols))
       <==> Safe(v, o, rows, cols, origRows, origCols)
  {
    hide *;
    LeftoverSizes(v, o, rows, cols, origRows, origCols);
    if Safe(v, o, rows, cols, origRows, origCols) {
      forall w | Deletion(v, w, rows + cols) ensures Fits(w, o, rows, cols, origRows, origCols) {
        IsRound(v, w, rows + cols);
        SafeFits(v, w, o, rows, cols, origRows, origCols);
      }
    }
    if forall w :: Deletion(v, w, rows + cols) ==> Fits(w, o, rows, cols, origRows, origCols) {
      if rows < origRows && cols > 0 {
        var y := if rows == 0 then 2 else 1;
        var w1 := DeleteOne(v, v, o, rows, cols, origRows, origCols, y);
        var w2 := DeleteOne(v, w1, o, rows, cols, origRows, origCols, rows + 1);
        assert Fits(w1, o, rows, cols, origRows, origCols) && Fits(w2, o, rows, cols, origRows, origCols);
        ColumnMisread(v, w1, w2, o, rows, cols, origRows, origCols, y);
      }
      forall i: nat | rows + cols < i <= origRows + origCols && Decides(v, origRows, origCols, i) ensures RightlyZero(v, o, origRows, i) {
        var s := DecidedSlot(v, o, rows, cols, origRows, origCols, i);
        var y := if Slot(v, rows, origRows, 1) == s then 2 else 1;
        var w := DeleteOne(v, v, o, rows, cols, origRows, origCols, y);
        assert Fits(w, o, rows, cols, origRows, origCols);
        SlotsApart(v, o, rows, cols, origRows, origCols);
        DecidesRightly(v, w, o, rows, cols, origRows, origCols, i, s, y);
      }
      LeftoverIs(v, o, rows + cols, origRows, origCols);
      SafeIs(v, o, rows, cols, origRows, origCols);
    }
  }

  lemma IsRound(v: seq<int>, w: seq<int>, n: nat)
    requires Deletion(v, w, n)
    ensures RoundOf(v, w, n) && w != v
  {
  }

  /** Another variable can be deleted in a round. */
  lemma DeleteOne(v: seq<int>, w: seq<int>, o: seq<int>, rows: nat, cols: nat, origRows: nat, origCols: nat, y: nat) returns (w': seq<int>)
    requires Leftover(v, o, rows, cols, origRows, origCols) && 1 <= y <= rows + cols < |v|
    requires w == v || (RoundOf(v, w, rows + cols) && w[y] == v[y])
    ensures y < |w| && w' == w[y := -v[y]] && v[y] > 0
    ensures RoundOf(v, w', rows + cols) && Deletion(v, w', rows + cols)
  {
    LivePositive(v, o, rows, cols, origRows, origCols);
    w' := w[y := -v[y]];
    hide Leftover;
    assert w'[y] != v[y];
  }

  lemma SlotsApart(v: seq<int>, o: seq<int>, rows: nat, cols: nat, origRows: nat, origCols: nat)
    requires Leftover(v, o, rows, cols, origRows, origCols) && 2 <= rows + cols < |v|
    ensures Slot(v, rows, origRows, 1) != Slot(v, rows, origRows, 2)
  {
    hide *;
    SelfRound(v, rows + cols);
    RoundMarked(v, v, o, rows, cols, origRows, origCols);
    RoundLast(v, o, rows, cols, origRows, origCols, 1);
    NotLater(v, rows, origRows, rows + cols, 1, 2);
    RoundEntry(v, o, rows, cols, origRows, origCols, 2);
  }

  lemma NotLater(v: seq<int>, pr: nat, origRows: nat, n: nat, i: nat, j: nat)
    requires i < n < |v| && LastFor(v, pr, origRows, n, Slot(v, pr, origRows, i), i) && i < j <= n
    ensures v[j] != 0 ==> Slot(v, pr, origRows, j) != Slot(v, pr, origRows, i)
  {
  }

  /** In a round that fits and does not delete the element of a leftover entry that decides, that entry is
      negated and the element was deleted before. */
  lemma DecidesRightly(v: seq<int>, w: seq<int>, o: seq<int>, rows: nat, cols: nat, origRows: nat, origCols: nat, i: nat, s: nat, y: nat)
    requires Leftover(v, o, rows, cols, origRows, origCols) && (rows == origRows || cols == 0)
    requires 1 <= y <= rows + cols < |v| && w == v[y := -v[y]] && RoundOf(v, w, rows + cols) && Fits(w, o, rows, cols, origRows, origCols)
    requires rows + cols < i <= origRows + origCols < |v| && Decides(v, origRows, origCols, i)
    requires s == Slot(v, origRows, origRows, i) && 1 <= s <= origRows + origCols && v[i] != 0 && Slot(v, rows, origRows, y) != s
    ensures RightlyZero(v, o, origRows, i)
  {
    hide *;
    LeftoverSizes(v, o, rows, cols, origRows, origCols);
    OriginalCountsInRound(v, w, o, rows, cols, origRows, origCols);
    var o1 := Places(w, o, rows, origRows, rows + cols);
    LeftoverIs(v, o1, rows + cols, origRows, origCols);
    RightlyIs(v, o1, origRows, i);
    if o[s] != 0 {
      var k := LiveEntry(v, o, rows, cols, origRows, origCols, s);
      LiveNumber(v, w, o, rows, cols, origRows, origCols, k, s);
    }
    ZeroIs(v, o, origRows, i);
  }

  lemma RightlyIs(v: seq<int>, o: seq<int>, origRows: nat, i: nat)
    requires i < |v| && RightlyZero(v, o, origRows, i)
    ensures v[i] < 0 && 0 <= Slot(v, origRows, origRows, i) < |o| && o[Slot(v, origRows, origRows, i)] == 0
  {
  }

  /** An element that is not 0 belongs to a live entry. */
  lemma LiveEntry(v: seq<int>, o: seq<int>, rows: nat, cols: nat, origRows: nat, origCols: nat, s: nat) returns (k: nat)
    requires Leftover(v, o, rows, cols, origRows, origCols) && 1 <= s <= origRows + origCols < |o| && rows + cols < |v| && o[s] != 0
    ensures 1 <= k <= rows + cols && Slot(v, rows, origRows, k) == s
  {
    var rs, ro := RowBlock(v, rows), RowBlock(o, origRows);
    var cs, co := ColBlock(v, rows, cols), ColBlock(o, origRows, origCols);
    if s <= origRows {
      assert ro[s - 1] == o[s] && ZeroIfDeleted(rs, ro, s - 1);
      var q :| 0 <= q < |rs| && rs[q] == s;
      k := q + 1;
      assert v[k] == s;
    } else {
      assert co[s - origRows - 1] == o[s] && ZeroIfDeleted(cs, co, s - origRows - 1);
      var q :| 0 <= q < |cs| && cs[q] == s - origRows;
      k := rows + q + 1;
      assert v[k] == s - origRows;
    }
  }

  /** A variable that stays gets a positive number with the counts of the round; the first one of its kind that
      stays gets 1, and one that is deleted 0. */
  lemma LiveNumber(v: seq<int>, w: seq<int>, o: seq<int>, rows: nat, cols: nat, origRows: nat, origCols: nat, k: nat, s: nat)
    requires Leftover(v, o, rows, cols, origRows, origCols) && RoundOf(v, w, rows + cols) && 1 <= k <= rows + cols < |v| == |w|
    requires s == Slot(v, rows, origRows, k) && s < |o|
    requires InTable(w, |o|, rows, origRows, rows + cols)
    ensures w[k] == v[k] ==> Places(w, o, rows, origRows, rows + cols)[s] >= 1
    ensures w[k] == v[k] && k == rows + 1 ==> Places(w, o, rows, origRows, rows + cols)[s] == 1
    ensures w[k] != v[k] ==> Places(w, o, rows, origRows, rows + cols)[s] == 0
  {
    hide *;
    LivePositive(v, o, rows, cols, origRows, origCols);
    RoundMarked(v, w, o, rows, cols, origRows, origCols);
    RoundLast(w, o, rows, cols, origRows, origCols, k);
    RoundAt(v, w, rows + cols, k);
    SameSlot(v, w, rows, origRows, k);
    LastDecides(w, o, rows, origRows, rows + cols, s, k);
    forall i | 1 <= i <= rows ensures w[i] != 0 {
      RoundEntry(w, o, rows, cols, origRows, origCols, i);
    }
    RowsAreSum(w, rows);
    SumNext(w, k);
    SumIs(w, k);
    SumIs(w, k - 1);
    if k <= rows {
      PlaceIs(w, rows, k);
    } else {
      SlotOrPlace(w, rows, origRows, k);
      SumGrows(w, rows, k - 1);
    }
  }

  lemma RoundAt(v: seq<int>, w: seq<int>, n: nat, k: nat)
    requires RoundOf(v, w, n) && k < |v| == |w|
    ensures w[k] == v[k] || w[k] == -v[k]
  {
  }

  lemma SameSlot(v: seq<int>, w: seq<int>, pr: nat, origRows: nat, k: nat)
    requires k < |v| == |w| && (w[k] == v[k] || w[k] == -v[k])
    ensures Slot(w, pr, origRows, k) == Slot(v, pr, origRows, k)
  {
  }

  // ------------------------------------------------------------------ a single variable

  /** With a single variable left there is one round that deletes something. For it the original counts are
      right exactly if all leftover entries that decide are negated, and some entry is read as referring to
      the variable. */
  lemma OneLeft(v: seq<int>, w: seq<int>, o: seq<int>, rows: nat, cols: nat, origRows: nat, origCols: nat)
    requires Leftover(v, o, rows, cols, origRows, origCols) && rows + cols == 1 && Deletion(v, w, 1)
    ensures |v| == origRows + origCols + 1 && w == v[1 := -v[1]]
    ensures Fits(w, o, rows, cols, origRows, origCols)
       <==> (forall i: nat :: 1 < i <= origRows + origCols && Decides(v, origRows, origCols, i) ==> v[i] < 0)
            && (exists i: nat :: 1 <= i <= origRows + origCols && Slot(v, origRows, origRows, i) == Slot(v, rows, origRows, 1))
  {
    hide *;
    LeftoverSizes(v, o, rows, cols, origRows, origCols);
    OnlyRound(v, w);
    IsRound(v, w, 1);
    LivePositive(v, o, rows, cols, origRows, origCols);
    AllInTable(v, w, o, rows, cols, origRows, origCols);
    AllGone(w, o, rows, cols, origRows, origCols);
    var all := origRows + origCols;
    var o' := Places(w, o, origRows, origRows, all);
    if Fits(w, o, rows, cols, origRows, origCols) {
      forall i: nat | 1 < i <= all && Decides(v, origRows, origCols, i) ensures v[i] < 0 {
        var s := DecidedSlot(v, o, rows, cols, origRows, origCols, i);
        SameLast(v, w, o, rows, cols, origRows, origCols, s, i);
        LastDecides(w, o, origRows, origRows, all, s, i);
        LeftoverSame(v, w, 1, i);
        ZeroIn(o', all, s);
        if v[i] > 0 {
          LeftoverPlace(v, w, o, rows, cols, origRows, origCols, i);
        }
      }
      var i := OneRead(v, w, o, rows, cols, origRows, origCols);
    }
    if (forall i: nat :: 1 < i <= all && Decides(v, origRows, origCols, i) ==> v[i] < 0)
       && exists i: nat :: 1 <= i <= all && Slot(v, origRows, origRows, i) == Slot(v, rows, origRows, 1) {
      var j: nat :| 1 <= j <= all && Slot(v, origRows, origRows, j) == Slot(v, rows, origRows, 1);
      forall s: nat | 1 <= s <= all ensures o'[s] == 0 {
        OneZero(v, w, o, rows, cols, origRows, origCols, s, j);
      }
      ZeroAll(o', all);
    }
  }

  lemma OnlyRound(v: seq<int>, w: seq<int>)
    requires Deletion(v, w, 1) && |v| > 1
    ensures w == v[1 := -v[1]] && w[1] != v[1]
  {
    assert w == v[1 := w[1]];
    assert v[1 := v[1]] == v;
  }

  ghost predicate AllZero(o: seq<int>, n: nat) {
    n < |o| && forall s :: 1 <= s <= n ==> o[s] == 0
  }

  /** When the round leaves nothing, the maps fit exactly if every element is 0. */
  lemma AllGone(w: seq<int>, o: seq<int>, rows: nat, cols: nat, origRows: nat, origCols: nat)
    requires rows + cols == 1 && |w| == |o| == origRows + origCols + 1 && rows <= origRows && cols <= origCols && w[1] < 0
    requires InTable(w, |o|, origRows, origRows, origRows + origCols)
    ensures Fits(w, o, rows, cols, origRows, origCols)
       <==> AllZero(Places(w, o, origRows, origRows, origRows + origCols), origRows + origCols)
  {
    var v', o' := Moved(w, origRows + origCols), Places(w, o, origRows, origRows, origRows + origCols);
    assert RowBlock(w, rows) == if rows == 1 then [w[1]] else [];
    assert ColBlock(w, rows, cols) == if rows == 1 then [] else [w[1]];
    NothingAlive(RowBlock(w, rows));
    NothingAlive(ColBlock(w, rows, cols));
    hide *;
    MutualOfNone(v', o', origRows, origCols);
    FitsNone(w, o, rows, cols, origRows, origCols);
  }

  lemma FitsNone(w: seq<int>, o: seq<int>, rows: nat, cols: nat, origRows: nat, origCols: nat)
    requires rows + cols == 1 && |w| == |o| == origRows + origCols + 1 && rows <= origRows && cols <= origCols
    requires Alive(RowBlock(w, rows)) == [] && Alive(ColBlock(w, rows, cols)) == []
    requires InTable(w, |o|, origRows, origRows, origRows + origCols)
    ensures Fits(w, o, rows, cols, origRows, origCols)
       <==> Mutual(Moved(w, origRows + origCols), Places(w, o, origRows, origRows, origRows + origCols), 0, 0, origRows, origCols)
  {
    var v' := Moved(w, origRows + origCols);
    assert RowBlock(v', 0) == [] && ColBlock(v', 0, 0) == [];
    assert 0 < |v'|;
    hide Mutual, Places, Alive, InTable;
  }

  lemma MutualOfNone(v: seq<int>, o: seq<int>, origRows: nat, origCols: nat)
    requires |v| > 0 && |o| == origRows + origCols + 1
    ensures Mutual(v, o, 0, 0, origRows, origCols) <==> AllZero(o, origRows + origCols)
  {
    var ro, co := RowBlock(o, origRows), ColBlock(o, origRows, origCols);
    assert RowBlock(v, 0) == [] && ColBlock(v, 0, 0) == [];
    InverseOfNone(ro);
    InverseOfNone(co);
    assert forall s :: 1 <= s <= origRows ==> ro[s - 1] == o[s];
    assert forall s :: origRows < s <= origRows + origCols ==> co[s - origRows - 1] == o[s];
    assert forall r :: 0 <= r < origRows ==> ro[r] == o[r + 1];
    assert forall r :: 0 <= r < origCols ==> co[r] == o[origRows + r + 1];
    hide Inverse;
  }

  lemma NothingAlive(xs: seq<int>)
    requires |xs| <= 1 && forall k :: 0 <= k < |xs| ==> xs[k] < 0
    ensures Alive(xs) == []
  {
    if xs != [] {
      assert xs[..0] == [];
    }
  }

  lemma InverseOfNone(os: seq<int>)
    ensures Inverse([], os) <==> forall r :: 0 <= r < |os| ==> os[r] == 0
  {
    if Inverse([], os) {
      forall r | 0 <= r < |os| ensures os[r] == 0 {
        assert ZeroIfDeleted([], os, r);
      }
    }
  }

  /** The element of the variable has been read, or it would not have become 0. */
  lemma OneRead(v: seq<int>, w: seq<int>, o: seq<int>, rows: nat, cols: nat, origRows: nat, origCols: nat) returns (i: nat)
    requires Leftover(v, o, rows, cols, origRows, origCols) && rows + cols == 1 && RoundOf(v, w, 1)
    requires |v| == |w| == |o| == origRows + origCols + 1 && InTable(w, |o|, origRows, origRows, origRows + origCols)
    requires AllZero(Places(w, o, origRows, origRows, origRows + origCols), origRows + origCols)
    ensures 1 <= i <= origRows + origCols && Slot(v, origRows, origRows, i) == Slot(v, rows, origRows, 1)
  {
    hide *;
    var all := origRows + origCols;
    LeftoverSizes(v, o, rows, cols, origRows, origCols);
    SelfRound(v, 1);
    RoundMarked(v, v, o, rows, cols, origRows, origCols);
    RoundEntry(v, o, rows, cols, origRows, origCols, 1);
    SlotRange(v, rows, origRows, origCols);
    var s: nat := Slot(v, rows, origRows, 1);
    i := FindLast(w, origRows, origRows, 0, all, s);
    if i == 0 {
      ZeroIn(Places(w, o, origRows, origRows, all), all, s);
      OneNumber(v, o, rows, cols, origRows, origCols);
      NoneKeeps(w, o, origRows, origRows, 0, all, s);
      NoPlaces(w, o, origRows, origRows);
    } else {
      SameLast(v, w, o, rows, cols, origRows, origCols, s, i);
      SlotOfLast(v, origRows, all, s, i);
    }
  }

  lemma ZeroIn(o: seq<int>, n: nat, s: nat)
    requires AllZero(o, n) && 1 <= s <= n
    ensures o[s] == 0
  {
  }

  lemma OneNumber(v: seq<int>, o: seq<int>, rows: nat, cols: nat, origRows: nat, origCols: nat)
    requires Leftover(v, o, rows, cols, origRows, origCols) && rows + cols == 1
    ensures |v| > 1 && 0 <= Slot(v, rows, origRows, 1) < |o| && o[Slot(v, rows, origRows, 1)] == 1
  {
    hide *;
    LeftoverSizes(v, o, rows, cols, origRows, origCols);
    SelfRound(v, 1);
    RoundMarked(v, v, o, rows, cols, origRows, origCols);
    RoundEntry(v, o, rows, cols, origRows, origCols, 1);
    SlotRange(v, rows, origRows, origCols);
  }

  lemma SlotRange(v: seq<int>, rows: nat, origRows: nat, origCols: nat)
    requires 1 < |v| && 1 <= Abs(v[1]) <= if 1 <= rows then origRows else origCols
    ensures 1 <= Slot(v, rows, origRows, 1) <= origRows + origCols
  {
  }

  lemma OneZero(v: seq<int>, w: seq<int>, o: seq<int>, rows: nat, cols: nat, origRows: nat, origCols: nat, s: nat, j: nat)
    requires Leftover(v, o, rows, cols, origRows, origCols) && rows + cols == 1 && RoundOf(v, w, 1)
    requires |v| == |w| == |o| == origRows + origCols + 1 && InTable(w, |o|, origRows, origRows, origRows + origCols) && w[1] < 0
    requires forall i: nat :: 1 < i <= origRows + origCols && Decides(v, origRows, origCols, i) ==> v[i] < 0
    requires 1 <= j <= origRows + origCols && Slot(v, origRows, origRows, j) == Slot(v, rows, origRows, 1)
    requires 1 <= s <= origRows + origCols
    ensures Places(w, o, origRows, origRows, origRows + origCols)[s] == 0
  {
    hide *;
    var all := origRows + origCols;
    LeftoverSizes(v, o, rows, cols, origRows, origCols);
    AllInTable(v, w, o, rows, cols, origRows, origCols);
    var i := FindLast(w, origRows, origRows, 0, all, s);
    if i == 0 {
      NoneKeeps(w, o, origRows, origRows, 0, all, s);
      NoPlaces(w, o, origRows, origRows);
      NotRead(w, origRows, all, s, j);
      OthersZero(v, o, rows, cols, origRows, origCols, s);
    } else {
      SameLast(v, w, o, rows, cols, origRows, origCols, s, i);
      SlotOfLast(v, origRows, all, s, i);
      LastDecides(w, o, origRows, origRows, all, s, i);
      if i > 1 {
        LeftoverSame(v, w, 1, i);
        DecidesIs(v, origRows, origCols, i, s);
      }
    }
  }

  lemma OthersZero(v: seq<int>, o: seq<int>, rows: nat, cols: nat, origRows: nat, origCols: nat, s: nat)
    requires Leftover(v, o, rows, cols, origRows, origCols) && rows + cols == 1 && 1 <= s <= origRows + origCols
    requires 1 < |v| && s < |o| && Slot(v, rows, origRows, 1) != s
    ensures o[s] == 0
  {
    hide *;
    LeftoverSizes(v, o, rows, cols, origRows, origCols);
    if o[s] != 0 {
      var k := LiveEntry(v, o, rows, cols, origRows, origCols, s);
    }
  }

  lemma ZeroAll(o: seq<int>, n: nat)
    requires n < |o| && forall s: nat :: 1 <= s <= n ==> o[s] == 0
    ensures AllZero(o, n)
  {
  }

  lemma NotRead(w: seq<int>, origRows: nat, n: nat, s: int, j: nat)
    requires n < |w| && NoneFor(w, origRows, origRows, 0, n, s) && 1 <= j <= n && w[j] != 0
    ensures Slot(w, origRows, origRows, j) != s
  {
  }

  lemma DecidesIs(v: seq<int>, origRows: nat, origCols: nat, i: nat, s: int)
    requires origRows + origCols < |v| && LastFor(v, origRows, origRows, origRows + origCols, s, i)
    ensures i <= origRows + origCols && Decides(v, origRows, origCols, i)
  {
  }

  lemma SafeIs(v: seq<int>, o: seq<int>, rows: nat, cols: nat, origRows: nat, origCols: nat)
    requires Leftover(v, o, rows, cols, origRows, origCols) && (rows == origRows || cols == 0)
    requires origRows + origCols < |v| && LeftoverZero(v, o, rows + cols, origRows, origCols)
    ensures Safe(v, o, rows, cols, origRows, origCols)
  {
  }

  lemma ZeroSame(v: seq<int>, o: seq<int>, o': seq<int>, rows: nat, cols: nat, origRows: nat, origCols: nat)
    requires origRows + origCols < |v| && |o| == |o'| == origRows + origCols + 1
    requires forall s :: 1 <= s <= origRows + origCols && o[s] == 0 ==> o'[s] == 0
    requires LeftoverZero(v, o, rows + cols, origRows, origCols)
    ensures LeftoverZero(v, o', rows + cols, origRows, origCols)
  {
    forall i: nat | rows + cols < i <= origRows + origCols && Decides(v, origRows, origCols, i) ensures RightlyZero(v, o', origRows, i) {
      assert RightlyZero(v, o, origRows, i);
    }
  }

  /** Maps that list the same originals number them alike. */
  lemma MutualUnique(v: seq<int>, v': seq<int>, o: seq<int>, o': seq<int>, rows: nat, cols: nat, origRows: nat, origCols: nat)
    requires Mutual(v, o, rows, cols, origRows, origCols) && Mutual(v', o', rows, cols, origRows, origCols)
    requires RowBlock(v, rows) == RowBlock(v', rows) && ColBlock(v, rows, cols) == ColBlock(v', rows, cols)
    ensures forall s :: 1 <= s <= origRows + origCols ==> o[s] == o'[s]
  {
    InverseUnique(RowBlock(v, rows), RowBlock(o, origRows), RowBlock(o', origRows));
    InverseUnique(ColBlock(v, rows, cols), ColBlock(o, origRows, origCols), ColBlock(o', origRows, origCols));
    forall s | 1 <= s <= origRows + origCols ensures o[s] == o'[s] {
      if s <= origRows {
        assert RowBlock(o', origRows)[s - 1] == o'[s] && RowBlock(o, origRows)[s - 1] == o[s];
      } else {
        assert ColBlock(o', origRows, origCols)[s - origRows - 1] == o'[s] && ColBlock(o, origRows, origCols)[s - origRows - 1] == o[s];
      }
    }
  }

  lemma RoundMarked(v: seq<int>, w: seq<int>, o: seq<int>, rows: nat, cols: nat, origRows: nat, origCols: nat)
    requires Leftover(v, o, rows, cols, origRows, origCols) && RoundOf(v, w, rows + cols)
    ensures MutualMarked(w, o, rows, cols, origRows, origCols)
  {
    BlockMarked(RowBlock(v, rows), RowBlock(w, rows), RowBlock(o, origRows));
    BlockMarked(ColBlock(v, rows, cols), ColBlock(w, rows, cols), ColBlock(o, origRows, origCols));
    hide Inverse, MarkedBlock;
  }

  lemma BlockMarked(xs: seq<int>, ys: seq<int>, os: seq<int>)
    requires Inverse(xs, os) && |ys| == |xs| && forall k :: 0 <= k < |xs| ==> ys[k] == xs[k] || ys[k] == -xs[k]
    ensures MarkedBlock(ys, os)
  {
    forall k | 0 <= k < |xs| ensures xs[k] >= 1 {
      assert Placed(xs, os, k);
    }
    assert Absolute(ys) == xs;
  }

  lemma LeftoverSizes(v: seq<int>, o: seq<int>, rows: nat, cols: nat, origRows: nat, origCols: nat)
    requires Leftover(v, o, rows, cols, origRows, origCols)
    ensures |v| == |o| == origRows + origCols + 1 && rows <= origRows && cols <= origCols
    ensures Mutual(v, o, rows, cols, origRows, origCols)
  {
  }

  lemma AllInTable(v: seq<int>, w: seq<int>, o: seq<int>, rows: nat, cols: nat, origRows: nat, origCols: nat)
    requires Leftover(v, o, rows, cols, origRows, origCols) && RoundOf(v, w, rows + cols)
    ensures InTable(w, |o|, origRows, origRows, origRows + origCols)
    ensures forall i: nat :: 1 <= i <= origRows + origCols ==> w[i] != 0 && Slot(w, origRows, origRows, i) == Slot(v, origRows, origRows, i)
  {
    RoundMarked(v, w, o, rows, cols, origRows, origCols);
    forall i: nat | 1 <= i <= origRows + origCols
      ensures w[i] != 0 && Slot(w, origRows, origRows, i) == Slot(v, origRows, origRows, i) && 0 <= Slot(w, origRows, origRows, i) < |o|
    {
      if i <= rows + cols {
        RoundEntry(w, o, rows, cols, origRows, origCols, i);
      }
    }
  }

  /** The elements that live entries refer to when read with the counts of the round are not 0. */
  lemma LiveNotZero(w: seq<int>, o: seq<int>, rows: nat, cols: nat, origRows: nat, origCols: nat, s: nat)
    requires MutualMarked(w, o, rows, cols, origRows, origCols) && s < |o| && o[s] == 0
    ensures NoneFor(w, rows, origRows, 0, rows + cols, s)
  {
    forall j: nat | 0 < j <= rows + cols ensures Slot(w, rows, origRows, j) != s {
      RoundEntry(w, o, rows, cols, origRows, origCols, j);
    }
  }

  /** Entries that both counts take for rows are treated alike. */
  lemma {:induction false} SameReading(v: seq<int>, o: seq<int>, pr: nat, pr': nat, origRows: nat, n: nat)
    requires InTable(v, |o|, pr, origRows, n) && n <= pr && n <= pr'
    ensures InTable(v, |o|, pr', origRows, n) && Places(v, o, pr', origRows, n) == Places(v, o, pr, origRows, n)
  {
    assert InTable(v, |o|, pr', origRows, n) by {
      forall i: nat | 1 <= i <= n && v[i] != 0 ensures 0 <= Slot(v, pr', origRows, i) < |o| {
        assert Slot(v, pr, origRows, i) == Slot(v, pr', origRows, i);
      }
    }
    if n > 0 {
      SameReading(v, o, pr, pr', origRows, n - 1);
    }
  }

  lemma MovedPrefix(v: seq<int>, m: nat, n: nat)
    requires m <= n < |v|
    ensures Sum(v, m) <= m && Moved(v, n)[1..Sum(v, m) + 1] == Alive(v[1..m + 1]) == Moved(v, m)[1..Sum(v, m) + 1]
  {
    assert v[1..n + 1] == v[1..m + 1] + v[m + 1..n + 1];
    AliveAppend(v[1..m + 1], v[m + 1..n + 1]);
    SumGrows(v, 0, m);
    assert v[1..1] == [];
    hide Alive;
  }

  lemma SafeFits(v: seq<int>, w: seq<int>, o: seq<int>, rows: nat, cols: nat, origRows: nat, origCols: nat)
    requires Leftover(v, o, rows, cols, origRows, origCols) && RoundOf(v, w, rows + cols) && Safe(v, o, rows, cols, origRows, origCols)
    ensures Fits(w, o, rows, cols, origRows, origCols)
  {
    hide *;
    LeftoverSizes(v, o, rows, cols, origRows, origCols);
    SafeParts(v, o, rows, cols, origRows, origCols);
    OriginalCountsInRound(v, w, o, rows, cols, origRows, origCols);
    RoundMarked(v, w, o, rows, cols, origRows, origCols);
    var o1 := Places(w, o, rows, origRows, rows + cols);
    forall s | 1 <= s <= origRows + origCols && o[s] == 0 ensures o1[s] == 0 {
      LiveNotZero(w, o, rows, cols, origRows, origCols, s);
      RoundSize(v, w, rows + cols);
      NoneKeeps(w, o, rows, origRows, 0, rows + cols, s);
      NoPlaces(w, o, rows, origRows);
    }
    ZeroSame(v, o, o1, rows, cols, origRows, origCols);
  }

  lemma SafeParts(v: seq<int>, o: seq<int>, rows: nat, cols: nat, origRows: nat, origCols: nat)
    requires Leftover(v, o, rows, cols, origRows, origCols) && Safe(v, o, rows, cols, origRows, origCols)
    ensures (rows == origRows || cols == 0) && origRows + origCols < |v| && LeftoverZero(v, o, rows + cols, origRows, origCols)
  {
  }

  lemma ZeroFits(v: seq<int>, w: seq<int>, o: seq<int>, rows: nat, cols: nat, origRows: nat, origCols: nat)
    requires Leftover(v, o, rows, cols, origRows, origCols) && RoundOf(v, w, rows + cols) && (rows == origRows || cols == 0)
    requires origRows + origCols < |v| && InTable(w, |o|, rows, origRows, rows + cols)
    requires LeftoverZero(v, Places(w, o, rows, origRows, rows + cols), rows + cols, origRows, origCols)
    ensures Fits(w, o, rows, cols, origRows, origCols)
  {
    hide *;
    var n, all := rows + cols, origRows + origCols;
    LeftoverSizes(v, o, rows, cols, origRows, origCols);
    AllInTable(v, w, o, rows, cols, origRows, origCols);
    RoundMarked(v, w, o, rows, cols, origRows, origCols);
    RoundCompacts(w, o, rows, cols, origRows, origCols);
    RoundSize(v, w, n);
    var o1, o2 := Places(w, o, rows, origRows, n), Places(w, o, origRows, origRows, all);
    forall s: nat | s < |o| ensures o2[s] == o1[s] {
      ZeroElement(v, w, o, rows, cols, origRows, origCols, s);
    }
    assert o2 == o1;
    MovedPrefix(w, n, all);
    MovedBlocks(w, rows, cols);
    SamePrefix(Moved(w, n), Moved(w, all), |Alive(RowBlock(w, rows))|, |Alive(ColBlock(w, rows, cols))|);
    MutualSame(Moved(w, n), Moved(w, all), o1, |Alive(RowBlock(w, rows))|, |Alive(ColBlock(w, rows, cols))|, origRows, origCols);
    FitsIs(w, o, rows, cols, origRows, origCols);
  }

  lemma SamePrefix(v: seq<int>, v': seq<int>, rows: nat, cols: nat)
    requires rows + cols < |v| == |v'| && v[1..rows + cols + 1] == v'[1..rows + cols + 1]
    ensures RowBlock(v', rows) == RowBlock(v, rows) && ColBlock(v', rows, cols) == ColBlock(v, rows, cols)
  {
    var xs, xs' := v[1..rows + cols + 1], v'[1..rows + cols + 1];
    assert RowBlock(v', rows) == xs'[..rows] && RowBlock(v, rows) == xs[..rows];
    assert ColBlock(v', rows, cols) == xs'[rows..] && ColBlock(v, rows, cols) == xs[rows..];
  }

  lemma MutualSame(v: seq<int>, v': seq<int>, o: seq<int>, rows: nat, cols: nat, origRows: nat, origCols: nat)
    requires Mutual(v, o, rows, cols, origRows, origCols) && rows + cols < |v'|
    requires RowBlock(v', rows) == RowBlock(v, rows) && ColBlock(v', rows, cols) == ColBlock(v, rows, cols)
    ensures Mutual(v', o, rows, cols, origRows, origCols)
  {
  }

  lemma RoundSize(v: seq<int>, w: seq<int>, n: nat)
    requires RoundOf(v, w, n)
    ensures |w| == |v|
  {
  }

  lemma FitsIs(w: seq<int>, o: seq<int>, rows: nat, cols: nat, origRows: nat, origCols: nat)
    requires rows + cols < |w| && InTable(w, |o|, origRows, origRows, origRows + origCols)
    requires var rs, cs := Alive(RowBlock(w, rows)), Alive(ColBlock(w, rows, cols));
             var v', o' := Moved(w, origRows + origCols), Places(w, o, origRows, origRows, origRows + origCols);
             && |rs| + |cs| < |v'| && |rs| + |cs| == Sum(w, rows + cols)
             && RowBlock(v', |rs|) == rs && ColBlock(v', |rs|, |cs|) == cs
             && Mutual(v', o', |rs|, |cs|, origRows, origCols)
    ensures Fits(w, o, rows, cols, origRows, origCols)
  {
    hide Mutual, Places, Moved, Alive;
  }

  /** Leftover entries that rightly set 0 change nothing. */
  lemma ZeroElement(v: seq<int>, w: seq<int>, o: seq<int>, rows: nat, cols: nat, origRows: nat, origCols: nat, s: nat)
    requires Leftover(v, o, rows, cols, origRows, origCols) && RoundOf(v, w, rows + cols) && (rows == origRows || cols == 0)
    requires InTable(w, |o|, origRows, origRows, origRows + origCols) && InTable(w, |o|, rows, origRows, rows + cols) && s < |o|
    requires origRows + origCols < |v|
    requires LeftoverZero(v, Places(w, o, rows, origRows, rows + cols), rows + cols, origRows, origCols)
    ensures Places(w, o, origRows, origRows, origRows + origCols)[s] == Places(w, o, rows, origRows, rows + cols)[s]
  {
    hide *;
    var n, all := rows + cols, origRows + origCols;
    LeftoverSizes(v, o, rows, cols, origRows, origCols);
    RoundMarked(v, w, o, rows, cols, origRows, origCols);
    RoundSize(v, w, n);
    var i := FindLast(w, origRows, origRows, n, all, s);
    if i == n {
      if rows < origRows {
        SameReading(w, o, rows, origRows, origRows, n);
      }
      NoneKeeps(w, o, origRows, origRows, n, all, s);
    } else {
      SameLast(v, w, o, rows, cols, origRows, origCols, s, i);
      ZeroAtLast(v, Places(w, o, rows, origRows, n), n, origRows, origCols, s, i);
      LeftoverSame(v, w, rows + cols, i);
      LastDecides(w, o, origRows, origRows, all, s, i);
    }
  }

  lemma NoPlaces(v: seq<int>, o: seq<int>, pr: nat, origRows: nat)
    requires InTable(v, |o|, pr, origRows, 0)
    ensures Places(v, o, pr, origRows, 0) == o
  {
  }

  lemma LeftoverSame(v: seq<int>, w: seq<int>, n: nat, i: nat)
    requires RoundOf(v, w, n) && n < i < |v|
    ensures w[i] == v[i]
  {
  }

  lemma ZeroAtLast(v: seq<int>, o: seq<int>, n: nat, origRows: nat, origCols: nat, s: nat, i: nat)
    requires origRows + origCols < |v| && LeftoverZero(v, o, n, origRows, origCols) && s < |o|
    requires n < i && LastFor(v, origRows, origRows, origRows + origCols, s, i)
    ensures v[i] < 0 && o[s] == 0
  {
    assert Decides(v, origRows, origCols, i);
    assert RightlyZero(v, o, origRows, i);
  }

  lemma SameLast(v: seq<int>, w: seq<int>, o: seq<int>, rows: nat, cols: nat, origRows: nat, origCols: nat, s: int, i: nat)
    requires Leftover(v, o, rows, cols, origRows, origCols) && RoundOf(v, w, rows + cols)
    ensures LastFor(w, origRows, origRows, origRows + origCols, s, i) <==> LastFor(v, origRows, origRows, origRows + origCols, s, i)
  {
    AllInTable(v, w, o, rows, cols, origRows, origCols);
    AllInTable(v, v, o, rows, cols, origRows, origCols);
  }

  /** In maps that are mutually inverse no number exceeds the count of its kind. */
  lemma NumberBound(v: seq<int>, o: seq<int>, rows: nat, cols: nat, origRows: nat, origCols: nat, s: nat)
    requires Mutual(v, o, rows, cols, origRows, origCols) && 1 <= s <= origRows + origCols
    ensures 0 <= o[s] <= if s <= origRows then rows else cols
  {
    if s <= origRows {
      EntryBound(RowBlock(v, rows), RowBlock(o, origRows), s - 1);
    } else {
      EntryBound(ColBlock(v, rows, cols), ColBlock(o, origRows, origCols), s - origRows - 1);
    }
  }

  lemma EntryBound(xs: seq<int>, os: seq<int>, r: nat)
    requires Inverse(xs, os) && r < |os|
    ensures 0 <= os[r] <= |xs|
  {
    assert ZeroIfDeleted(xs, os, r);
    if r + 1 in xs {
      var k :| 0 <= k < |xs| && xs[k] == r + 1;
      assert Placed(xs, os, k);
    }
  }

  lemma {:induction false} SumAll(v: seq<int>, n: nat)
    requires n < |v| && forall i :: 1 <= i <= n ==> v[i] > 0
    ensures Sum(v, n) == n
  {
    if n == 0 {
      assert v[1..1] == [];
    } else {
      SumAll(v, n - 1);
      SumNext(v, n);
    }
  }

  /** The live entries of unmarked maps are positive. */
  lemma LivePositive(v: seq<int>, o: seq<int>, rows: nat, cols: nat, origRows: nat, origCols: nat)
    requires Leftover(v, o, rows, cols, origRows, origCols)
    ensures forall i :: 1 <= i <= rows + cols ==> v[i] > 0
    ensures Alive(RowBlock(v, rows)) == RowBlock(v, rows) && Alive(ColBlock(v, rows, cols)) == ColBlock(v, rows, cols)
    ensures Sum(v, rows) == rows && Sum(v, rows + cols) == rows + cols
  {
    hide *;
    LeftoverSizes(v, o, rows, cols, origRows, origCols);
    SelfRound(v, rows + cols);
    RoundMarked(v, v, o, rows, cols, origRows, origCols);
    RoundSizes(v, o, rows, cols, origRows, origCols);
    BlocksPositive(v, o, rows, cols, origRows, origCols);
    SumAll(v, rows);
    SumAll(v, rows + cols);
  }

  lemma BlocksPositive(v: seq<int>, o: seq<int>, rows: nat, cols: nat, origRows: nat, origCols: nat)
    requires Mutual(v, o, rows, cols, origRows, origCols)
    ensures Alive(RowBlock(v, rows)) == RowBlock(v, rows) && Alive(ColBlock(v, rows, cols)) == ColBlock(v, rows, cols)
    ensures forall i :: 1 <= i <= rows + cols ==> v[i] > 0
  {
    var rs, cs := RowBlock(v, rows), ColBlock(v, rows, cols);
    NothingMarked(rs, RowBlock(o, origRows));
    NothingMarked(cs, ColBlock(o, origRows, origCols));
    InversePositive(rs, RowBlock(o, origRows));
    InversePositive(cs, ColBlock(o, origRows, origCols));
    assert forall i :: 1 <= i <= rows ==> rs[i - 1] == v[i];
    assert forall i :: rows < i <= rows + cols ==> cs[i - rows - 1] == v[i];
    hide *;
  }

  lemma InversePositive(xs: seq<int>, os: seq<int>)
    requires Inverse(xs, os)
    ensures forall k :: 0 <= k < |xs| ==> xs[k] > 0
  {
    forall k | 0 <= k < |xs| ensures xs[k] > 0 {
      assert Placed(xs, os, k);
    }
  }

  /** The place that a positive leftover entry gives is beyond all that are in use, or at least positive. */
  lemma LeftoverPlace(v: seq<int>, w: seq<int>, o: seq<int>, rows: nat, cols: nat, origRows: nat, origCols: nat, i: nat)
    requires Leftover(v, o, rows, cols, origRows, origCols) && RoundOf(v, w, rows + cols)
    requires rows + cols < i <= origRows + origCols && w[i] > 0
    ensures Place(w, origRows, i) >= 1
    ensures Place(w, origRows, i) == if i <= origRows then Sum(w, i) else Sum(w, i) - Sum(w, origRows)
    ensures Sum(w, i) > Sum(w, rows + cols)
  {
    hide *;
    LeftoverSizes(v, o, rows, cols, origRows, origCols);
    RoundSize(v, w, rows + cols);
    AllInTable(v, w, o, rows, cols, origRows, origCols);
    SumNext(w, i);
    SumIs(w, i);
    SumIs(w, i - 1);
    SumGrows(w, rows + cols, i - 1);
    RowsAreSum(w, origRows);
    if i <= origRows {
      PlaceIs(w, origRows, i);
    } else {
      SlotOrPlace(w, origRows, origRows, i);
      SumGrows(w, origRows, i - 1);
    }
  }

  /** If the original counts are right for a round, every leftover entry that decides is negated and refers
      to a deleted variable (given that the rows have not moved, or no column is left). */
  lemma LeftoverRead(v: seq<int>, w: seq<int>, o: seq<int>, rows: nat, cols: nat, origRows: nat, origCols: nat, i: nat)
    requires Leftover(v, o, rows, cols, origRows, origCols) && RoundOf(v, w, rows + cols) && (rows == origRows || cols == 0)
    requires InTable(w, |o|, rows, origRows, rows + cols)
    requires Fits(w, o, rows, cols, origRows, origCols) && rows + cols < i <= origRows + origCols < |v|
    requires Decides(v, origRows, origCols, i)
    ensures RightlyZero(v, Places(w, o, rows, origRows, rows + cols), origRows, i)
  {
    hide *;
    var n, all := rows + cols, origRows + origCols;
    var o1 := Places(w, o, rows, origRows, n);
    LeftoverSizes(v, o, rows, cols, origRows, origCols);
    var s := DecidedSlot(v, o, rows, cols, origRows, origCols, i);
    RoundSize(v, w, n);
    RoundMarked(v, w, o, rows, cols, origRows, origCols);
    RoundCompacts(w, o, rows, cols, origRows, origCols);
    AllInTable(v, w, o, rows, cols, origRows, origCols);
    FittingMap(v, w, o, rows, cols, origRows, origCols);
    SameLast(v, w, o, rows, cols, origRows, origCols, s, i);
    LastDecides(w, o, origRows, origRows, all, s, i);
    var rs, cs := |Alive(RowBlock(w, rows))|, |Alive(ColBlock(w, rows, cols))|;
    NumberBound(Moved(w, n), o1, rs, cs, origRows, origCols, s);
    LeftoverSame(v, w, n, i);
    if w[i] > 0 {
      LeftoverPlace(v, w, o, rows, cols, origRows, origCols, i);
      MovedBlocks(w, rows, cols);
      RowSum(w, rows);
      NoColumns(w, rows, cols);
    } else {
      ZeroIs(v, o1, origRows, i);
    }
  }

  lemma RowSum(v: seq<int>, rows: nat)
    requires rows < |v|
    ensures Sum(v, rows) == |Alive(RowBlock(v, rows))|
  {
  }

  lemma NoColumns(v: seq<int>, rows: nat, cols: nat)
    requires rows + cols < |v|
    ensures cols == 0 ==> Alive(ColBlock(v, rows, cols)) == []
  {
  }

  lemma DecidedSlot(v: seq<int>, o: seq<int>, rows: nat, cols: nat, origRows: nat, origCols: nat, i: nat) returns (s: nat)
    requires Leftover(v, o, rows, cols, origRows, origCols) && rows + cols < i <= origRows + origCols < |v|
    requires Decides(v, origRows, origCols, i)
    ensures s == Slot(v, origRows, origRows, i) && 1 <= s <= origRows + origCols && v[i] != 0 && (i > origRows ==> s > origRows)
    ensures LastFor(v, origRows, origRows, origRows + origCols, s, i)
  {
    s := Slot(v, origRows, origRows, i);
  }

  /** If the original counts are right for a round, they give the same map as the counts of the round. */
  lemma FittingMap(v: seq<int>, w: seq<int>, o: seq<int>, rows: nat, cols: nat, origRows: nat, origCols: nat)
    requires Leftover(v, o, rows, cols, origRows, origCols) && RoundOf(v, w, rows + cols) && Fits(w, o, rows, cols, origRows, origCols)
    requires InTable(w, |o|, rows, origRows, rows + cols)
    requires InTable(w, |o|, origRows, origRows, origRows + origCols)
    ensures var o1, o2 := Places(w, o, rows, origRows, rows + cols), Places(w, o, origRows, origRows, origRows + origCols);
            forall s :: 1 <= s <= origRows + origCols ==> o2[s] == o1[s]
  {
    hide *;
    RoundMarked(v, w, o, rows, cols, origRows, origCols);
    RoundCompacts(w, o, rows, cols, origRows, origCols);
    LeftoverSizes(v, o, rows, cols, origRows, origCols);
    RoundSize(v, w, rows + cols);
    FitsParts(w, o, rows, cols, origRows, origCols);
    MutualUnique(Moved(w, origRows + origCols), Moved(w, rows + cols),
                 Places(w, o, origRows, origRows, origRows + origCols), Places(w, o, rows, origRows, rows + cols),
                 |Alive(RowBlock(w, rows))|, |Alive(ColBlock(w, rows, cols))|, origRows, origCols);
  }

  lemma FitsParts(w: seq<int>, o: seq<int>, rows: nat, cols: nat, origRows: nat, origCols: nat)
    requires Fits(w, o, rows, cols, origRows, origCols)
    ensures rows + cols < |w| && InTable(w, |o|, origRows, origRows, origRows + origCols)
    ensures var rs, cs := Alive(RowBlock(w, rows)), Alive(ColBlock(w, rows, cols));
            var v', o' := Moved(w, origRows + origCols), Places(w, o, origRows, origRows, origRows + origCols);
            && |rs| + |cs| < |v'| && RowBlock(v', |rs|) == rs && ColBlock(v', |rs|, |cs|) == cs
            && Mutual(v', o', |rs|, |cs|, origRows, origCols)
  {
  }

  lemma SelfRound(v: seq<int>, n: nat)
    ensures RoundOf(v, v, n)
  {
  }

  lemma ZeroIs(v: seq<int>, o: seq<int>, origRows: nat, i: nat)
    requires i < |v| && v[i] < 0 && 0 <= Slot(v, origRows, origRows, i) < |o| && o[Slot(v, origRows, origRows, i)] == 0
    ensures RightlyZero(v, o, origRows, i)
  {
  }

  /** Once a row is gone, the first column is read as a row: the original counts cannot be right both when
      that column stays and when it is deleted. */
  lemma ColumnMisread(v: seq<int>, w1: seq<int>, w2: seq<int>, o: seq<int>, rows: nat, cols: nat, origRows: nat, origCols: nat, y: nat)
    requires Leftover(v, o, rows, cols, origRows, origCols) && rows < origRows && cols > 0 && 1 <= y <= rows + cols < |v|
    requires y != rows + 1 && v[rows + 1] > 0 && w1 == v[y := -v[y]] && w2 == w1[rows + 1 := -v[rows + 1]]
    requires RoundOf(v, w1, rows + cols) && RoundOf(v, w2, rows + cols) && Fits(w1, o, rows, cols, origRows, origCols)
    ensures !Fits(w2, o, rows, cols, origRows, origCols)
  {
    hide *;
    FirstColumn(v, o, rows, cols, origRows, origCols);
    LeftoverSizes(v, o, rows, cols, origRows, origCols);
    var s := origRows + v[rows + 1];
    SlotOrPlace(v, rows, origRows, rows + 1);
    AbsIs(v[rows + 1]);
    AllInTable(v, w1, o, rows, cols, origRows, origCols);
    AllInTable(v, w2, o, rows, cols, origRows, origCols);
    RoundMarked(v, w1, o, rows, cols, origRows, origCols);
    RoundMarked(v, w2, o, rows, cols, origRows, origCols);
    RoundInTable(w1, o, rows, cols, origRows, origCols);
    RoundInTable(w2, o, rows, cols, origRows, origCols);
    FittingMap(v, w1, o, rows, cols, origRows, origCols);
    LiveNumber(v, w1, o, rows, cols, origRows, origCols, rows + 1, s);
    LiveNumber(v, w2, o, rows, cols, origRows, origCols, rows + 1, s);
    ColumnNumbers(v, w1, w2, o, rows, cols, origRows, origCols, y);
    if Fits(w2, o, rows, cols, origRows, origCols) {
      FittingMap(v, w2, o, rows, cols, origRows, origCols);
    }
  }

  /** The number that the first column gets is not both 1 while it stays and 0 when it is deleted. */
  lemma ColumnNumbers(v: seq<int>, w1: seq<int>, w2: seq<int>, o: seq<int>, rows: nat, cols: nat, origRows: nat, origCols: nat, y: nat)
    requires Leftover(v, o, rows, cols, origRows, origCols) && rows < origRows && cols > 0 && 1 <= y <= rows + cols < |v|
    requires y != rows + 1 && 1 <= v[rows + 1] <= origCols && w1 == v[y := -v[y]] && w2 == w1[rows + 1 := -v[rows + 1]]
    requires RoundOf(v, w1, rows + cols) && RoundOf(v, w2, rows + cols)
    requires InTable(w1, |o|, origRows, origRows, origRows + origCols) && InTable(w2, |o|, origRows, origRows, origRows + origCols)
    ensures var s, all := origRows + v[rows + 1], origRows + origCols;
            s < |o| && !(Places(w1, o, origRows, origRows, all)[s] == 1 && Places(w2, o, origRows, origRows, all)[s] == 0)
  {
    hide *;
    var all := origRows + origCols;
    LeftoverSizes(v, o, rows, cols, origRows, origCols);
    var s: nat := origRows + v[rows + 1];
    var i := FindLast(v, origRows, origRows, 0, all, s);
    if i == 0 {
      NoneSame(v, w1, o, rows, cols, origRows, origCols, s);
      NoneSame(v, w2, o, rows, cols, origRows, origCols, s);
      NoneKeeps(w1, o, origRows, origRows, 0, all, s);
      NoneKeeps(w2, o, origRows, origRows, 0, all, s);
      NoPlaces(w1, o, origRows, origRows);
      NoPlaces(w2, o, origRows, origRows);
    } else {
      SameLast(v, w1, o, rows, cols, origRows, origCols, s, i);
      SameLast(v, w2, o, rows, cols, origRows, origCols, s, i);
      LastDecides(w1, o, origRows, origRows, all, s, i);
      LastDecides(w2, o, origRows, origRows, all, s, i);
      SlotOfLast(v, origRows, all, s, i);
      if i <= rows + cols {
        LiveReader(v, w1, o, rows, cols, origRows, origCols, i);
      } else {
        LeftoverSame(v, w1, rows + cols, i);
        LeftoverSame(v, w2, rows + cols, i);
        if v[i] > 0 {
          LeftoverPlace(v, w2, o, rows, cols, origRows, origCols, i);
        }
      }
    }
  }

  lemma SlotOfLast(v: seq<int>, origRows: nat, n: nat, s: int, i: nat)
    requires n < |v| && LastFor(v, origRows, origRows, n, s, i)
    ensures 1 <= i <= n && v[i] != 0 && Slot(v, origRows, origRows, i) == s
  {
  }

  /** The first column stands behind the rows and has number 1. */
  lemma FirstColumn(v: seq<int>, o: seq<int>, rows: nat, cols: nat, origRows: nat, origCols: nat)
    requires Leftover(v, o, rows, cols, origRows, origCols) && cols > 0
    ensures 1 <= v[rows + 1] <= origCols && o[origRows + v[rows + 1]] == 1
  {
    assert Placed(ColBlock(v, rows, cols), ColBlock(o, origRows, origCols), 0);
  }

  lemma NoneSame(v: seq<int>, w: seq<int>, o: seq<int>, rows: nat, cols: nat, origRows: nat, origCols: nat, s: int)
    requires Leftover(v, o, rows, cols, origRows, origCols) && RoundOf(v, w, rows + cols)
    ensures NoneFor(w, origRows, origRows, 0, origRows + origCols, s) <==> NoneFor(v, origRows, origRows, 0, origRows + origCols, s)
  {
    AllInTable(v, w, o, rows, cols, origRows, origCols);
    AllInTable(v, v, o, rows, cols, origRows, origCols);
  }

  lemma AbsIs(x: int)
    ensures Abs(x) == if x < 0 then -x else x
  {
  }

  lemma ZeroAt(xs: seq<int>, os: seq<int>, r: nat)
    requires Inverse(xs, os) && r < |os|
    ensures os[r] == 0 <==> r + 1 !in xs
  {
    assert ZeroIfDeleted(xs, os, r);
  }

  /** A live entry that is read as referring to the first column, while that column stays, gives a number above
      1, or 0. */
  lemma LiveReader(v: seq<int>, w: seq<int>, o: seq<int>, rows: nat, cols: nat, origRows: nat, origCols: nat, i: nat)
    requires Leftover(v, o, rows, cols, origRows, origCols) && RoundOf(v, w, rows + cols) && rows < origRows && cols > 0
    requires 1 <= i <= rows + cols < |v| == |w| && 1 <= v[rows + 1] && w[rows + 1] == v[rows + 1]
    requires Slot(v, origRows, origRows, i) == origRows + v[rows + 1]
    ensures w[i] > 0 ==> Place(w, origRows, i) > 1
  {
    hide *;
    LivePositive(v, o, rows, cols, origRows, origCols);
    LeftoverSizes(v, o, rows, cols, origRows, origCols);
    SelfRound(v, rows + cols);
    RoundMarked(v, v, o, rows, cols, origRows, origCols);
    RoundEntry(v, o, rows, cols, origRows, origCols, i);
    RoundEntry(v, o, rows, cols, origRows, origCols, rows + 1);
    SlotIs(v, rows, origRows, i);
    SlotIs(v, origRows, origRows, i);
    SlotIs(v, rows, origRows, rows + 1);
    PlaceIs(w, origRows, i);
    if w[i] > 0 {
      SumNext(w, rows + 1);
      SumNext(w, i);
      SumIs(w, rows + 1);
      SumIs(w, rows);
      SumIs(w, i);
      SumIs(w, i - 1);
      SumGrows(w, rows + 1, i - 1);
    }
  }

  lemma SlotIs(v: seq<int>, pr: nat, origRows: nat, i: nat)
    requires i < |v| && v[i] > 0
    ensures Slot(v, pr, origRows, i) == if i <= pr then v[i] else origRows + v[i]
    ensures Abs(v[i]) == v[i]
  {
  }

  lemma PlaceIs(v: seq<int>, pr: nat, i: nat)
    requires i < |v|
    ensures i <= pr ==> Place(v, pr, i) == Sum(v, i)
  {
  }

  // ------------------------------------------------------------------ from round to round

  /** Every entry refers to a variable of the original model when it is read with the original counts. */
  ghost predicate Bounded(v: seq<int>, origRows: nat, origCols: nat) {
    |v| == origRows + origCols + 1 && forall i: nat :: 1 <= i < |v| ==> BoundedAt(v, origRows, origCols, i)
  }

  ghost predicate BoundedAt(v: seq<int>, origRows: nat, origCols: nat, i: nat)
    requires i < |v|
  {
    v[i] != 0 && Abs(v[i]) <= if i <= origRows then origRows + origCols else origCols
  }

  lemma LeftoverBounded(v: seq<int>, w: seq<int>, o: seq<int>, rows: nat, cols: nat, origRows: nat, origCols: nat)
    requires Leftover(v, o, rows, cols, origRows, origCols) && RoundOf(v, w, rows + cols)
    ensures Bounded(w, origRows, origCols)
  {
    RoundMarked(v, w, o, rows, cols, origRows, origCols);
    forall i: nat | 1 <= i < |w| ensures BoundedAt(w, origRows, origCols, i) {
      if i <= rows + cols {
        RoundEntry(w, o, rows, cols, origRows, origCols, i);
      }
    }
  }

  /** Entries only move to the left, so they stay bounded. */
  lemma {:induction false} MovedBounded(v: seq<int>, n: nat, origRows: nat, origCols: nat)
    requires Bounded(v, origRows, origCols) && n < |v|
    ensures Bounded(Moved(v, n), origRows, origCols)
  {
    if n == 0 {
      assert v[1..1] == [];
      assert Moved(v, n) == v;
    } else {
      MovedBounded(v, n - 1, origRows, origCols);
      MovedNext(v, n);
      hide Moved, Sum;
      var u, u' := Moved(v, n - 1), Moved(v, n);
      assert BoundedAt(v, origRows, origCols, n);
      forall i: nat | 1 <= i < |v| ensures BoundedAt(u', origRows, origCols, i) {
        assert BoundedAt(u, origRows, origCols, i);
      }
    }
  }

  /** A compaction that is right leaves the maps ready for the next round. */
  lemma LeftoverStays(v: seq<int>, o: seq<int>, rows: nat, cols: nat, origRows: nat, origCols: nat)
    requires Mutual(v, o, rows, cols, origRows, origCols) && rows <= origRows && cols <= origCols
    requires Bounded(v, origRows, origCols) && |o| == origRows + origCols + 1
    ensures Leftover(v, o, rows, cols, origRows, origCols)
  {
    forall i: nat | rows + cols < i <= origRows + origCols ensures v[i] != 0 && Abs(v[i]) <= if i <= origRows then origRows + origCols else origCols {
      assert BoundedAt(v, origRows, origCols, i);
    }
  }

  /** Nothing is left over in the first round: the original counts are those of the round. */
  lemma FirstRoundIsSafe(v: seq<int>, o: seq<int>, origRows: nat, origCols: nat)
    requires Mutual(v, o, origRows, origCols, origRows, origCols) && |v| == |o| == origRows + origCols + 1
    ensures Leftover(v, o, origRows, origCols, origRows, origCols) && Safe(v, o, origRows, origCols, origRows, origCols)
  {
  }

  /** A model with one row and one column whose row has been deleted: when the column is deleted next, the
      original counts leave it mapped to position 1, and `varmap_validate` accepts the result. */
  lemma MisreadColumn()
    ensures var v, w, o := [0, 1, 1], [0, -1, 1], [0, 0, 1];
            && Moved(w, 2) == v && InTable(w, 3, 1, 1, 2) && Places(w, [0, 1, 1], 1, 1, 2) == o
            && Leftover(v, o, 0, 1, 1, 1) && RoundOf(v, w, 1)
            && Places(w, o, 1, 1, 2)[2] == 1 && !Fits(w, o, 0, 1, 1, 1)
            && forall i :: 1 <= i <= 2 ==> Validates(v, Places(w, o, 1, 1, 2), 0, 1, 1, i)
  {
    var v, w, o := [0, 1, 1], [0, -1, 1], [0, 0, 1];
    TwoEntries([0, 1, 1]);
    TwoEntries(o);
    MisreadMaps();
    hide InTable, Places, Moved, Fits, Leftover, RoundOf;
  }

  lemma TwoEntries(o: seq<int>)
    requires o == [0, 1, 1] || o == [0, 0, 1]
    ensures var w := [0, -1, 1];
            InTable(w, |o|, 1, 1, 2) && Moved(w, 2) == [0, 1, 1] && Places(w, o, 1, 1, 2) == [0, 0, 1]
  {
    var w := [0, -1, 1];
    TwoSums();
    hide Alive, Sum;
    PlacesNext(w, o, 1, 1, 1);
    PlacesNext(w, o, 1, 1, 2);
  }

  lemma TwoSums()
    ensures var w := [0, -1, 1]; Alive(w[1..3]) == [1] && Sum(w, 1) == 0 && Sum(w, 2) == 1
  {
    var w := [0, -1, 1];
    assert w[1..1] == [];
    SumNext(w, 1);
    SumNext(w, 2);
  }

  lemma MisreadMaps()
    ensures var v, w, o := [0, 1, 1], [0, -1, 1], [0, 0, 1]; Leftover(v, o, 0, 1, 1, 1) && RoundOf(v, w, 1) && !Fits(w, o, 0, 1, 1, 1)
  {
    var v, w, o := [0, 1, 1], [0, -1, 1], [0, 0, 1];
    assert RowBlock(v, 0) == [] && RowBlock(o, 1) == [0] && ColBlock(v, 0, 1) == [1] && ColBlock(o, 1, 1) == [1];
    if Fits(w, o, 0, 1, 1, 1) {
      TwoEntries(o);
      MisreadBlocks();
    }
  }

  lemma MisreadBlocks()
    ensures var w, o := [0, -1, 1], [0, 0, 1];
            && Alive(RowBlock(w, 0)) == [] && Alive(ColBlock(w, 0, 1)) == []
            && !Mutual([0, 1, 1], o, 0, 0, 1, 1)
  {
    var w, o := [0, -1, 1], [0, 0, 1];
    assert ColBlock(w, 0, 1) == [] + [-1];
    AliveSnoc([], -1);
    assert ColBlock([0, 1, 1], 0, 0) == [] && ColBlock(o, 1, 1) == [1];
    hide Inverse, ZeroIfDeleted;
    if Mutual([0, 1, 1], o, 0, 0, 1, 1) {
      ZeroAt([], [1], 0);
    }
  }
}
