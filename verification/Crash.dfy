/** Completing a starting basis from a guessed solution (guess_basis of lp_crash.c). */
module CrashBases {
  import opened Bases
  import opened BasisFiles
  import opened Numbers

  /** A vector of 1..n in positions 1..n. */
  ghost predicate IsPermutation(xs: seq<int>, n: nat) {
    && n < |xs|
    && (forall i :: 1 <= i <= n ==> 1 <= xs[i] <= n)
    && (forall i, j :: 1 <= i < j <= n ==> xs[i] != xs[j])
  }

  /** Row `r` has neither its slack nor a column that starts in it among the first `rows` of the vector. */
  ghost predicate Uncovered(sorted: seq<int>, firstRow: seq<nat>, rows: nat, r: int)
    requires rows < |sorted|
  {
    forall i :: 1 <= i <= rows ==> !Covers(sorted[i], firstRow, rows, r)
  }

  ghost predicate Covers(x: int, firstRow: seq<nat>, rows: nat, r: int) {
    if x <= rows then x == r else x - rows < |firstRow| && firstRow[x - rows] == r
  }

  /** Entry `p` of the completed vector. The first `rows` entries become basic, coded as at their lower
      bound. The slack of every uncovered row has taken the place of the entry that stood there; that
      entry is now where the slack was. The other nonbasic entries are coded by their bound. */
  ghost function Completed(sorted: seq<int>, atLower: seq<bool>, firstRow: seq<nat>, rows: nat, sum: nat, p: nat): int
    requires IsPermutation(sorted, sum) && rows <= sum < |atLower| && 1 <= p <= sum
  {
    var x := sorted[p];
    if p <= rows then -(if Uncovered(sorted, firstRow, rows, p) then p else x)
    else if x <= rows && Uncovered(sorted, firstRow, rows, x) then sorted[x]
    else if atLower[p] then -x else x
  }

  ghost predicate IsCompleted(bv: seq<int>, sorted: seq<int>, atLower: seq<bool>, firstRow: seq<nat>, rows: nat, sum: nat) {
    && IsPermutation(sorted, sum) && rows <= sum < |atLower| && |bv| > sum
    && forall p :: 1 <= p <= sum ==> bv[p] == Completed(sorted, atLower, firstRow, rows, sum, p)
  }

  /** What stands at position `p`, without the sign. */
  ghost function Item(sorted: seq<int>, firstRow: seq<nat>, rows: nat, sum: nat, p: nat): int
    requires IsPermutation(sorted, sum) && rows <= sum && 1 <= p <= sum
  {
    var x := sorted[p];
    if p <= rows then (if Uncovered(sorted, firstRow, rows, p) then p else x)
    else if x <= rows && Uncovered(sorted, firstRow, rows, x) then sorted[x]
    else x
  }

  /** Every row is uncovered at most once, so no two positions hold the same item. */
  lemma ItemsDiffer(sorted: seq<int>, firstRow: seq<nat>, rows: nat, sum: nat, p: nat, q: nat)
    requires IsPermutation(sorted, sum) && rows <= sum && 1 <= p < q <= sum
    ensures Item(sorted, firstRow, rows, sum, p) != Item(sorted, firstRow, rows, sum, q)
  {
    var x, y := sorted[p], sorted[q];
    if p <= rows && Uncovered(sorted, firstRow, rows, p) {
      NotAmongFirst(sorted, firstRow, rows, p);
    }
    if q <= rows && Uncovered(sorted, firstRow, rows, q) {
      NotAmongFirst(sorted, firstRow, rows, q);
    }
    if x <= rows && Uncovered(sorted, firstRow, rows, x) {
      NotAmongFirst(sorted, firstRow, rows, x);
    }
    if y <= rows && Uncovered(sorted, firstRow, rows, y) {
      NotAmongFirst(sorted, firstRow, rows, y);
    }
  }

  lemma NotAmongFirst(sorted: seq<int>, firstRow: seq<nat>, rows: nat, r: int)
    requires rows < |sorted| && 1 <= r <= rows && Uncovered(sorted, firstRow, rows, r)
    ensures forall i :: 1 <= i <= rows ==> sorted[i] != r
  {
    forall i | 1 <= i <= rows ensures sorted[i] != r {
      assert !Covers(sorted[i], firstRow, rows, r);
    }
  }

  /** The completed vector is a signed permutation that `set_basis` accepts, with or without its nonbasic
      part, and every uncovered row has its slack in the basis. */
  lemma GuessIsAccepted(bv: seq<int>, sorted: seq<int>, atLower: seq<bool>, firstRow: seq<nat>, rows: nat, sum: nat)
    requires IsCompleted(bv, sorted, atLower, firstRow, rows, sum)
    ensures Acceptable(bv, rows, sum, rows) && Acceptable(bv, rows, sum, sum)
    ensures forall p, q :: 1 <= p < q <= sum ==> Abs(bv[p]) != Abs(bv[q])
    ensures forall r :: 1 <= r <= rows && Uncovered(sorted, firstRow, rows, r) ==> bv[r] == -r
    ensures forall r :: 1 <= r <= rows && !Uncovered(sorted, firstRow, rows, r) ==> bv[r] == -sorted[r]
    ensures forall p :: rows < p <= sum && Abs(bv[p]) == sorted[p] ==> (bv[p] < 0 <==> atLower[p])
    ensures forall p :: rows < p <= sum && Abs(bv[p]) != sorted[p] ==>
              1 <= sorted[p] <= rows && bv[sorted[p]] == -sorted[p] && bv[p] == sorted[sorted[p]]
  {
    forall p | 1 <= p <= sum ensures Abs(bv[p]) == Item(sorted, firstRow, rows, sum, p) && 1 <= Abs(bv[p]) <= sum {
    }
    forall p, q | 1 <= p < q <= sum ensures Abs(bv[p]) != Abs(bv[q]) {
      ItemsDiffer(sorted, firstRow, rows, sum, p, q);
    }
  }

  /** What `Covers` says, in plain terms: the slack of the row, or a column whose first entry is in it. */
  lemma CoversIs(x: int, firstRow: seq<nat>, rows: nat, r: int)
    requires 1 <= r <= rows && 1 <= x < rows + |firstRow|
    ensures Covers(x, firstRow, rows, r) <==> x == r || (x > rows && firstRow[x - rows] == r)
  {
  }

  /** Some basic entry of the completed vector covers row `r`. */
  ghost predicate CoveredAfter(bv: seq<int>, firstRow: seq<nat>, rows: nat, r: int)
    requires rows < |bv|
  {
    exists p :: 1 <= p <= rows && Covers(Abs(bv[p]), firstRow, rows, r)
  }

  /** A row is covered in the completed basis exactly if it was uncovered, and so has got its slack, or one of the
      entries that covered it stands at the position of a covered row; the others have been displaced. */
  lemma CoverKept(bv: seq<int>, sorted: seq<int>, atLower: seq<bool>, firstRow: seq<nat>, rows: nat, sum: nat, r: int)
    requires IsCompleted(bv, sorted, atLower, firstRow, rows, sum) && 1 <= r <= rows
    ensures CoveredAfter(bv, firstRow, rows, r) <==>
              || Uncovered(sorted, firstRow, rows, r)
              || exists p :: 1 <= p <= rows && !Uncovered(sorted, firstRow, rows, p) && Covers(sorted[p], firstRow, rows, r)
  {
    GuessIsAccepted(bv, sorted, atLower, firstRow, rows, sum);
    hide IsCompleted, Uncovered, Acceptable;
    if Uncovered(sorted, firstRow, rows, r) {
      assert Abs(bv[r]) == r && Covers(Abs(bv[r]), firstRow, rows, r);
    }
    if p :| 1 <= p <= rows && !Uncovered(sorted, firstRow, rows, p) && Covers(sorted[p], firstRow, rows, r) {
      BasicItem(bv, sorted, atLower, firstRow, rows, sum, p);
      assert Covers(Abs(bv[p]), firstRow, rows, r);
    }
    if p :| 1 <= p <= rows && Covers(Abs(bv[p]), firstRow, rows, r) {
      BasicItem(bv, sorted, atLower, firstRow, rows, sum, p);
    }
  }

  lemma BasicItem(bv: seq<int>, sorted: seq<int>, atLower: seq<bool>, firstRow: seq<nat>, rows: nat, sum: nat, p: nat)
    requires IsCompleted(bv, sorted, atLower, firstRow, rows, sum) && 1 <= p <= rows
    ensures Abs(bv[p]) == if Uncovered(sorted, firstRow, rows, p) then p else sorted[p]
  {
  }

  /** The completion can uncover a row: here the only column that starts in row 2 gives way to the slack of row 1. */
  lemma CoverLost()
    ensures var sorted, firstRow := [0, 4, 5, 6, 1, 2, 3], [0, 2, 3, 3];
            var bv := [0, -1, -5, -6, 4, -2, -3];
            IsCompleted(bv, sorted, [true, true, true, true, true, true, true], firstRow, 3, 6)
            && !Uncovered(sorted, firstRow, 3, 2) && !CoveredAfter(bv, firstRow, 3, 2)
  {
    var sorted, firstRow := [0, 4, 5, 6, 1, 2, 3], [0, 2, 3, 3];
    var bv := [0, -1, -5, -6, 4, -2, -3];
    assert Covers(sorted[1], firstRow, 3, 2) && Covers(sorted[2], firstRow, 3, 3);
    assert !Covers(sorted[1], firstRow, 3, 1) && !Covers(sorted[2], firstRow, 3, 1) && !Covers(sorted[3], firstRow, 3, 1);
    assert Uncovered(sorted, firstRow, 3, 1);
    assert Covers(sorted[1], firstRow, 3, 2) && Covers(sorted[2], firstRow, 3, 3);
    assert !Uncovered(sorted, firstRow, 3, 2) && !Uncovered(sorted, firstRow, 3, 3);
    assert !Covers(1, firstRow, 3, 2) && !Covers(5, firstRow, 3, 2) && !Covers(6, firstRow, 3, 2);
    hide Uncovered, Covers;
    assert IsPermutation(sorted, 6);
    hide IsPermutation;
  }

  // ------------------------------------------------------------------ the algorithm

  /** `guess_basis` after the sort: `sorted` is the vector ordered by bound violation, `atLower` tells for
      each position whether its value is at the lower bound, `firstRow` the row of each column's first entry. */
  method GuessBasis(bv: array<int>, sorted: seq<int>, atLower: seq<bool>, firstRow: seq<nat>, rows: nat, sum: nat)
    requires IsPermutation(sorted, sum) && rows <= sum < |atLower| && bv.Length > sum
    requires |firstRow| == sum - rows + 1 && forall c :: 0 <= c < |firstRow| ==> firstRow[c] <= rows
    modifies bv
    ensures IsCompleted(bv[..], sorted, atLower, firstRow, rows, sum)
  {
    CodeNonbasic(bv, sorted, atLower, rows, sum);
    var isnz := new bool[rows + 1](_ => false);
    var slkpos := new int[rows + 1](_ => 0);
    Statistics(bv, isnz, slkpos, sorted, atLower, firstRow, rows, sum);
    hide *;
    var j := 1;
    StartPlacing(bv[..], sorted, atLower, firstRow, rows, sum);
    while j <= rows
      invariant 1 <= j <= rows + 1 && isnz.Length == slkpos.Length == rows + 1
      invariant Placing(bv[..], sorted, atLower, firstRow, rows, sum, j)
      invariant Surveyed(isnz[..], slkpos[..], sorted, firstRow, rows, sum, j)
    {
      PlaceSlack(bv, isnz, slkpos, sorted, atLower, firstRow, rows, sum, j);
      j := j + 1;
    }
    Normalize(bv, sorted, atLower, firstRow, rows, sum);
  }

  /** Copy the sorted vector and negate the nonbasic entries that are at their lower bound. */
  method CodeNonbasic(bv: array<int>, sorted: seq<int>, atLower: seq<bool>, rows: nat, sum: nat)
    requires IsPermutation(sorted, sum) && rows <= sum < |atLower| && bv.Length > sum
    modifies bv
    ensures Coded(bv[..], sorted, atLower, rows, sum)
  {
    var i := 1;
    while i <= sum
      invariant 1 <= i <= sum + 1 && forall p :: 1 <= p < i ==> bv[p] == sorted[p]
    {
      bv[i] := sorted[i];
      i := i + 1;
    }
    i := rows + 1;
    while i <= sum
      invariant rows + 1 <= i <= sum + 1
      invariant forall p :: 1 <= p <= sum ==> bv[p] == if rows < p < i && atLower[p] then -sorted[p] else sorted[p]
    {
      if atLower[i] {
        bv[i] := -bv[i];
      }
      i := i + 1;
    }
  }

  ghost predicate Coded(bv: seq<int>, sorted: seq<int>, atLower: seq<bool>, rows: nat, sum: nat) {
    && sum < |bv| && sum < |sorted| && sum < |atLower|
    && forall p :: 1 <= p <= sum ==> bv[p] == if rows < p && atLower[p] then -sorted[p] else sorted[p]
  }

  /** The rows from `j` on: which are covered, and where their slacks are. */
  ghost predicate Surveyed(isnz: seq<bool>, slkpos: seq<int>, sorted: seq<int>, firstRow: seq<nat>, rows: nat, sum: nat, j: nat) {
    && |isnz| == |slkpos| == rows + 1 && rows <= sum < |sorted|
    && forall r :: j <= r <= rows && r >= 1 ==>
         (isnz[r] <==> !Uncovered(sorted, firstRow, rows, r)) && 1 <= slkpos[r] <= sum && sorted[slkpos[r]] == r
  }

  /** Slacks of uncovered rows before `j` have been placed. */
  ghost predicate Placing(bv: seq<int>, sorted: seq<int>, atLower: seq<bool>, firstRow: seq<nat>, rows: nat, sum: nat, j: nat) {
    && IsPermutation(sorted, sum) && rows <= sum < |bv| && sum < |atLower|
    && (forall p :: 1 <= p <= rows ==> bv[p] == if p < j && Uncovered(sorted, firstRow, rows, p) then p else sorted[p])
    && (forall p :: rows < p <= sum ==> bv[p] == Nonbasic(sorted, atLower, firstRow, rows, sum, j, p))
  }

  /** Entry `p` of the nonbasic part when the slacks before `j` have been placed. */
  ghost function Nonbasic(sorted: seq<int>, atLower: seq<bool>, firstRow: seq<nat>, rows: nat, sum: nat, j: nat, p: nat): int
    requires IsPermutation(sorted, sum) && rows < p <= sum < |atLower|
  {
    var x := sorted[p];
    if x <= rows && x < j && Uncovered(sorted, firstRow, rows, x) then sorted[x] else if atLower[p] then -x else x
  }

  ghost predicate CoveredBefore(sorted: seq<int>, firstRow: seq<nat>, rows: nat, i: nat, r: int) {
    exists q :: 1 <= q < i && q < |sorted| && Covers(sorted[q], firstRow, rows, r)
  }

  /** Record which rows the first `rows` entries cover and where the slacks are. */
  method Statistics(bv: array<int>, isnz: array<bool>, slkpos: array<int>,
                    ghost sorted: seq<int>, ghost atLower: seq<bool>, firstRow: seq<nat>, rows: nat, sum: nat)
    requires IsPermutation(sorted, sum) && rows <= sum < bv.Length && Coded(bv[..], sorted, atLower, rows, sum)
    requires isnz.Length == slkpos.Length == rows + 1 && slkpos != bv && forall r :: 0 <= r <= rows ==> !isnz[r]
    requires |firstRow| == sum - rows + 1 && forall c :: 0 <= c < |firstRow| ==> firstRow[c] <= rows
    modifies isnz, slkpos
    ensures Surveyed(isnz[..], slkpos[..], sorted, firstRow, rows, sum, 1)
  {
    hide CoveredBefore, Covers;
    NothingCovered(sorted, firstRow, rows);
    var i := 1;
    while i <= rows
      invariant 1 <= i <= rows + 1
      invariant Counting(isnz[..], slkpos[..], sorted, firstRow, rows, sum, i, i)
    {
      CountEntry(isnz[..], slkpos[..], sorted, firstRow, rows, sum, i);
      var j := Abs(bv[i]);
      if j <= rows {
        isnz[j] := true;
        slkpos[j] := i;
      } else {
        isnz[firstRow[j - rows]] := true;
      }
      i := i + 1;
    }
    while i <= sum
      invariant rows + 1 <= i <= sum + 1
      invariant Counting(isnz[..], slkpos[..], sorted, firstRow, rows, sum, rows + 1, i)
    {
      var j := Abs(bv[i]);
      if j <= rows {
        slkpos[j] := i;
      }
      i := i + 1;
    }
    CountingDone(isnz[..], slkpos[..], sorted, firstRow, rows, sum);
  }

  ghost predicate Counting(isnz: seq<bool>, slkpos: seq<int>, sorted: seq<int>, firstRow: seq<nat>, rows: nat, sum: nat, i: nat, k: nat) {
    && |isnz| == |slkpos| == rows + 1 && rows <= sum && IsPermutation(sorted, sum) && 1 <= k <= sum + 1
    && (forall r :: 1 <= r <= rows ==> (isnz[r] <==> CoveredBefore(sorted, firstRow, rows, i, r)))
    && (forall q :: 1 <= q < k && sorted[q] <= rows ==> slkpos[sorted[q]] == q)
  }

  lemma NothingCovered(sorted: seq<int>, firstRow: seq<nat>, rows: nat)
    ensures forall r :: !CoveredBefore(sorted, firstRow, rows, 1, r)
  {
  }

  lemma CountEntry(isnz: seq<bool>, slkpos: seq<int>, sorted: seq<int>, firstRow: seq<nat>, rows: nat, sum: nat, i: nat)
    requires Counting(isnz, slkpos, sorted, firstRow, rows, sum, i, i) && 1 <= i <= rows
    requires |firstRow| == sum - rows + 1 && forall c :: 0 <= c < |firstRow| ==> firstRow[c] <= rows
    ensures var x := sorted[i];
            Counting(isnz[(if x <= rows then x else firstRow[x - rows]) := true], if x <= rows then slkpos[x := i] else slkpos,
                     sorted, firstRow, rows, sum, i + 1, i + 1)
  {
    var x := sorted[i];
    var c := if x <= rows then x else firstRow[x - rows];
    forall r | 1 <= r <= rows ensures CoveredBefore(sorted, firstRow, rows, i + 1, r) <==> CoveredBefore(sorted, firstRow, rows, i, r) || r == c {
      assert Covers(sorted[i], firstRow, rows, r) <==> r == c;
    }
  }

  lemma CountingDone(isnz: seq<bool>, slkpos: seq<int>, sorted: seq<int>, firstRow: seq<nat>, rows: nat, sum: nat)
    requires Counting(isnz, slkpos, sorted, firstRow, rows, sum, rows + 1, sum + 1)
    ensures Surveyed(isnz, slkpos, sorted, firstRow, rows, sum, 1)
  {
    forall r | 1 <= r <= rows ensures 1 <= slkpos[r] <= sum && sorted[slkpos[r]] == r {
      var q := Occurs(sorted, sum, r);
    }
  }

  /** Every index occurs in a permutation. */
  lemma Occurs(sorted: seq<int>, n: nat, r: int) returns (q: nat)
    requires IsPermutation(sorted, n) && 1 <= r <= n
    ensures 1 <= q <= n && sorted[q] == r
  {
    var xs := sorted[1..n + 1];
    ValuesSize(xs);
    BetweenSize(1, n);
    assert Values(xs) <= Between(1, n);
    if r !in xs {
      assert Values(xs) <= Between(1, n) - {r};
      SubsetSize(Values(xs), Between(1, n) - {r});
      assert false;
    }
    var i :| 0 <= i < |xs| && xs[i] == r;
    q := i + 1;
  }

  lemma StartPlacing(bv: seq<int>, sorted: seq<int>, atLower: seq<bool>, firstRow: seq<nat>, rows: nat, sum: nat)
    requires IsPermutation(sorted, sum) && rows <= sum < |bv| && Coded(bv, sorted, atLower, rows, sum)
    ensures Placing(bv, sorted, atLower, firstRow, rows, sum, 1)
  {
  }

  /** If row `j` is uncovered, swap its slack into position `j`. */
  method PlaceSlack(bv: array<int>, isnz: array<bool>, slkpos: array<int>,
                    ghost sorted: seq<int>, ghost atLower: seq<bool>, ghost firstRow: seq<nat>, rows: nat, ghost sum: nat, j: nat)
    requires 1 <= j <= rows && isnz.Length == slkpos.Length == rows + 1 && bv != slkpos && rows < bv.Length
    requires Placing(bv[..], sorted, atLower, firstRow, rows, sum, j)
    requires Surveyed(isnz[..], slkpos[..], sorted, firstRow, rows, sum, j)
    modifies bv, isnz
    ensures Placing(bv[..], sorted, atLower, firstRow, rows, sum, j + 1)
    ensures Surveyed(isnz[..], slkpos[..], sorted, firstRow, rows, sum, j + 1)
  {
    assert isnz[j] <==> !Uncovered(sorted, firstRow, rows, j);
    PlaceNext(bv[..], slkpos[..], isnz[..], sorted, atLower, firstRow, rows, sum, j);
    hide Placing, Uncovered;
    if !isnz[j] {
      isnz[j] := true;
      var i := slkpos[j];
      bv[i], bv[j] := bv[j], bv[i];
      bv[j] := Abs(bv[j]);
    }
  }

  lemma PlaceNext(bv: seq<int>, slkpos: seq<int>, isnz: seq<bool>, sorted: seq<int>, atLower: seq<bool>, firstRow: seq<nat>, rows: nat, sum: nat, j: nat)
    requires 1 <= j <= rows && Placing(bv, sorted, atLower, firstRow, rows, sum, j)
    requires Surveyed(isnz, slkpos, sorted, firstRow, rows, sum, j)
    ensures Uncovered(sorted, firstRow, rows, j) ==>
              rows < slkpos[j] <= sum && Placing(bv[slkpos[j] := bv[j]][j := Abs(bv[slkpos[j]])], sorted, atLower, firstRow, rows, sum, j + 1)
    ensures !Uncovered(sorted, firstRow, rows, j) ==> Placing(bv, sorted, atLower, firstRow, rows, sum, j + 1)
  {
    if Uncovered(sorted, firstRow, rows, j) {
      PlaceUncovered(bv, slkpos[j], sorted, atLower, firstRow, rows, sum, j);
    } else {
      hide Uncovered;
    }
  }

  lemma PlaceUncovered(bv: seq<int>, i: int, sorted: seq<int>, atLower: seq<bool>, firstRow: seq<nat>, rows: nat, sum: nat, j: nat)
    requires 1 <= j <= rows && Placing(bv, sorted, atLower, firstRow, rows, sum, j) && Uncovered(sorted, firstRow, rows, j)
    requires 1 <= i <= sum && sorted[i] == j
    ensures rows < i && Placing(bv[i := bv[j]][j := Abs(bv[i])], sorted, atLower, firstRow, rows, sum, j + 1)
  {
    NotAmongFirst(sorted, firstRow, rows, j);
    hide Uncovered;
  }

  /** Code all basic entries as at their lower bound. */
  method Normalize(bv: array<int>, ghost sorted: seq<int>, ghost atLower: seq<bool>, ghost firstRow: seq<nat>, rows: nat, ghost sum: nat)
    requires Placing(bv[..], sorted, atLower, firstRow, rows, sum, rows + 1)
    modifies bv
    ensures IsCompleted(bv[..], sorted, atLower, firstRow, rows, sum)
  {
    hide Uncovered;
    var i := 1;
    while i <= rows
      invariant 1 <= i <= rows + 1
      invariant forall p :: 0 <= p < bv.Length ==> bv[p] == if 1 <= p < i then -Abs(old(bv[..])[p]) else old(bv[..])[p]
    {
      bv[i] := -Abs(bv[i]);
      i := i + 1;
    }
  }
}
