/** Simplex bases as values. A basis is a vector of basic indices in positions 1..rows (position 0 is a
    marker) and a flag for every index in 1..sum. Indices 1..rows are slacks, the rest are columns. */
module Bases {

  ghost predicate InRange(vb: seq<int>, rows: nat, sum: nat) {
    rows < |vb| && forall i :: 1 <= i <= rows ==> 1 <= vb[i] <= sum
  }

  ghost predicate Distinct(vb: seq<int>, rows: nat) {
    rows < |vb| && forall i, j :: 1 <= i < j <= rows ==> vb[i] != vb[j]
  }

  ghost predicate IsImage(vb: seq<int>, isb: seq<bool>, rows: nat, sum: nat) {
    rows < |vb| && sum < |isb| && forall k :: 1 <= k <= sum ==> (isb[k] <==> k in vb[1..rows + 1])
  }

  /** The basic indices are distinct and in 1..sum, and the flags are exactly their image. */
  ghost predicate IsBasis(vb: seq<int>, isb: seq<bool>, rows: nat, sum: nat) {
    InRange(vb, rows, sum) && Distinct(vb, rows) && IsImage(vb, isb, rows, sum)
  }

  // ------------------------------------------------------------------ counting

  /** Flags set among 1..k. */
  function CountTo(isb: seq<bool>, k: nat): (c: nat)
    requires k < |isb|
    ensures c <= k
  {
    if k == 0 then 0 else CountTo(isb, k - 1) + if isb[k] then 1 else 0
  }

  ghost function Flagged(isb: seq<bool>, k: nat): set<int>
    requires k < |isb|
  {
    if k == 0 then {} else if isb[k] then Flagged(isb, k - 1) + {k} else Flagged(isb, k - 1)
  }

  lemma {:induction false} FlaggedIn(isb: seq<bool>, k: nat, x: int)
    requires k < |isb|
    ensures x in Flagged(isb, k) <==> 1 <= x <= k && isb[x]
  {
    if k > 0 {
      FlaggedIn(isb, k - 1, x);
    }
  }

  lemma {:induction false} CountIsSize(isb: seq<bool>, k: nat)
    requires k < |isb|
    ensures |Flagged(isb, k)| == CountTo(isb, k)
  {
    if k > 0 {
      CountIsSize(isb, k - 1);
      FlaggedIn(isb, k - 1, k);
    }
  }

  ghost function Values(xs: seq<int>): set<int> {
    set x | x in xs
  }

  ghost predicate NoRepeat(xs: seq<int>) {
    forall i, j :: 0 <= i < j < |xs| ==> xs[i] != xs[j]
  }

  /** A list has as many values as entries exactly if no value repeats. */
  lemma {:induction false} ValuesSize(xs: seq<int>)
    ensures |Values(xs)| <= |xs|
    ensures |Values(xs)| == |xs| <==> NoRepeat(xs)
  {
    if xs != [] {
      var l := |xs| - 1;
      var ys := xs[..l];
      ValuesSize(ys);
      assert xs == ys + [xs[l]];
      assert forall i :: 0 <= i < l ==> xs[i] == ys[i] && xs[i] in ys;
      if xs[l] in ys {
        assert Values(xs) == Values(ys);
      } else {
        assert Values(xs) == Values(ys) + {xs[l]};
      }
      assert NoRepeat(xs) <==> NoRepeat(ys) && xs[l] !in ys;
    }
  }

  lemma DistinctIsNoRepeat(vb: seq<int>, rows: nat)
    requires rows < |vb|
    ensures Distinct(vb, rows) <==> NoRepeat(vb[1..rows + 1])
  {
    var xs := vb[1..rows + 1];
    assert forall i :: 0 <= i < rows ==> xs[i] == vb[i + 1];
    if NoRepeat(xs) {
      forall i, j | 1 <= i < j <= rows ensures vb[i] != vb[j] {
        assert xs[i - 1] != xs[j - 1];
      }
    }
  }

  /** When the flags are the image of the basic indices, there are `rows` of them exactly if none repeats. */
  lemma CountIsRows(vb: seq<int>, isb: seq<bool>, rows: nat, sum: nat)
    requires InRange(vb, rows, sum) && IsImage(vb, isb, rows, sum)
    ensures CountTo(isb, sum) <= rows
    ensures CountTo(isb, sum) == rows <==> Distinct(vb, rows)
  {
    var xs := vb[1..rows + 1];
    CountIsSize(isb, sum);
    ValuesSize(xs);
    DistinctIsNoRepeat(vb, rows);
    forall x ensures x in Flagged(isb, sum) <==> x in Values(xs) {
      FlaggedIn(isb, sum, x);
    }
    assert Flagged(isb, sum) == Values(xs);
  }

  // ------------------------------------------------------------------ verify_basis

  /** What `verify_basis` tests. */
  ghost predicate Verified(vb: seq<int>, isb: seq<bool>, rows: nat, sum: nat) {
    && InRange(vb, rows, sum) && sum < |isb|
    && (forall i :: 1 <= i <= rows ==> isb[vb[i]])
    && CountTo(isb, sum) == rows
  }

  /** On flags that are the image of the indices the test is exact. */
  lemma VerifyMeans(vb: seq<int>, isb: seq<bool>, rows: nat, sum: nat)
    requires IsImage(vb, isb, rows, sum)
    ensures Verified(vb, isb, rows, sum) <==> IsBasis(vb, isb, rows, sum)
  {
    if InRange(vb, rows, sum) {
      CountIsRows(vb, isb, rows, sum);
      assert forall i :: 1 <= i <= rows ==> vb[1..rows + 1][i - 1] == vb[i];
    }
  }

  /** Among the states that pass the test the valid bases are those whose indices are distinct; then the flags
      are their image. */
  lemma VerifiedExact(vb: seq<int>, isb: seq<bool>, rows: nat, sum: nat)
    requires Verified(vb, isb, rows, sum)
    ensures IsBasis(vb, isb, rows, sum) <==> Distinct(vb, rows)
    ensures IsImage(vb, isb, rows, sum) <==> Distinct(vb, rows)
  {
    if IsImage(vb, isb, rows, sum) {
      VerifyMeans(vb, isb, rows, sum);
    }
    if Distinct(vb, rows) {
      DistinctIsImage(vb, isb, rows, sum);
    }
  }

  /** As many flags are set as there are distinct indices, so no other flag is. */
  lemma DistinctIsImage(vb: seq<int>, isb: seq<bool>, rows: nat, sum: nat)
    requires Verified(vb, isb, rows, sum) && Distinct(vb, rows)
    ensures IsImage(vb, isb, rows, sum)
  {
    var xs := vb[1..rows + 1];
    var flags, values := Flagged(isb, sum), Values(xs);
    CountIsSize(isb, sum);
    ValuesSize(xs);
    DistinctIsNoRepeat(vb, rows);
    forall x | x in values ensures x in flags {
      var i :| 0 <= i < |xs| && xs[i] == x;
      assert x == vb[i + 1];
      FlaggedIn(isb, sum, x);
    }
    SameSize(values, flags);
    forall k | 1 <= k <= sum ensures isb[k] <==> k in xs {
      FlaggedIn(isb, sum, k);
    }
  }

  lemma SameSize(a: set<int>, b: set<int>)
    requires a <= b && |a| == |b|
    ensures a == b
  {
    assert |b - a| == |b| - |a|;
  }

  // ------------------------------------------------------------------ insertion

  function Shift(k: int, base: int, delta: int): int {
    if k >= base then k + delta else k
  }

  function MovedFlag(isb: seq<bool>, from: int, delta: nat, sum: nat, k: int): bool
    requires 0 <= k < |isb| && delta <= from
  {
    if from <= k <= sum + delta then isb[k - delta] else isb[k]
  }

  /** The flags after room for `delta` indices has been made at `base`. */
  ghost predicate FlagsInserted(isb: seq<bool>, isb': seq<bool>, base: nat, delta: nat, isrow: bool, sum: nat) {
    && sum < |isb| && sum + delta < |isb'| && base <= sum + 1
    && forall k :: 1 <= k <= sum + delta ==>
         isb'[k] == FlagInserted(isb, base, delta, isrow, k)
  }

  function FlagInserted(isb: seq<bool>, base: nat, delta: nat, isrow: bool, k: int): bool
    requires 0 <= k && base <= |isb| && k - delta < |isb|
  {
    if k < base then isb[k] else if k < base + delta then isrow else isb[k - delta]
  }

  /** The basic indices after an insertion; they are only adjusted if `updating`. */
  ghost predicate IndicesInserted(vb: seq<int>, vb': seq<int>, base: nat, delta: nat, isrow: bool, updating: bool, rows: nat) {
    && rows < |vb| && (if isrow then rows + delta else rows) < |vb'|
    && (forall i :: 1 <= i <= rows ==> vb'[i] == if updating then Shift(vb[i], base, delta) else vb[i])
    && (isrow ==> forall i :: rows < i <= rows + delta ==> vb'[i] == base + (i - rows - 1))
  }

  lemma IndicesAre(vb: seq<int>, vb1: seq<int>, vb': seq<int>, base: nat, delta: nat, isrow: bool, updating: bool, rows: nat)
    requires rows < |vb| == |vb1| == |vb'| && (isrow ==> rows + delta < |vb'|)
    requires if updating then forall j :: 1 <= j <= rows ==> vb1[j] == Shift(vb[j], base, delta) else vb1 == vb
    requires forall i :: 1 <= i <= rows ==> vb'[i] == vb1[i]
    requires isrow ==> forall i :: rows < i <= rows + delta ==> vb'[i] == base + (i - rows - 1)
    ensures IndicesInserted(vb, vb', base, delta, isrow, updating, rows)
  {
  }

  ghost predicate NoneFrom(vb: seq<int>, rows: nat, base: nat) {
    rows < |vb| && forall i :: 1 <= i <= rows ==> vb[i] < base
  }

  /** An insertion keeps the basis if the indices are updated or none is affected ... */
  lemma InsertKeeps(vb: seq<int>, isb: seq<bool>, vb': seq<int>, isb': seq<bool>,
                    base: nat, delta: nat, isrow: bool, updating: bool, rows: nat, sum: nat)
    requires IsBasis(vb, isb, rows, sum) && 1 <= base <= sum + 1
    requires FlagsInserted(isb, isb', base, delta, isrow, sum) && IndicesInserted(vb, vb', base, delta, isrow, updating, rows)
    requires updating || NoneFrom(vb, rows, base)
    ensures IsBasis(vb', isb', if isrow then rows + delta else rows, sum + delta)
  {
    var rows' := if isrow then rows + delta else rows;
    SameAsUpdated(vb, vb', base, delta, isrow, updating, rows);
    InsertDistinct(vb, vb', base, delta, isrow, rows, sum);
    assert rows' < |vb'| && sum + delta < |isb'|;
    hide *;
    forall k | 1 <= k <= sum + delta ensures isb'[k] <==> k in vb'[1..rows' + 1] {
      InsertedFlag(vb, isb, vb', isb', base, delta, isrow, rows, sum, k);
    }
    BasisIs(vb', isb', rows', sum + delta);
  }

  lemma BasisIs(vb: seq<int>, isb: seq<bool>, rows: nat, sum: nat)
    requires InRange(vb, rows, sum) && Distinct(vb, rows) && sum < |isb| && rows < |vb|
    requires forall k :: 1 <= k <= sum ==> (isb[k] <==> k in vb[1..rows + 1])
    ensures IsBasis(vb, isb, rows, sum)
  {
  }

  /** Indices below the insertion need no update. */
  lemma SameAsUpdated(vb: seq<int>, vb': seq<int>, base: nat, delta: nat, isrow: bool, updating: bool, rows: nat)
    requires IndicesInserted(vb, vb', base, delta, isrow, updating, rows) && (updating || NoneFrom(vb, rows, base))
    ensures IndicesInserted(vb, vb', base, delta, isrow, true, rows)
  {
  }

  lemma InsertDistinct(vb: seq<int>, vb': seq<int>, base: nat, delta: nat, isrow: bool, rows: nat, sum: nat)
    requires InRange(vb, rows, sum) && Distinct(vb, rows) && 1 <= base <= sum + 1
    requires IndicesInserted(vb, vb', base, delta, isrow, true, rows)
    ensures var rows' := if isrow then rows + delta else rows; InRange(vb', rows', sum + delta) && Distinct(vb', rows')
  {
  }

  lemma InsertedFlag(vb: seq<int>, isb: seq<bool>, vb': seq<int>, isb': seq<bool>,
                     base: nat, delta: nat, isrow: bool, rows: nat, sum: nat, k: nat)
    requires IsBasis(vb, isb, rows, sum) && 1 <= base <= sum + 1 && 1 <= k <= sum + delta
    requires FlagsInserted(isb, isb', base, delta, isrow, sum) && IndicesInserted(vb, vb', base, delta, isrow, true, rows)
    ensures isb'[k] <==> k in vb'[1..(if isrow then rows + delta else rows) + 1]
  {
    if base <= k < base + delta {
      NewFlag(vb, vb', base, delta, isrow, rows, k);
    } else {
      OldFlag(vb, vb', base, delta, isrow, rows, k);
    }
    assert isb'[k] == FlagInserted(isb, base, delta, isrow, k);
  }

  /** A new index is basic exactly if it is a row. */
  lemma NewFlag(vb: seq<int>, vb': seq<int>, base: nat, delta: nat, isrow: bool, rows: nat, k: nat)
    requires IndicesInserted(vb, vb', base, delta, isrow, true, rows) && base <= k < base + delta
    ensures isrow <==> k in vb'[1..(if isrow then rows + delta else rows) + 1]
  {
    var rows' := if isrow then rows + delta else rows;
    var xs' := vb'[1..rows' + 1];
    assert forall i :: 0 <= i < rows' ==> xs'[i] == vb'[i + 1];
    if isrow {
      assert xs'[rows + k - base] == k;
    } else {
      forall i | 0 <= i < rows' ensures xs'[i] != k {
        assert xs'[i] == vb'[i + 1] == Shift(vb[i + 1], base, delta);
      }
    }
  }

  /** An old index is basic exactly if it was. */
  lemma OldFlag(vb: seq<int>, vb': seq<int>, base: nat, delta: nat, isrow: bool, rows: nat, k: nat)
    requires IndicesInserted(vb, vb', base, delta, isrow, true, rows) && !(base <= k < base + delta)
    ensures (if k < base then k else k - delta) in vb[1..rows + 1] <==> k in vb'[1..(if isrow then rows + delta else rows) + 1]
  {
    var rows' := if isrow then rows + delta else rows;
    var xs, xs' := vb[1..rows + 1], vb'[1..rows' + 1];
    assert forall i :: 0 <= i < rows' ==> xs'[i] == vb'[i + 1];
    assert forall i :: 0 <= i < rows ==> xs[i] == vb[i + 1];
    var k0 := if k < base then k else k - delta;
    if k0 in xs {
      var i :| 0 <= i < rows && xs[i] == k0;
      assert xs'[i] == k;
    }
    if k in xs' {
      var i :| 0 <= i < rows' && xs'[i] == k;
      if i < rows {
        assert xs[i] == k0;
      }
    }
  }

  /** ... and only then. */
  lemma InsertBreaks(vb: seq<int>, isb: seq<bool>, vb': seq<int>, isb': seq<bool>,
                     base: nat, delta: nat, isrow: bool, rows: nat, sum: nat)
    requires IsBasis(vb, isb, rows, sum) && 1 <= base <= sum + 1 && delta > 0
    requires FlagsInserted(isb, isb', base, delta, isrow, sum) && IndicesInserted(vb, vb', base, delta, isrow, false, rows)
    requires !NoneFrom(vb, rows, base)
    ensures !IsBasis(vb', isb', if isrow then rows + delta else rows, sum + delta)
  {
    var m := LargestAt(vb, rows);
    var rows' := if isrow then rows + delta else rows;
    var xs, xs' := vb[1..rows + 1], vb'[1..rows' + 1];
    assert xs[m - 1] == vb[m] >= base;
    assert isb[vb[m]];
    assert isb'[vb[m] + delta];
    forall i | 0 <= i < rows' ensures xs'[i] != vb[m] + delta {
      assert xs'[i] == vb'[i + 1];
    }
  }

  lemma InsertExact(vb: seq<int>, isb: seq<bool>, vb': seq<int>, isb': seq<bool>,
                    base: nat, delta: nat, isrow: bool, updating: bool, rows: nat, sum: nat)
    requires IsBasis(vb, isb, rows, sum) && 1 <= base <= sum + 1 && delta > 0
    requires FlagsInserted(isb, isb', base, delta, isrow, sum) && IndicesInserted(vb, vb', base, delta, isrow, updating, rows)
    ensures IsBasis(vb', isb', if isrow then rows + delta else rows, sum + delta) <==> updating || NoneFrom(vb, rows, base)
  {
    if updating || NoneFrom(vb, rows, base) {
      InsertKeeps(vb, isb, vb', isb', base, delta, isrow, updating, rows, sum);
    } else {
      InsertBreaks(vb, isb, vb', isb', base, delta, isrow, rows, sum);
    }
  }

  /** The test does not tell the others apart: from any valid basis of a model with a single row, inserting a
      row before it without updating the indices leaves the same index in both positions; the flag of the
      new row makes up for it in the count, and the test passes. */
  lemma VerifyAcceptsRepeat(vb: seq<int>, isb: seq<bool>, vb': seq<int>, isb': seq<bool>)
    requires IsBasis(vb, isb, 1, 1)
    requires FlagsInserted(isb, isb', 1, 1, true, 1) && IndicesInserted(vb, vb', 1, 1, true, false, 1)
    ensures vb'[1] == vb'[2] == 1 && Verified(vb', isb', 2, 2) && !IsBasis(vb', isb', 2, 2)
  {
    assert vb[1] == 1 && 1 in vb[1..2];
    assert vb'[1] == vb'[2];
    assert CountTo(isb', 1) == 1;
    assert CountTo(isb', 2) == 2;
  }

  lemma {:induction false} LargestAt(vb: seq<int>, rows: nat) returns (m: nat)
    requires rows < |vb| && rows > 0
    ensures 1 <= m <= rows && forall i :: 1 <= i <= rows ==> vb[i] <= vb[m]
  {
    m := 1;
    if rows > 1 {
      m := LargestAt(vb, rows - 1);
      if vb[rows] > vb[m] {
        m := rows;
      }
    }
  }

  // ------------------------------------------------------------------ deletion

  /** The basic indices that survive the deletion of base..base + d - 1, renumbered, in order. */
  function Kept(xs: seq<int>, base: nat, d: nat): seq<int> {
    if xs == [] then []
    else
      var l := |xs| - 1;
      Kept(xs[..l], base, d) +
      if base <= xs[l] < base + d then [] else [if xs[l] >= base then xs[l] - d else xs[l]]
  }

  lemma KeptSnoc(xs: seq<int>, x: int, base: nat, d: nat)
    ensures Kept(xs + [x], base, d) == Kept(xs, base, d) +
              if base <= x < base + d then [] else [if x >= base then x - d else x]
  {
    assert (xs + [x])[..|xs|] == xs;
  }

  /** The survivors are those of the old indices that are not deleted. */
  lemma {:induction false} KeptIn(xs: seq<int>, base: nat, d: nat, k: int)
    ensures k in Kept(xs, base, d) <==> (if k >= base then k + d else k) in xs
  {
    if xs != [] {
      var l := |xs| - 1;
      KeptIn(xs[..l], base, d, k);
      assert xs == xs[..l] + [xs[l]];
    }
  }

  lemma {:induction false} KeptDistinct(xs: seq<int>, base: nat, d: nat)
    requires NoRepeat(xs)
    ensures NoRepeat(Kept(xs, base, d))
  {
    if xs != [] {
      var l := |xs| - 1;
      KeptDistinct(xs[..l], base, d);
      assert forall i :: 0 <= i < l ==> xs[..l][i] == xs[i];
      var x := if xs[l] >= base then xs[l] - d else xs[l];
      if !(base <= xs[l] < base + d) {
        KeptIn(xs[..l], base, d, x);
      }
    }
  }

  /** At most `d` indices are lost. */
  lemma KeptSize(xs: seq<int>, base: nat, d: nat)
    requires NoRepeat(xs)
    ensures |xs| - d <= |Kept(xs, base, d)| <= |xs|
  {
    var lost := Lost(xs, base, d);
    LostSize(xs, base, d);
    ValuesSize(lost);
    var window := Between(base, d);
    BetweenSize(base, d);
    assert Values(lost) <= window;
    SubsetSize(Values(lost), window);
  }

  lemma SubsetSize(a: set<int>, b: set<int>)
    requires a <= b
    ensures |a| <= |b|
  {
    assert b == a + (b - a);
  }

  ghost function Between(base: int, d: nat): set<int> {
    if d == 0 then {} else Between(base, d - 1) + {base + d - 1}
  }

  lemma {:induction false} BetweenSize(base: int, d: nat)
    ensures forall k :: k in Between(base, d) <==> base <= k < base + d
    ensures |Between(base, d)| == d
  {
    if d > 0 {
      BetweenSize(base, d - 1);
    }
  }

  ghost function Lost(xs: seq<int>, base: nat, d: nat): seq<int> {
    if xs == [] then []
    else
      var l := |xs| - 1;
      Lost(xs[..l], base, d) + if base <= xs[l] < base + d then [xs[l]] else []
  }

  lemma {:induction false} LostSize(xs: seq<int>, base: nat, d: nat)
    requires NoRepeat(xs)
    ensures |Kept(xs, base, d)| + |Lost(xs, base, d)| == |xs|
    ensures NoRepeat(Lost(xs, base, d))
    ensures forall k :: k in Lost(xs, base, d) ==> k in xs && base <= k < base + d
  {
    if xs != [] {
      var l := |xs| - 1;
      assert forall i :: 0 <= i < l ==> xs[..l][i] == xs[i];
      LostSize(xs[..l], base, d);
      assert xs[l] !in xs[..l];
    }
  }

  /** The survivors in positions 1..k with their flags are a basis of the smaller model. */
  lemma KeptIsBasis(vb0: seq<int>, vb: seq<int>, isb: seq<bool>, rows: nat, sum: nat, base: nat, d: nat, k: nat)
    requires InRange(vb0, rows, sum) && Distinct(vb0, rows) && 1 <= base && base + d <= sum + 1
    requires k < |vb| && vb[1..k + 1] == Kept(vb0[1..rows + 1], base, d)
    ensures InRange(vb, k, sum - d) && Distinct(vb, k) && rows - d <= k <= rows
  {
    var xs, ys := vb0[1..rows + 1], vb[1..k + 1];
    DistinctIsNoRepeat(vb0, rows);
    DistinctIsNoRepeat(vb, k);
    KeptDistinct(xs, base, d);
    KeptSize(xs, base, d);
    forall i | 1 <= i <= k ensures 1 <= vb[i] <= sum - d {
      assert ys[i - 1] == vb[i];
      KeptIn(xs, base, d, vb[i]);
      var o := if vb[i] >= base then vb[i] + d else vb[i];
      var q :| 0 <= q < rows && xs[q] == o;
      assert xs[q] == vb0[q + 1];
    }
  }

  /** While a basis has fewer entries than there are slacks, some slack is not basic. */
  lemma SlackLeft(vb: seq<int>, isb: seq<bool>, k: nat, rows: nat, sum: nat)
    requires IsBasis(vb, isb, k, sum) && k < rows <= sum
    ensures exists i :: 1 <= i <= rows && !isb[i]
  {
    if forall i :: 1 <= i <= rows ==> isb[i] {
      var xs := vb[1..k + 1];
      ValuesSize(xs);
      BetweenSize(1, rows);
      forall i | i in Between(1, rows) ensures i in Values(xs) {
        assert isb[i];
      }
      SubsetSize(Between(1, rows), Values(xs));
    }
  }

  /** Making a nonbasic index basic in the next position. */
  lemma AddBasic(vb: seq<int>, isb: seq<bool>, k: nat, sum: nat, i: nat)
    requires IsBasis(vb, isb, k, sum) && k + 1 < |vb| && 1 <= i <= sum && !isb[i]
    ensures IsBasis(vb[k + 1 := i], isb[i := true], k + 1, sum)
  {
    var vb' := vb[k + 1 := i];
    assert vb'[1..k + 2] == vb[1..k + 1] + [i];
    forall j | 1 <= j <= k ensures vb[j] != i {
      assert vb[1..k + 1][j - 1] == vb[j];
    }
  }

  /** Replacing a basic index gives a basis exactly if the new one was not basic, or is the one replaced. */
  lemma Replaced(vb: seq<int>, isb: seq<bool>, vb': seq<int>, isb': seq<bool>, rows: nat, sum: nat, p: nat, k: int)
    requires IsBasis(vb, isb, rows, sum) && 1 <= p <= rows && 1 <= k <= sum && |vb'| == |vb| && |isb'| == |isb|
    requires forall i :: 1 <= i <= rows ==> vb'[i] == if i == p then k else vb[i]
    requires forall i :: 1 <= i <= sum ==> (isb'[i] <==> i == k || (isb[i] && i != vb[p]))
    ensures IsBasis(vb', isb', rows, sum) <==> !isb[k] || k == vb[p]
  {
    if !isb[k] || k == vb[p] {
      forall i | 1 <= i <= sum ensures isb'[i] <==> i in vb'[1..rows + 1] {
        ReplacedIn(vb, vb', rows, p, k, i);
      }
      NewIsDistinct(vb, isb, vb', rows, sum, p, k);
    } else {
      var xs := vb[1..rows + 1];
      var q :| 0 <= q < rows && xs[q] == k;
      assert xs[q] == vb[q + 1];
      assert vb'[q + 1] == k == vb'[p];
      assert !Distinct(vb', rows);
    }
  }

  /** Which indices are basic after a replacement. */
  lemma ReplacedIn(vb: seq<int>, vb': seq<int>, rows: nat, p: nat, k: int, x: int)
    requires Distinct(vb, rows) && 1 <= p <= rows < |vb'| && forall i :: 1 <= i <= rows ==> vb'[i] == if i == p then k else vb[i]
    ensures x in vb'[1..rows + 1] <==> x == k || (x in vb[1..rows + 1] && x != vb[p])
  {
    var xs, xs' := vb[1..rows + 1], vb'[1..rows + 1];
    assert forall i :: 0 <= i < rows ==> xs[i] == vb[i + 1];
    assert forall i :: 0 <= i < rows ==> xs'[i] == vb'[i + 1];
    assert xs'[p - 1] == k;
    if x in xs && x != vb[p] {
      var q :| 0 <= q < rows && xs[q] == x;
      assert xs'[q] == x;
    }
    if x in xs' && x != k {
      var q :| 0 <= q < rows && xs'[q] == x;
      assert xs[q] == x && vb[q + 1] != vb[p];
    }
  }

  lemma NewIsDistinct(vb: seq<int>, isb: seq<bool>, vb': seq<int>, rows: nat, sum: nat, p: nat, k: int)
    requires IsBasis(vb, isb, rows, sum) && 1 <= p <= rows < |vb'| && 1 <= k <= sum && (!isb[k] || k == vb[p])
    requires forall i :: 1 <= i <= rows ==> vb'[i] == if i == p then k else vb[i]
    ensures InRange(vb', rows, sum) && Distinct(vb', rows)
  {
    var xs := vb[1..rows + 1];
    forall i | 1 <= i <= rows && i != p ensures vb[i] != k {
      assert xs[i - 1] == vb[i];
    }
  }

  /** The slacks form a basis. */
  lemma SlackBasis(vb: seq<int>, isb: seq<bool>, rows: nat, sum: nat)
    requires rows <= sum && rows < |vb| && sum < |isb|
    requires forall i :: 1 <= i <= rows ==> vb[i] == i
    requires forall i :: 1 <= i <= sum ==> (isb[i] <==> i <= rows)
    ensures IsBasis(vb, isb, rows, sum)
  {
    var xs := vb[1..rows + 1];
    forall k | 1 <= k <= sum ensures isb[k] <==> k in xs {
      if k <= rows {
        assert xs[k - 1] == k;
      }
    }
  }

  /** Positions k + 1..upto hold slacks, and equality slacks only if all other slacks are basic. */
  ghost predicate FilledUp(vb: seq<int>, isb: seq<bool>, k: nat, upto: nat, rows: nat, isEquality: seq<bool>) {
    && upto < |vb| && rows < |isb| && rows < |isEquality|
    && forall p :: k < p <= upto ==> 1 <= vb[p] <= rows && (isEquality[vb[p]] ==> OthersBasic(isb, rows, isEquality))
  }

  ghost predicate OthersBasic(isb: seq<bool>, rows: nat, isEquality: seq<bool>)
    requires rows < |isb| && rows < |isEquality|
  {
    forall i :: 1 <= i <= rows && !isEquality[i] ==> isb[i]
  }

  /** Slacks 1..i - 1 have been scanned. */
  ghost predicate Scanned(isb: seq<bool>, i: int, second: bool, rows: nat, isEquality: seq<bool>) {
    && rows < |isb| && rows < |isEquality|
    && (second ==> OthersBasic(isb, rows, isEquality))
    && forall j :: 1 <= j < i && j <= rows && (second || !isEquality[j]) ==> isb[j]
  }

  lemma FillNext(vb: seq<int>, isb: seq<bool>, k0: nat, k: nat, rows: nat, sum: nat, i: nat, second: bool, isEquality: seq<bool>)
    requires IsBasis(vb, isb, k, sum) && k0 <= k < rows <= sum && rows < |vb| && 1 <= i <= rows && !isb[i]
    requires FilledUp(vb, isb, k0, k, rows, isEquality) && Scanned(isb, i, second, rows, isEquality)
    requires second || !isEquality[i]
    ensures IsBasis(vb[k + 1 := i], isb[i := true], k + 1, sum)
    ensures FilledUp(vb[k + 1 := i], isb[i := true], k0, k + 1, rows, isEquality)
    ensures Scanned(isb[i := true], i + 1, second, rows, isEquality)
  {
    AddBasic(vb, isb, k, sum, i);
  }

  lemma FirstScanDone(isb: seq<bool>, rows: nat, isEquality: seq<bool>)
    requires Scanned(isb, rows + 1, false, rows, isEquality)
    ensures Scanned(isb, 1, true, rows, isEquality)
  {
  }

  /** After both scans there is no position left to fill. */
  lemma AllFilled(vb: seq<int>, isb: seq<bool>, k: nat, rows: nat, sum: nat, isEquality: seq<bool>)
    requires IsBasis(vb, isb, k, sum) && k <= rows <= sum && Scanned(isb, rows + 1, true, rows, isEquality)
    ensures k == rows
  {
    if k < rows {
      SlackLeft(vb, isb, k, rows, sum);
    }
  }

  lemma SkipSlack(isb: seq<bool>, i: nat, second: bool, rows: nat, isEquality: seq<bool>)
    requires 1 <= i <= rows && Scanned(isb, i, second, rows, isEquality) && (isb[i] || (isEquality[i] && !second))
    ensures Scanned(isb, i + 1, second, rows, isEquality)
  {
  }

  lemma NothingScanned(vb: seq<int>, isb: seq<bool>, k: nat, rows: nat, sum: nat, isEquality: seq<bool>)
    requires IsBasis(vb, isb, k, sum) && k <= rows <= sum && rows < |isEquality|
    ensures FilledUp(vb, isb, k, k, rows, isEquality) && Scanned(isb, 1, false, rows, isEquality)
  {
  }

  lemma NothingFilled(vb: seq<int>, isb: seq<bool>, rows: nat, isEquality: seq<bool>)
    requires rows < |vb| && rows < |isb| && rows < |isEquality|
    ensures FilledUp(vb, isb, rows, rows, rows, isEquality)
  {
  }

  /** Only the flags of basic indices from position `i` on are still set. */
  ghost predicate StillFlagged(vb: seq<int>, isb: seq<bool>, i: nat, rows: nat, sum: nat) {
    && i <= rows + 1 <= |vb| && sum < |isb|
    && forall j :: 1 <= j <= sum && isb[j] ==> j in vb[i..rows + 1]
  }

  lemma StillFlaggedAtStart(vb: seq<int>, isb: seq<bool>, rows: nat, sum: nat)
    requires IsBasis(vb, isb, rows, sum)
    ensures StillFlagged(vb, isb, 1, rows, sum)
  {
  }

  lemma FlagCleared(vb: seq<int>, isb: seq<bool>, i: nat, rows: nat, sum: nat)
    requires StillFlagged(vb, isb, i, rows, sum) && i <= rows && 0 <= vb[i] < |isb|
    ensures StillFlagged(vb, isb[vb[i] := false], i + 1, rows, sum)
  {
    assert vb[i..rows + 1] == [vb[i]] + vb[i + 1..rows + 1];
  }

  lemma NoneFlagged(vb: seq<int>, isb: seq<bool>, rows: nat, sum: nat)
    requires StillFlagged(vb, isb, rows + 1, rows, sum)
    ensures forall j :: 1 <= j <= sum ==> !isb[j]
  {
  }

  lemma FirstPart(vb: seq<int>, k: nat, m: nat, n: nat)
    requires InRange(vb, k, n) && Distinct(vb, k) && m <= k
    ensures InRange(vb, m, n) && Distinct(vb, m)
  {
  }

  /** The entries before position `i` have been compacted into positions 1..k and their flags cleared. */
  ghost predicate Compacted(vb0: seq<int>, vb: seq<int>, isb: seq<bool>, rows: nat, sum: nat, base: nat, d: nat, i: nat, k: nat) {
    && 1 <= i <= rows + 1 <= |vb0| && |vb| == |vb0| && k < i
    && vb[1..k + 1] == Kept(vb0[1..i], base, d)
    && (forall q :: i <= q <= rows ==> vb[q] == vb0[q])
    && StillFlagged(vb0, isb, i, rows, sum)
  }

  /** One more entry: its flag is cleared, and it is kept or dropped. */
  lemma CompactedParts(vb0: seq<int>, vb: seq<int>, isb: seq<bool>, rows: nat, sum: nat, base: nat, d: nat, i: nat, k: nat)
    requires Compacted(vb0, vb, isb, rows, sum, base, d, i, k) && InRange(vb0, rows, sum) && i <= rows
    ensures i < |vb| && k + 1 < |vb| && 0 <= vb[i] < |isb|
    ensures var x := vb[i]; var isb' := isb[x := false];
            if base <= x < base + d then Compacted(vb0, vb, isb', rows, sum, base, d, i + 1, k)
            else Compacted(vb0, vb[k + 1 := if x >= base then x - d else x], isb', rows, sum, base, d, i + 1, k + 1)
  {
    var x := vb[i];
    FlagCleared(vb0, isb, i, rows, sum);
    KeptSnoc(vb0[1..i], x, base, d);
    assert vb0[1..i + 1] == vb0[1..i] + [x];
    hide Kept, StillFlagged, InRange;
    if !(base <= x < base + d) {
      KeptHere(vb, k, if x >= base then x - d else x);
    }
  }

  lemma KeptHere(vb: seq<int>, k: nat, y: int)
    requires k + 1 < |vb|
    ensures vb[k + 1 := y][1..k + 2] == vb[1..k + 1] + [y]
  {
  }

  /** State of a scan for slacks to add: the first `k0` entries are `kept`. */
  ghost predicate Scanning(vb: seq<int>, isb: seq<bool>, k0: nat, k: nat, rows: nat, n: nat, i: int, second: bool,
                           isEquality: seq<bool>, kept: seq<int>) {
    && k0 <= k <= rows && IsBasis(vb, isb, k, n) && FilledUp(vb, isb, k0, k, rows, isEquality)
    && Scanned(isb, i, second, rows, isEquality) && vb[1..k0 + 1] == kept
  }
}
