/** The maps between the variables of a presolved model and those of the original one (lp_lib.c). */
module VarMaps {
  import opened Numbers

  // ------------------------------------------------------------------ one block: the rows, or the columns

  /** `xs` lists the surviving originals in ascending order, and `os` maps every original to its place in
      the list, counted from 1, or to 0 when it has been deleted. */
  ghost predicate Inverse(xs: seq<int>, os: seq<int>) {
    && (forall k :: 0 <= k < |xs| ==> Placed(xs, os, k))
    && Ascending(xs)
    && (forall r :: 0 <= r < |os| ==> ZeroIfDeleted(xs, os, r))
  }

  ghost predicate Placed(xs: seq<int>, os: seq<int>, k: nat)
    requires k < |xs|
  {
    1 <= xs[k] <= |os| && os[xs[k] - 1] == k + 1
  }

  ghost predicate Ascending(xs: seq<int>) {
    forall j, k :: 0 <= j < k < |xs| ==> xs[j] < xs[k]
  }

  ghost predicate ZeroIfDeleted(xs: seq<int>, os: seq<int>, r: nat)
    requires r < |os|
  {
    os[r] == 0 <==> r + 1 !in xs
  }

  /** A block in which the deleted entries have been negated. */
  ghost predicate MarkedBlock(xs: seq<int>, os: seq<int>) {
    && (forall k :: 0 <= k < |xs| ==> xs[k] != 0)
    && Inverse(Absolute(xs), os)
  }

  function Absolute(xs: seq<int>): (r: seq<int>)
    ensures |r| == |xs|
  {
    seq(|xs|, k requires 0 <= k < |xs| => Abs(xs[k]))
  }

  /** The entries that have not been negated, in order. */
  function Alive(xs: seq<int>): seq<int> {
    if xs == [] then [] else Alive(xs[..|xs| - 1]) + if xs[|xs| - 1] < 0 then [] else [xs[|xs| - 1]]
  }

  lemma AliveSnoc(xs: seq<int>, x: int)
    ensures Alive(xs + [x]) == Alive(xs) + if x < 0 then [] else [x]
  {
    assert (xs + [x])[..|xs|] == xs;
  }

  lemma {:induction false} AliveIn(xs: seq<int>, x: int)
    ensures x in Alive(xs) <==> x in xs && x >= 0
  {
    if xs != [] {
      AliveIn(xs[..|xs| - 1], x);
      assert xs == xs[..|xs| - 1] + [xs[|xs| - 1]];
    }
  }

  lemma {:induction false} AliveAppend(xs: seq<int>, ys: seq<int>)
    ensures Alive(xs + ys) == Alive(xs) + Alive(ys)
  {
    if ys == [] {
      assert xs + ys == xs;
    } else {
      var l := |ys| - 1;
      AliveAppend(xs, ys[..l]);
      assert xs + ys == (xs + ys[..l]) + [ys[l]] && ys == ys[..l] + [ys[l]];
      AliveSnoc(xs + ys[..l], ys[l]);
      AliveSnoc(ys[..l], ys[l]);
    }
  }

  /** The place of a surviving entry is the number of survivors up to it. */
  lemma {:induction false} AlivePlace(xs: seq<int>, n: nat, q: nat)
    requires q < n <= |xs| && xs[q] >= 0
    ensures var k := |Alive(xs[..q + 1])|; 1 <= k <= |Alive(xs[..n])| && Alive(xs[..n])[k - 1] == xs[q]
  {
    assert xs[..n] == xs[..n - 1] + [xs[n - 1]];
    AliveSnoc(xs[..n - 1], xs[n - 1]);
    if q < n - 1 {
      AlivePlace(xs, n - 1, q);
    }
  }

  lemma {:induction false} AliveSource(xs: seq<int>, k: nat) returns (q: nat)
    requires k < |Alive(xs)|
    ensures q < |xs| && xs[q] >= 0 && xs[q] == Alive(xs)[k] && |Alive(xs[..q + 1])| == k + 1
  {
    var l := |xs| - 1;
    assert xs[..l + 1] == xs;
    if k < |Alive(xs[..l])| {
      q := AliveSource(xs[..l], k);
      assert xs[..l][..q + 1] == xs[..q + 1];
    } else {
      q := l;
    }
  }

  lemma {:induction false} AliveAscending(xs: seq<int>)
    requires forall j, k :: 0 <= j < k < |xs| ==> Abs(xs[j]) < Abs(xs[k])
    ensures forall j, k :: 0 <= j < k < |Alive(xs)| ==> Alive(xs)[j] < Alive(xs)[k]
  {
    if xs != [] {
      var l := |xs| - 1;
      AliveAscending(xs[..l]);
      forall x | x in Alive(xs[..l]) ensures x < Abs(xs[l]) {
        AliveIn(xs[..l], x);
      }
      var prev := Alive(xs[..l]);
      assert forall k :: 0 <= k < |prev| ==> prev[k] in prev;
    }
  }

  /** The originals of a marked block map to their new places, or to 0 if they are deleted. */
  ghost predicate Renumbered(xs: seq<int>, os0: seq<int>, os: seq<int>) {
    && |os| == |os0| && MarkedBlock(xs, os0)
    && (forall q :: 0 <= q < |xs| ==> 1 <= Abs(xs[q]) <= |os| && os[Abs(xs[q]) - 1] == PlaceOf(xs, q))
    && (forall r :: 0 <= r < |os| && r + 1 !in Absolute(xs) ==> os[r] == 0)
  }

  function PlaceOf(xs: seq<int>, q: nat): int
    requires q < |xs|
  {
    if xs[q] < 0 then 0 else |Alive(xs[..q + 1])|
  }

  lemma BlockEntry(xs: seq<int>, os: seq<int>, q: nat)
    requires MarkedBlock(xs, os) && q < |xs|
    ensures 1 <= Abs(xs[q]) <= |os| && os[Abs(xs[q]) - 1] == q + 1
    ensures forall p :: 0 <= p < |xs| && p != q ==> Abs(xs[p]) != Abs(xs[q])
  {
    assert Absolute(xs)[q] == Abs(xs[q]) && Placed(Absolute(xs), os, q);
    forall p | 0 <= p < |xs| && p != q ensures Abs(xs[p]) != Abs(xs[q]) {
      assert Absolute(xs)[p] == Abs(xs[p]);
      assert p < q || q < p;
    }
  }

  /** A renumbered block is again in order and inverse to its map; exactly the survivors are left. */
  lemma RenumberedDone(xs: seq<int>, os0: seq<int>, os: seq<int>)
    requires Renumbered(xs, os0, os)
    ensures Inverse(Alive(xs), os)
  {
    var ys := Alive(xs);
    assert MarkedBlock(xs, os0);
    hide MarkedBlock, Renumbered, Alive, Placed, Ascending, ZeroIfDeleted;
    forall k | 0 <= k < |ys| ensures Placed(ys, os, k) {
      SurvivorPlace(xs, os0, os, k);
    }
    SurvivorsAscend(xs, os0);
    forall r | 0 <= r < |os| ensures ZeroIfDeleted(ys, os, r) {
      ZeroMeansDeleted(xs, os0, os, r);
    }
  }

  lemma SurvivorPlace(xs: seq<int>, os0: seq<int>, os: seq<int>, k: nat)
    requires Renumbered(xs, os0, os) && k < |Alive(xs)|
    ensures Placed(Alive(xs), os, k)
  {
    var q := AliveSource(xs, k);
    assert os[Abs(xs[q]) - 1] == PlaceOf(xs, q);
  }

  lemma SurvivorsAscend(xs: seq<int>, os: seq<int>)
    requires MarkedBlock(xs, os)
    ensures Ascending(Alive(xs))
  {
    forall j, k | 0 <= j < k < |xs| ensures Abs(xs[j]) < Abs(xs[k]) {
      assert Absolute(xs)[j] < Absolute(xs)[k];
    }
    AliveAscending(xs);
  }

  lemma ZeroMeansDeleted(xs: seq<int>, os0: seq<int>, os: seq<int>, r: nat)
    requires Renumbered(xs, os0, os) && r < |os|
    ensures ZeroIfDeleted(Alive(xs), os, r)
  {
    AliveIn(xs, r + 1);
    if r + 1 in Absolute(xs) {
      var q :| 0 <= q < |xs| && Absolute(xs)[q] == r + 1;
      assert os[Abs(xs[q]) - 1] == PlaceOf(xs, q);
      OnlyOnce(xs, os0, q);
      if xs[q] > 0 {
        AlivePlace(xs, |xs|, q);
      }
    } else {
      NotListed(xs, r + 1);
    }
  }

  lemma OnlyOnce(xs: seq<int>, os: seq<int>, q: nat)
    requires MarkedBlock(xs, os) && q < |xs|
    ensures Abs(xs[q]) in xs <==> xs[q] > 0
  {
    BlockEntry(xs, os, q);
    if Abs(xs[q]) in xs {
      var p :| 0 <= p < |xs| && xs[p] == Abs(xs[q]);
      assert Abs(xs[p]) == xs[p];
    }
  }

  lemma NotListed(xs: seq<int>, x: int)
    requires x > 0 && x !in Absolute(xs)
    ensures x !in xs
  {
    forall p | 0 <= p < |xs| ensures xs[p] != x {
      assert Absolute(xs)[p] == Abs(xs[p]);
    }
  }

  /** A list that is inverse to its map is a block in which nothing is marked. */
  lemma NothingMarked(xs: seq<int>, os: seq<int>)
    requires Inverse(xs, os)
    ensures MarkedBlock(xs, os) && Alive(xs) == xs
  {
    forall k | 0 <= k < |xs| ensures xs[k] >= 1 {
      assert Placed(xs, os, k);
    }
    assert Absolute(xs) == xs;
    AliveAll(xs);
  }

  lemma {:induction false} AliveAll(xs: seq<int>)
    requires forall k :: 0 <= k < |xs| ==> xs[k] >= 0
    ensures Alive(xs) == xs
  {
    if xs != [] {
      AliveAll(xs[..|xs| - 1]);
      assert xs == xs[..|xs| - 1] + [xs[|xs| - 1]];
    }
  }

  /** A list has only one inverse map. */
  lemma InverseUnique(xs: seq<int>, os: seq<int>, os': seq<int>)
    requires Inverse(xs, os) && Inverse(xs, os') && |os| == |os'|
    ensures os == os'
  {
    forall r | 0 <= r < |os| ensures os[r] == os'[r] {
      assert ZeroIfDeleted(xs, os, r) && ZeroIfDeleted(xs, os', r);
      if r + 1 in xs {
        var k :| 0 <= k < |xs| && xs[k] == r + 1;
        assert Placed(xs, os, k) && Placed(xs, os', k);
      }
    }
  }

  // ------------------------------------------------------------------ both blocks

  /** Rows and columns of the current model and of the original one are mapped to each other. */
  ghost predicate Mutual(v: seq<int>, o: seq<int>, rows: nat, cols: nat, origRows: nat, origCols: nat) {
    && rows + cols < |v| && origRows + origCols < |o|
    && Inverse(RowBlock(v, rows), RowBlock(o, origRows))
    && Inverse(ColBlock(v, rows, cols), ColBlock(o, origRows, origCols))
  }

  function RowBlock(v: seq<int>, rows: nat): seq<int>
    requires rows < |v|
  {
    v[1..rows + 1]
  }

  function ColBlock(v: seq<int>, rows: nat, cols: nat): seq<int>
    requires rows + cols < |v|
  {
    v[rows + 1..rows + cols + 1]
  }

  /** The same with deleted entries negated. */
  ghost predicate MutualMarked(v: seq<int>, o: seq<int>, rows: nat, cols: nat, origRows: nat, origCols: nat) {
    && rows + cols < |v| && origRows + origCols < |o|
    && MarkedBlock(RowBlock(v, rows), RowBlock(o, origRows))
    && MarkedBlock(ColBlock(v, rows, cols), ColBlock(o, origRows, origCols))
  }

  /** What `varmap_validate` tests for the original `i`. */
  predicate Validates(v: seq<int>, o: seq<int>, rows: nat, origRows: nat, origCols: nat, i: int)
    requires 1 <= i < |o|
  {
    var origSum := origRows + origCols;
    var ix := if o[i] > 0 && i > origRows then o[i] + rows else o[i];
    ix <= origSum && (ix != 0 ==> 0 <= ix < |v| && (if ix > rows then v[ix] + origRows else v[ix]) == i)
  }

  /** Maps that are mutually inverse pass the test for every original. */
  lemma MutualValidates(v: seq<int>, o: seq<int>, rows: nat, cols: nat, origRows: nat, origCols: nat, i: nat)
    requires Mutual(v, o, rows, cols, origRows, origCols) && rows <= origRows && cols <= origCols && 1 <= i <= origRows + origCols
    ensures Validates(v, o, rows, origRows, origCols, i)
  {
    var rs, cs := RowBlock(v, rows), ColBlock(v, rows, cols);
    if i <= origRows {
      assert RowBlock(o, origRows)[i - 1] == o[i];
      assert ZeroIfDeleted(rs, RowBlock(o, origRows), i - 1);
      if o[i] != 0 {
        var k :| 0 <= k < |rs| && rs[k] == i;
        assert Placed(rs, RowBlock(o, origRows), k) && v[k + 1] == rs[k];
      }
    } else {
      assert ColBlock(o, origRows, origCols)[i - origRows - 1] == o[i];
      assert ZeroIfDeleted(cs, ColBlock(o, origRows, origCols), i - origRows - 1);
      if o[i] != 0 {
        var k :| 0 <= k < |cs| && cs[k] == i - origRows;
        assert Placed(cs, ColBlock(o, origRows, origCols), k) && v[rows + k + 1] == cs[k];
      }
    }
  }

  /** Where the original `i` is now: rows first, then columns; 0 if it is mapped to nothing. */
  function Position(o: seq<int>, rows: nat, origRows: nat, i: int): int
    requires 1 <= i < |o|
  {
    if o[i] > 0 && i > origRows then o[i] + rows else o[i]
  }

  /** What the test cannot see is an original that is mapped to nothing; of the others no two that it accepts
      have the same position. */
  lemma ValidatedApart(v: seq<int>, o: seq<int>, rows: nat, origRows: nat, origCols: nat, i: int, j: int)
    requires 1 <= i < j < |o|
    requires Validates(v, o, rows, origRows, origCols, i) && Validates(v, o, rows, origRows, origCols, j)
    ensures Position(o, rows, origRows, i) != 0 ==> Position(o, rows, origRows, i) != Position(o, rows, origRows, j)
    ensures forall k :: 1 <= k < |o| && o[k] == 0 ==> Validates(v, o, rows, origRows, origCols, k)
  {
  }

  /** A position whose entry names another original, or that lies behind all originals, is found. */
  lemma MisplacedFails(v: seq<int>, o: seq<int>, rows: nat, origRows: nat, origCols: nat, i: int)
    requires 1 <= i < |o| && o[i] > 0
    requires var q := Position(o, rows, origRows, i);
             q > origRows + origCols || q >= |v| || (q <= rows && v[q] != i) || (q > rows && v[q] != i - origRows)
    ensures !Validates(v, o, rows, origRows, origCols, i)
  {
  }

  /** Entries that can be deleted: distinct positions, counted from 1, that have not been marked. */
  ghost predicate Deletable(xs: seq<int>, inactive: seq<nat>) {
    && (forall q :: 0 <= q < |inactive| ==> 1 <= inactive[q] <= |xs| && xs[inactive[q] - 1] > 0)
    && (forall p, q :: 0 <= p < q < |inactive| ==> inactive[p] != inactive[q])
  }

  /** `xs` with the first `n` listed entries negated. */
  function Negated(xs: seq<int>, inactive: seq<nat>, n: nat): (r: seq<int>)
    requires n <= |inactive| && forall q :: 0 <= q < |inactive| ==> 1 <= inactive[q] <= |xs|
    ensures |r| == |xs|
  {
    if n == 0 then xs
    else
      var r := Negated(xs, inactive, n - 1);
      r[inactive[n - 1] - 1 := -r[inactive[n - 1] - 1]]
  }

  lemma {:induction false} NegatedEntry(xs: seq<int>, inactive: seq<nat>, n: nat, k: nat)
    requires Deletable(xs, inactive) && n <= |inactive| && k < |xs|
    ensures Negated(xs, inactive, n)[k] == if k + 1 in inactive[..n] then -xs[k] else xs[k]
  {
    if n > 0 {
      NegatedEntry(xs, inactive, n - 1, k);
      assert inactive[..n] == inactive[..n - 1] + [inactive[n - 1]];
    }
  }

  lemma {:induction false} AliveNegate(xs: seq<int>, q: nat)
    requires q < |xs| && xs[q] > 0
    ensures |Alive(xs[q := -xs[q]])| == |Alive(xs)| - 1
  {
    var l := |xs| - 1;
    var ys := xs[q := -xs[q]];
    if q < l {
      AliveNegate(xs[..l], q);
      assert ys[..l] == xs[..l][q := -xs[q]];
    } else {
      assert ys[..l] == xs[..l];
    }
  }

  lemma MarkedStill(xs: seq<int>, os: seq<int>, q: nat)
    requires MarkedBlock(xs, os) && q < |xs|
    ensures MarkedBlock(xs[q := -xs[q]], os)
  {
    assert Absolute(xs[q := -xs[q]]) == Absolute(xs);
  }

  /** Marking keeps the block well formed and takes one survivor for each entry of the list. */
  lemma {:induction false} NegatedBlock(xs: seq<int>, os: seq<int>, inactive: seq<nat>, n: nat)
    requires Deletable(xs, inactive) && n <= |inactive| && MarkedBlock(xs, os)
    ensures MarkedBlock(Negated(xs, inactive, n), os)
    ensures |Alive(Negated(xs, inactive, n))| == |Alive(xs)| - n
  {
    if n > 0 {
      NegatedBlock(xs, os, inactive, n - 1);
      var r := Negated(xs, inactive, n - 1);
      var q := inactive[n - 1] - 1;
      assert Negated(xs, inactive, n) == r[q := -r[q]];
      assert inactive[n - 1] !in inactive[..n - 1] && xs[q] > 0;
      NegatedEntry(xs, inactive, n - 1, q);
      hide *;
      AliveNegate(r, q);
      MarkedStill(r, os, q);
    }
  }

  lemma IdentityIsMutual(v: seq<int>, o: seq<int>, rows: nat, cols: nat)
    requires |v| == rows + cols + 1 && o == v
    requires forall i :: 0 <= i < |v| ==> v[i] == if i <= rows then i else i - rows
    ensures Mutual(v, o, rows, cols, rows, cols)
  {
    IdentityIsInverse(RowBlock(v, rows));
    IdentityIsInverse(ColBlock(v, rows, cols));
  }

  lemma IdentityIsInverse(xs: seq<int>)
    requires forall k :: 0 <= k < |xs| ==> xs[k] == k + 1
    ensures Inverse(xs, xs)
  {
    forall r | 0 <= r < |xs| ensures ZeroIfDeleted(xs, xs, r) {
      assert xs[r] == r + 1;
    }
  }
}
