/** The presolve bookkeeping of lp_lib.c and lp_presolve.c on the arrays of the index maps, in place. */
module PresolveMaps {
  import opened Numbers
  import opened VarMaps
  import opened VarPasses

  /** What one presolve pass deletes: positions among the columns, and among the rows, that are left. */
  datatype Round = Round(cols: seq<nat>, rows: seq<nat>)

  /** What is left of the originals `xs` when the listed positions are deleted. */
  function Kept(xs: seq<int>, inactive: seq<nat>): seq<int>
    requires forall q :: 0 <= q < |inactive| ==> 1 <= inactive[q] <= |xs|
  {
    Alive(Negated(xs, inactive, |inactive|))
  }

  /** The originals at the listed positions. */
  function Listed(xs: seq<int>, inactive: seq<nat>): set<int>
    requires forall q :: 0 <= q < |inactive| ==> 1 <= inactive[q] <= |xs|
  {
    set q | 0 <= q < |inactive| :: xs[inactive[q] - 1]
  }

  /** One list of positions for each round; every list speaks of what the rounds before it have left. */
  ghost predicate Lists(xs: seq<int>, lists: seq<seq<nat>>)
    decreases |lists|
  {
    lists == [] || (Deletable(xs, lists[0]) && Lists(Kept(xs, lists[0]), lists[1..]))
  }

  function Left(xs: seq<int>, lists: seq<seq<nat>>): seq<int>
    requires Lists(xs, lists)
    decreases |lists|
  {
    if lists == [] then xs else Left(Kept(xs, lists[0]), lists[1..])
  }

  /** The originals that some round deletes. */
  function Deleted(xs: seq<int>, lists: seq<seq<nat>>): set<int>
    requires Lists(xs, lists)
    decreases |lists|
  {
    if lists == [] then {} else Listed(xs, lists[0]) + Deleted(Kept(xs, lists[0]), lists[1..])
  }

  ghost predicate Originals(xs: seq<int>) {
    Ascending(xs) && forall k :: 0 <= k < |xs| ==> xs[k] >= 1
  }

  /** One round leaves the others, in order. */
  lemma KeptMeans(xs: seq<int>, inactive: seq<nat>)
    requires Originals(xs) && Deletable(xs, inactive)
    ensures Originals(Kept(xs, inactive))
    ensures forall x :: x in Kept(xs, inactive) <==> x in xs && x !in Listed(xs, inactive)
  {
    var ys := Negated(xs, inactive, |inactive|);
    assert inactive[..|inactive|] == inactive;
    forall k | 0 <= k < |xs| ensures ys[k] == if k + 1 in inactive then -xs[k] else xs[k] {
      NegatedEntry(xs, inactive, |inactive|, k);
    }
    AliveAscending(ys);
    forall x ensures x in Kept(xs, inactive) <==> x in xs && x !in Listed(xs, inactive) {
      AliveIn(ys, x);
      KeptEntry(xs, ys, inactive, x);
    }
    forall k | 0 <= k < |Alive(ys)| ensures Alive(ys)[k] >= 1 {
      AliveIn(ys, Alive(ys)[k]);
    }
  }

  lemma KeptEntry(xs: seq<int>, ys: seq<int>, inactive: seq<nat>, x: int)
    requires Originals(xs) && Deletable(xs, inactive) && |ys| == |xs|
    requires forall k :: 0 <= k < |xs| ==> ys[k] == if k + 1 in inactive then -xs[k] else xs[k]
    ensures x in ys && x >= 0 <==> x in xs && x !in Listed(xs, inactive)
  {
    if x in xs {
      var k :| 0 <= k < |xs| && xs[k] == x;
      if k + 1 in inactive {
        var q :| 0 <= q < |inactive| && inactive[q] == k + 1;
        assert x in Listed(xs, inactive);
      } else {
        assert ys[k] == x;
      }
    }
  }

  /** Over all rounds exactly the originals are left that no round deletes, in their order. */
  lemma {:induction false} LeftMeans(xs: seq<int>, lists: seq<seq<nat>>)
    requires Originals(xs) && Lists(xs, lists)
    ensures Originals(Left(xs, lists))
    ensures forall x :: x in Left(xs, lists) <==> x in xs && x !in Deleted(xs, lists)
    decreases |lists|
  {
    if lists != [] {
      KeptMeans(xs, lists[0]);
      LeftMeans(Kept(xs, lists[0]), lists[1..]);
    }
  }

  function RowLists(rounds: seq<Round>): (r: seq<seq<nat>>)
    ensures |r| == |rounds|
  {
    seq(|rounds|, k requires 0 <= k < |rounds| => rounds[k].rows)
  }

  function ColLists(rounds: seq<Round>): (r: seq<seq<nat>>)
    ensures |r| == |rounds|
  {
    seq(|rounds|, k requires 0 <= k < |rounds| => rounds[k].cols)
  }

  /** A round can be carried out, and so can the rest. */
  lemma NextRound(xs: seq<int>, lists: seq<seq<nat>>, k: nat)
    requires k < |lists| && Lists(xs, lists[k..])
    ensures Deletable(xs, lists[k]) && Lists(Kept(xs, lists[k]), lists[k + 1..])
    ensures Left(xs, lists[k..]) == Left(Kept(xs, lists[k]), lists[k + 1..])
  {
    assert lists[k..][0] == lists[k] && lists[k..][1..] == lists[k + 1..];
  }

  lemma NoRound(xs: seq<int>, lists: seq<seq<nat>>)
    ensures lists[0..] == lists && Lists(xs, lists[|lists|..]) && Left(xs, lists[|lists|..]) == xs
  {
  }

  /** In inverse maps the originals are listed in order, and 0 marks the others. */
  lemma InverseOriginals(xs: seq<int>, os: seq<int>)
    requires Inverse(xs, os)
    ensures Originals(xs) && forall r :: 0 <= r < |os| ==> (os[r] == 0 <==> r + 1 !in xs)
  {
    forall k | 0 <= k < |xs| ensures xs[k] >= 1 {
      assert Placed(xs, os, k);
    }
    forall r | 0 <= r < |os| ensures os[r] == 0 <==> r + 1 !in xs {
      assert ZeroIfDeleted(xs, os, r);
    }
  }

  lemma BlockIs(v: seq<int>, rows: nat, cols: nat)
    requires rows + cols < |v|
    ensures RowBlock(v, rows) == v[1..rows + 1] && ColBlock(v, rows, cols) == v[rows + 1..rows + cols + 1]
  {
  }

  lemma SameRowBlock(v: seq<int>, v': seq<int>, rows: nat)
    requires rows < |v| == |v'| && forall k :: 1 <= k <= rows ==> v'[k] == v[k]
    ensures RowBlock(v', rows) == RowBlock(v, rows)
  {
  }

  lemma SameColBlock(v: seq<int>, v': seq<int>, rows: nat, cols: nat)
    requires rows + cols < |v| == |v'| && forall k :: rows < k <= rows + cols ==> v'[k] == v[k]
    ensures ColBlock(v', rows, cols) == ColBlock(v, rows, cols)
  {
  }

  lemma MutualParts(v: seq<int>, o: seq<int>, rows: nat, cols: nat, origRows: nat, origCols: nat)
    requires MutualMarked(v, o, rows, cols, origRows, origCols)
    ensures rows + cols < |v| && origRows + origCols < |o|
    ensures MarkedBlock(RowBlock(v, rows), RowBlock(o, origRows))
    ensures MarkedBlock(ColBlock(v, rows, cols), ColBlock(o, origRows, origCols))
  {
  }

  /** Marking columns and then rows negates some entries that are in use. */
  lemma RoundOfLists(v0: seq<int>, v1: seq<int>, v2: seq<int>, rows: nat, cols: nat, round: Round)
    requires rows + cols < |v0| == |v1| == |v2|
    requires Deletable(ColBlock(v0, rows, cols), round.cols) && Deletable(RowBlock(v0, rows), round.rows)
    requires ColBlock(v1, rows, cols) == Negated(ColBlock(v0, rows, cols), round.cols, |round.cols|)
    requires forall k :: 0 <= k < |v0| && !(rows < k <= rows + cols) ==> v1[k] == v0[k]
    requires RowBlock(v2, rows) == Negated(RowBlock(v0, rows), round.rows, |round.rows|)
    requires forall k :: 0 <= k < |v0| && !(1 <= k <= rows) ==> v2[k] == v1[k]
    ensures RoundOf(v0, v2, rows + cols)
  {
    forall i | 0 <= i < |v0| ensures v2[i] == v0[i] || (1 <= i <= rows + cols && v2[i] == -v0[i]) {
      if 1 <= i <= rows {
        NegatedEntry(RowBlock(v0, rows), round.rows, |round.rows|, i - 1);
        assert RowBlock(v2, rows)[i - 1] == v2[i] && RowBlock(v0, rows)[i - 1] == v0[i];
      } else if rows < i <= rows + cols {
        NegatedEntry(ColBlock(v0, rows, cols), round.cols, |round.cols|, i - rows - 1);
        assert ColBlock(v1, rows, cols)[i - rows - 1] == v1[i] && ColBlock(v0, rows, cols)[i - rows - 1] == v0[i];
      }
    }
  }

  lemma KeptIs(xs: seq<int>, inactive: seq<nat>)
    requires Deletable(xs, inactive)
    ensures Kept(xs, inactive) == Alive(Negated(xs, inactive, |inactive|))
  {
  }

  lemma NoneKept(xs: seq<int>, inactive: seq<nat>)
    requires inactive == []
    ensures Kept(xs, inactive) == Alive(xs)
  {
  }

  class PresolveUndo {
    const origRows: nat
    const origCols: nat
    /** Counts of the current model. */
    var rows: nat
    var cols: nat
    const varToOrig: array<int>
    const origToVar: array<int>

    ghost predicate Shaped()
      reads this
    {
      && varToOrig != origToVar && rows <= origRows && cols <= origCols
      && varToOrig.Length == origToVar.Length == origRows + origCols + 1
    }

    ghost predicate Valid()
      reads this, varToOrig, origToVar
    {
      Shaped() && Mutual(varToOrig[..], origToVar[..], rows, cols, origRows, origCols)
    }

    /** `varmap_lock`: every variable maps to itself. */
    constructor (origRows: nat, origCols: nat)
      ensures Valid() && rows == origRows == this.origRows && cols == origCols == this.origCols
      ensures fresh(varToOrig) && fresh(origToVar)
    {
      this.origRows, this.origCols, rows, cols := origRows, origCols, origRows, origCols;
      var v := new int[origRows + origCols + 1](i => if i <= origRows then i else i - origRows);
      var o := new int[origRows + origCols + 1](i => if i <= origRows then i else i - origRows);
      varToOrig, origToVar := v, o;
      IdentityIsMutual(v[..], o[..], origRows, origCols);
    }

    /** `varmap_validate` for one original, or for all of them when `varno` is not positive. */
    method Validate(varno: int) returns (success: bool)
      requires Shaped() && varno <= origRows + origCols
      requires forall i :: 1 <= i <= origRows + origCols ==> origToVar[i] >= 0
      ensures varno <= 0 ==> (success <==> forall i :: 1 <= i < origToVar.Length ==> Validates(varToOrig[..], origToVar[..], rows, origRows, origCols, i))
      ensures varno > 0 ==> (success <==> Validates(varToOrig[..], origToVar[..], rows, origRows, origCols, varno))
    {
      var i, ie := varno, varno;
      if varno <= 0 {
        i, ie := 1, origRows + origCols;
      }
      success := true;
      ghost var from := i;
      while success && i <= ie
        invariant 1 <= from <= i <= ie + 1 <= origToVar.Length
        invariant success ==> forall k :: from <= k < i ==> Validates(varToOrig[..], origToVar[..], rows, origRows, origCols, k)
        invariant !success ==> from < i && !Validates(varToOrig[..], origToVar[..], rows, origRows, origCols, i - 1)
      {
        var ix := origToVar[i];
        if ix > 0 && i > origRows {
          ix := ix + rows;
        }
        success := ix <= origRows + origCols;
        if success && ix != 0 {
          var ii := varToOrig[ix];
          if ix > rows {
            ii := ii + origRows;
          }
          success := ii == i;
        }
        i := i + 1;
      }
    }

    /** Variables have been marked as deleted, but the maps still have the size of `prevRows` and `prevCols`. */
    ghost predicate Marked(prevRows: nat, prevCols: nat)
      reads this, varToOrig, origToVar
    {
      && Shaped() && prevRows <= origRows && prevCols <= origCols
      && MutualMarked(varToOrig[..], origToVar[..], prevRows, prevCols, origRows, origCols)
      && rows == |Alive(RowBlock(varToOrig[..], prevRows))| && cols == |Alive(ColBlock(varToOrig[..], prevRows, prevCols))|
    }

    /** `varmap_delete` with a list of columns, given that no row has been deleted since the last compaction.
        The count of columns is lowered with it. */
    method DeleteColumns(prevCols: nat, inactive: seq<nat>)
      requires Marked(rows, prevCols) && Deletable(ColBlock(varToOrig[..], rows, prevCols), inactive)
      modifies this`cols, varToOrig
      ensures Marked(rows, prevCols)
      ensures ColBlock(varToOrig[..], rows, prevCols) == Negated(ColBlock(old(varToOrig[..]), rows, prevCols), inactive, |inactive|)
      ensures RowBlock(varToOrig[..], rows) == RowBlock(old(varToOrig[..]), rows)
      ensures forall k :: 0 <= k < varToOrig.Length && !(rows < k <= rows + prevCols) ==> varToOrig[k] == old(varToOrig[..])[k]
    {
      hide *;
      MarkedParts(rows, prevCols);
      ghost var v0, xs, os := varToOrig[..], ColBlock(varToOrig[..], rows, prevCols), ColBlock(origToVar[..], origRows, origCols);
      BlockIs(v0, rows, prevCols);
      MutualParts(v0, origToVar[..], rows, prevCols, origRows, origCols);
      NegatedBlock(xs, os, inactive, |inactive|);
      MarkList(rows, inactive, prevCols);
      BlockIs(varToOrig[..], rows, prevCols);
      SameRowBlock(v0, varToOrig[..], rows);
      cols := cols - |inactive|;
      NowMarked(rows, prevCols);
    }

    /** `varmap_delete` with a list of rows. */
    method DeleteRows(prevRows: nat, prevCols: nat, inactive: seq<nat>)
      requires Marked(prevRows, prevCols) && Deletable(RowBlock(varToOrig[..], prevRows), inactive)
      modifies this`rows, varToOrig
      ensures Marked(prevRows, prevCols)
      ensures RowBlock(varToOrig[..], prevRows) == Negated(RowBlock(old(varToOrig[..]), prevRows), inactive, |inactive|)
      ensures ColBlock(varToOrig[..], prevRows, prevCols) == ColBlock(old(varToOrig[..]), prevRows, prevCols)
      ensures forall k :: 0 <= k < varToOrig.Length && !(1 <= k <= prevRows) ==> varToOrig[k] == old(varToOrig[..])[k]
    {
      hide *;
      MarkedParts(prevRows, prevCols);
      ghost var v0, xs, os := varToOrig[..], RowBlock(varToOrig[..], prevRows), RowBlock(origToVar[..], origRows);
      BlockIs(v0, prevRows, prevCols);
      MutualParts(v0, origToVar[..], prevRows, prevCols, origRows, origCols);
      NegatedBlock(xs, os, inactive, |inactive|);
      MarkList(0, inactive, prevRows);
      BlockIs(varToOrig[..], prevRows, prevCols);
      SameColBlock(v0, varToOrig[..], prevRows, prevCols);
      rows := rows - |inactive|;
      NowMarked(prevRows, prevCols);
    }

    /** Negate the entries at `offset` + j for every j in the list. */
    method MarkList(offset: nat, inactive: seq<nat>, ghost count: nat)
      requires offset + count < varToOrig.Length && Deletable(varToOrig[offset + 1..offset + count + 1], inactive)
      modifies varToOrig
      ensures varToOrig[offset + 1..offset + count + 1] == Negated(old(varToOrig[offset + 1..offset + count + 1]), inactive, |inactive|)
      ensures forall k :: 0 <= k < varToOrig.Length && !(offset < k <= offset + count) ==> varToOrig[k] == old(varToOrig[..])[k]
    {
      ghost var xs := varToOrig[offset + 1..offset + count + 1];
      var q := 0;
      while q < |inactive|
        invariant q <= |inactive| && varToOrig[offset + 1..offset + count + 1] == Negated(xs, inactive, q)
        invariant forall k :: 0 <= k < varToOrig.Length && !(offset < k <= offset + count) ==> varToOrig[k] == old(varToOrig[..])[k]
      {
        var j := inactive[q];
        var i := offset + j;
        NegatedEntry(xs, inactive, q, j - 1);
        assert varToOrig[offset + 1..offset + count + 1][j - 1] == varToOrig[i];
        var ii := varToOrig[i];
        varToOrig[i] := if ii > 0 then -ii else -(origRows + origCols + i);
        q := q + 1;
      }
    }

    /** `varmap_compact` for any counts: every entry is moved and numbered as in the pass. */
    method Compact(prevRows: nat, prevCols: nat)
      requires Shaped() && prevRows + prevCols < varToOrig.Length
      requires InTable(varToOrig[..], origToVar.Length, prevRows, origRows, prevRows + prevCols)
      modifies varToOrig, origToVar
      ensures varToOrig[..] == Moved(old(varToOrig[..]), prevRows + prevCols)
      ensures origToVar[..] == Places(old(varToOrig[..]), old(origToVar[..]), prevRows, origRows, prevRows + prevCols)
    {
      hide *;
      ghost var v0, o0 := varToOrig[..], origToVar[..];
      var nSum: nat, nRows: nat, i: nat := 0, 0, 1;
      ShapedParts();
      StartPassing(v0, o0, prevRows, origRows);
      while i <= prevRows + prevCols
        invariant 1 <= i <= prevRows + prevCols + 1
        invariant Passing(v0, o0, varToOrig[..], origToVar[..], prevRows, origRows, i, nSum, nRows)
      {
        nSum, nRows := CompactOne(v0, o0, prevRows, prevCols, i, nSum, nRows);
        i := i + 1;
      }
      Passed(v0, o0, varToOrig[..], origToVar[..], prevRows, origRows, prevRows + prevCols, nSum, nRows);
    }

    /** The same with the counts before the round: the maps are inverse again. */
    method CompactRound(prevRows: nat, prevCols: nat)
      requires Marked(prevRows, prevCols)
      modifies varToOrig, origToVar
      ensures Valid()
      ensures RowBlock(varToOrig[..], rows) == Alive(RowBlock(old(varToOrig[..]), prevRows))
      ensures ColBlock(varToOrig[..], rows, cols) == Alive(ColBlock(old(varToOrig[..]), prevRows, prevCols))
    {
      hide *;
      ghost var v0, o0 := varToOrig[..], origToVar[..];
      MarkedParts(prevRows, prevCols);
      MarkedInTable(prevRows, prevCols);
      Compact(prevRows, prevCols);
      NowValid(v0, o0, prevRows, prevCols);
    }

    lemma ShapedParts()
      requires Shaped()
      ensures rows <= origRows && cols <= origCols && varToOrig != origToVar && varToOrig.Length == origToVar.Length == origRows + origCols + 1
    {
    }

    lemma NowValid(v0: seq<int>, o0: seq<int>, prevRows: nat, prevCols: nat)
      requires Shaped() && MutualMarked(v0, o0, prevRows, prevCols, origRows, origCols)
      requires rows == |Alive(RowBlock(v0, prevRows))| && cols == |Alive(ColBlock(v0, prevRows, prevCols))|
      requires InTable(v0, |o0|, prevRows, origRows, prevRows + prevCols)
      requires varToOrig[..] == Moved(v0, prevRows + prevCols)
      requires origToVar[..] == Places(v0, o0, prevRows, origRows, prevRows + prevCols)
      ensures Valid()
      ensures RowBlock(varToOrig[..], rows) == Alive(RowBlock(v0, prevRows))
      ensures ColBlock(varToOrig[..], rows, cols) == Alive(ColBlock(v0, prevRows, prevCols))
    {
      RoundCompacts(v0, o0, prevRows, prevCols, origRows, origCols);
      hide InTable, Moved, Places, MutualMarked, Mutual, Alive, RowBlock, ColBlock;
    }

    /** One entry of `varmap_compact`. */
    method CompactOne(ghost v0: seq<int>, ghost o0: seq<int>, pr: nat, ghost pc: nat, i: nat, nSum: nat, nRows: nat)
      returns (nSum': nat, nRows': nat)
      requires varToOrig != origToVar && InTable(v0, |o0|, pr, origRows, pr + pc) && i <= pr + pc
      requires Passing(v0, o0, varToOrig[..], origToVar[..], pr, origRows, i, nSum, nRows)
      modifies varToOrig, origToVar
      ensures Passing(v0, o0, varToOrig[..], origToVar[..], pr, origRows, i + 1, nSum', nRows')
    {
      hide *;
      ghost var v, o := varToOrig[..], origToVar[..];
      PassOne(v0, o0, v, o, pr, pc, origRows, i, nSum, nRows);
      nSum', nRows' := nSum, nRows;
      var ii := varToOrig[i];
      assert v[nSum + 1 := v[i]] == v || nSum + 1 < i;
      if ii < 0 {
        ii := -ii;
        if i <= pr {
          origToVar[ii] := 0;
        } else {
          origToVar[origRows + ii] := 0;
        }
      } else {
        nSum' := nSum + 1;
        if nSum' < i {
          varToOrig[nSum'] := ii;
        }
        if ii > 0 {
          if i <= pr {
            origToVar[ii] := nSum';
            nRows' := nSum';
          } else {
            origToVar[origRows + ii] := nSum' - nRows';
          }
        }
      }
    }

    // ---------------------------------------------------------------- rounds

    /** Nothing is marked in maps that are inverse to each other: a round of deletions can begin. */
    lemma ValidIsMarked()
      requires Valid()
      ensures Marked(rows, cols) && RowsLeft() == Alive(RowsLeft()) && ColsLeft() == Alive(ColsLeft())
    {
      NothingMarked(RowBlock(varToOrig[..], rows), RowBlock(origToVar[..], origRows));
      NothingMarked(ColBlock(varToOrig[..], rows, cols), ColBlock(origToVar[..], origRows, origCols));
      hide Inverse, MarkedBlock, Alive;
    }

    /** The originals of the rows that are left, in order. */
    ghost function RowsLeft(): seq<int>
      reads this, varToOrig, origToVar
      requires Valid()
    {
      RowBlock(varToOrig[..], rows)
    }

    ghost function ColsLeft(): seq<int>
      reads this, varToOrig, origToVar
      requires Valid()
    {
      ColBlock(varToOrig[..], rows, cols)
    }

    /** The steps of `presolve_finalize`: delete the listed columns and rows and compact, with the given counts. */
    method DeleteRound(round: Round)
      requires Valid() && Deletable(RowsLeft(), round.rows) && Deletable(ColsLeft(), round.cols)
      modifies this`rows, this`cols, varToOrig, origToVar
      ensures Valid() && RowsLeft() == Kept(old(RowsLeft()), round.rows) && ColsLeft() == Kept(old(ColsLeft()), round.cols)
    {
      hide *;
      LeftAre();
      ValidIsMarked();
      ghost var r, c := RowsLeft(), ColsLeft();
      KeptIs(r, round.rows);
      KeptIs(c, round.cols);
      var prevRows, prevCols := rows, cols;
      DeleteColumns(prevCols, round.cols);
      DeleteRows(prevRows, prevCols, round.rows);
      CompactRound(prevRows, prevCols);
      LeftAre();
    }

    /** Any number of rounds of deletions, each compacted with the counts before it. The maps stay inverse;
        those that are left are, in order, the ones that no round deletes, and exactly those that some round
        deletes have been set to 0; `varmap_validate` accepts every entry. */
    method DeleteRounds(rounds: seq<Round>)
      requires Valid() && Lists(RowsLeft(), RowLists(rounds)) && Lists(ColsLeft(), ColLists(rounds))
      modifies this`rows, this`cols, varToOrig, origToVar
      ensures Valid() && RowsLeft() == Left(old(RowsLeft()), RowLists(rounds)) && ColsLeft() == Left(old(ColsLeft()), ColLists(rounds))
      ensures Ascending(RowsLeft()) && Ascending(ColsLeft())
      ensures forall x :: x in RowsLeft() <==> x in old(RowsLeft()) && x !in Deleted(old(RowsLeft()), RowLists(rounds))
      ensures forall x :: x in ColsLeft() <==> x in old(ColsLeft()) && x !in Deleted(old(ColsLeft()), ColLists(rounds))
      ensures forall r :: 1 <= r <= origRows ==> (origToVar[r] == 0 <==> r !in RowsLeft())
      ensures forall c :: 1 <= c <= origCols ==> (origToVar[origRows + c] == 0 <==> c !in ColsLeft())
      ensures forall i :: 1 <= i <= origRows + origCols ==> Validates(varToOrig[..], origToVar[..], rows, origRows, origCols, i)
    {
      hide *;
      LeftAre();
      ghost var r, c := RowsLeft(), ColsLeft();
      ghost var rl, cl := RowLists(rounds), ColLists(rounds);
      NoRound(r, rl);
      NoRound(c, cl);
      Listing();
      LeftMeans(r, rl);
      LeftMeans(c, cl);
      var k := 0;
      while k < |rounds|
        invariant k <= |rounds| && Valid()
        invariant Lists(RowsLeft(), rl[k..]) && Lists(ColsLeft(), cl[k..])
        invariant Left(RowsLeft(), rl[k..]) == Left(r, rl) && Left(ColsLeft(), cl[k..]) == Left(c, cl)
      {
        OneRound(rounds, k);
        k := k + 1;
      }
      NoRound(RowsLeft(), rl);
      NoRound(ColsLeft(), cl);
      LeftAre();
      Listing();
    }

    method OneRound(rounds: seq<Round>, k: nat)
      requires Valid() && k < |rounds| && Lists(RowsLeft(), RowLists(rounds)[k..]) && Lists(ColsLeft(), ColLists(rounds)[k..])
      modifies this`rows, this`cols, varToOrig, origToVar
      ensures Valid() && Lists(RowsLeft(), RowLists(rounds)[k + 1..]) && Lists(ColsLeft(), ColLists(rounds)[k + 1..])
      ensures Left(RowsLeft(), RowLists(rounds)[k + 1..]) == Left(old(RowsLeft()), RowLists(rounds)[k..])
      ensures Left(ColsLeft(), ColLists(rounds)[k + 1..]) == Left(old(ColsLeft()), ColLists(rounds)[k..])
    {
      LeftAre();
      NextRound(RowsLeft(), RowLists(rounds), k);
      NextRound(ColsLeft(), ColLists(rounds), k);
      hide Valid, Lists, Left, Kept, Deletable, RowsLeft, ColsLeft;
      DeleteRound(rounds[k]);
    }

    /** What inverse maps say of every original. */
    lemma Listing()
      requires Valid()
      ensures Originals(RowsLeft()) && Originals(ColsLeft()) && Ascending(RowsLeft()) && Ascending(ColsLeft())
      ensures origToVar.Length == origRows + origCols + 1
      ensures forall r :: 1 <= r <= origRows ==> (origToVar[r] == 0 <==> r !in RowsLeft())
      ensures forall c :: 1 <= c <= origCols ==> (origToVar[origRows + c] == 0 <==> c !in ColsLeft())
      ensures forall i :: 1 <= i <= origRows + origCols ==> Validates(varToOrig[..], origToVar[..], rows, origRows, origCols, i)
    {
      var ro, co := RowBlock(origToVar[..], origRows), ColBlock(origToVar[..], origRows, origCols);
      InverseOriginals(RowsLeft(), ro);
      InverseOriginals(ColsLeft(), co);
      forall r | 1 <= r <= origRows ensures origToVar[r] == 0 <==> r !in RowsLeft() {
        assert ro[r - 1] == origToVar[r];
      }
      forall c | 1 <= c <= origCols ensures origToVar[origRows + c] == 0 <==> c !in ColsLeft() {
        assert co[c - 1] == origToVar[origRows + c];
      }
      forall i | 1 <= i <= origRows + origCols ensures Validates(varToOrig[..], origToVar[..], rows, origRows, origCols, i) {
        MutualValidates(varToOrig[..], origToVar[..], rows, cols, origRows, origCols, i);
      }
      hide *;
    }

    /** The maps between two calls of `presolve_finalize`. */
    ghost predicate Ready()
      reads this, varToOrig, origToVar
    {
      Valid() && Leftover(varToOrig[..], origToVar[..], rows, cols, origRows, origCols)
    }

    /** Everything that earlier rounds have left over is harmless for a call with the original counts. */
    ghost predicate Harmless()
      reads this, varToOrig, origToVar
      requires Ready()
    {
      Safe(varToOrig[..], origToVar[..], rows, cols, origRows, origCols)
    }

    /** `presolve_finalize`, which compacts with the original counts, unless the round deletes nothing. From
        harmless maps it gives the maps of the survivors, ready for the next call. */
    method Finalize(round: Round) returns (ghost w: seq<int>)
      requires Ready() && Deletable(RowsLeft(), round.rows) && Deletable(ColsLeft(), round.cols)
      modifies this`rows, this`cols, varToOrig, origToVar
      ensures RoundOf(old(varToOrig[..]), w, old(rows + cols)) && |w| == origRows + origCols + 1
      ensures rows == |Kept(old(RowsLeft()), round.rows)| && cols == |Kept(old(ColsLeft()), round.cols)|
      ensures InTable(w, origToVar.Length, origRows, origRows, origRows + origCols)
      ensures if round.rows == [] && round.cols == []
              then varToOrig[..] == old(varToOrig[..]) && origToVar[..] == old(origToVar[..])
              else varToOrig[..] == Moved(w, origRows + origCols)
                   && origToVar[..] == Places(w, old(origToVar[..]), origRows, origRows, origRows + origCols)
      ensures old(Harmless()) || (round.rows == [] && round.cols == []) ==>
                Ready() && RowsLeft() == Kept(old(RowsLeft()), round.rows) && ColsLeft() == Kept(old(ColsLeft()), round.cols)
    {
      hide *;
      ReadyParts();
      LeftAre();
      ValidIsMarked();
      ghost var r, c := RowsLeft(), ColsLeft();
      ghost var v0, o0 := varToOrig[..], origToVar[..];
      KeptIs(r, round.rows);
      KeptIs(c, round.cols);
      if round.cols == [] && round.rows == [] {
        NoneKept(r, round.rows);
        NoneKept(c, round.cols);
        SelfRound(v0, rows + cols);
        AllInTable(v0, v0, o0, rows, cols, origRows, origCols);
        CountsAre();
        w := v0;
      } else {
        w := FinalizeDeletion(round);
      }
    }

    /** The same for a round that deletes something. */
    method FinalizeDeletion(round: Round) returns (ghost w: seq<int>)
      requires Ready() && Deletable(RowsLeft(), round.rows) && Deletable(ColsLeft(), round.cols)
      modifies this`rows, this`cols, varToOrig, origToVar
      ensures RoundOf(old(varToOrig[..]), w, old(rows + cols)) && |w| == origRows + origCols + 1
      ensures rows == |Kept(old(RowsLeft()), round.rows)| && cols == |Kept(old(ColsLeft()), round.cols)|
      ensures varToOrig[..] == Moved(w, origRows + origCols)
      ensures InTable(w, origToVar.Length, origRows, origRows, origRows + origCols)
      ensures origToVar[..] == Places(w, old(origToVar[..]), origRows, origRows, origRows + origCols)
      ensures old(Harmless()) ==>
                Ready() && RowsLeft() == Kept(old(RowsLeft()), round.rows) && ColsLeft() == Kept(old(ColsLeft()), round.cols)
    {
      hide *;
      ReadyParts();
      LeftAre();
      ValidIsMarked();
      ghost var r, c := RowsLeft(), ColsLeft();
      ghost var v0, o0, safe := varToOrig[..], origToVar[..], Harmless();
      KeptIs(r, round.rows);
      KeptIs(c, round.cols);
      var prevRows, prevCols := rows, cols;
      DeleteColumns(prevCols, round.cols);
      ghost var v1 := varToOrig[..];
      DeleteRows(prevRows, prevCols, round.rows);
      MarkedParts(prevRows, prevCols);
      w := varToOrig[..];
      RoundOfLists(v0, v1, w, prevRows, prevCols, round);
      AllInTable(v0, w, o0, prevRows, prevCols, origRows, origCols);
      Compact(origRows, origCols);
      if safe {
        FinalizedSafely(v0, w, o0, prevRows, prevCols);
        ReadyParts();
        LeftAre();
      }
    }

    /** The counts are those of the originals that are left. */
    lemma CountsAre()
      requires Valid()
      ensures |RowsLeft()| == rows && |ColsLeft()| == cols && varToOrig.Length == origRows + origCols + 1
    {
    }

    lemma ReadyParts()
      requires Ready()
      ensures Valid() && Leftover(varToOrig[..], origToVar[..], rows, cols, origRows, origCols)
      ensures Harmless() <==> Safe(varToOrig[..], origToVar[..], rows, cols, origRows, origCols)
    {
    }

    lemma FinalizedSafely(v0: seq<int>, w: seq<int>, o0: seq<int>, prevRows: nat, prevCols: nat)
      requires Shaped() && Leftover(v0, o0, prevRows, prevCols, origRows, origCols) && RoundOf(v0, w, prevRows + prevCols)
      requires Safe(v0, o0, prevRows, prevCols, origRows, origCols)
      requires prevRows + prevCols < |w| == |v0| && rows == |Alive(RowBlock(w, prevRows))| && cols == |Alive(ColBlock(w, prevRows, prevCols))|
      requires origRows + origCols < |w| && varToOrig[..] == Moved(w, origRows + origCols)
      requires InTable(w, |o0|, origRows, origRows, origRows + origCols)
      requires origToVar[..] == Places(w, o0, origRows, origRows, origRows + origCols)
      ensures Ready()
      ensures RowBlock(varToOrig[..], rows) == Alive(RowBlock(w, prevRows))
      ensures ColBlock(varToOrig[..], rows, cols) == Alive(ColBlock(w, prevRows, prevCols))
    {
      hide *;
      ShapedParts();
      SafeFits(v0, w, o0, prevRows, prevCols, origRows, origCols);
      FitsParts(w, o0, prevRows, prevCols, origRows, origCols);
      LeftoverSizes(v0, o0, prevRows, prevCols, origRows, origCols);
      LeftoverBounded(v0, w, o0, prevRows, prevCols, origRows, origCols);
      MovedBounded(w, origRows + origCols, origRows, origCols);
      LeftoverStays(varToOrig[..], origToVar[..], rows, cols, origRows, origCols);
      ReadyIs();
    }

    lemma ReadyIs()
      requires Shaped() && Leftover(varToOrig[..], origToVar[..], rows, cols, origRows, origCols)
      ensures Ready()
    {
    }

    /** The locked maps are ready, and harmless: the original counts are right in the first call. */
    lemma LockedIsHarmless()
      requires Valid() && rows == origRows && cols == origCols
      ensures Ready() && Harmless()
    {
      FirstRoundIsSafe(varToOrig[..], origToVar[..], origRows, origCols);
    }

    lemma LeftAre()
      requires Valid()
      ensures Shaped() && rows + cols < varToOrig.Length
      ensures RowsLeft() == RowBlock(varToOrig[..], rows) && ColsLeft() == ColBlock(varToOrig[..], rows, cols)
    {
    }

    lemma MarkedInTable(prevRows: nat, prevCols: nat)
      requires Marked(prevRows, prevCols)
      ensures prevRows + prevCols < varToOrig.Length && Shaped()
      ensures InTable(varToOrig[..], origToVar.Length, prevRows, origRows, prevRows + prevCols)
    {
      RoundInTable(varToOrig[..], origToVar[..], prevRows, prevCols, origRows, origCols);
    }

    lemma MarkedParts(prevRows: nat, prevCols: nat)
      requires Marked(prevRows, prevCols)
      ensures Shaped() && varToOrig != origToVar && rows <= origRows && cols <= origCols && prevRows <= origRows && prevCols <= origCols && prevRows + prevCols < varToOrig.Length == origToVar.Length == origRows + origCols + 1
      ensures rows == |Alive(RowBlock(varToOrig[..], prevRows))| && cols == |Alive(ColBlock(varToOrig[..], prevRows, prevCols))|
      ensures MutualMarked(varToOrig[..], origToVar[..], prevRows, prevCols, origRows, origCols)
    {
    }

    lemma NowMarked(prevRows: nat, prevCols: nat)
      requires varToOrig != origToVar && rows <= origRows && cols <= origCols && prevRows <= origRows && prevCols <= origCols
      requires varToOrig.Length == origToVar.Length == origRows + origCols + 1
      requires rows == |Alive(RowBlock(varToOrig[..], prevRows))| && cols == |Alive(ColBlock(varToOrig[..], prevRows, prevCols))|
      requires MarkedBlock(RowBlock(varToOrig[..], prevRows), RowBlock(origToVar[..], origRows))
      requires MarkedBlock(ColBlock(varToOrig[..], prevRows, prevCols), ColBlock(origToVar[..], origRows, origCols))
      ensures Marked(prevRows, prevCols)
    {
    }
  }
}
