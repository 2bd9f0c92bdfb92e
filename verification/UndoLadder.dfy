/** The change tracker of lp_matrix.c: a stack of frames that record the values a bound
    vector had before it was changed, stored as the columns of a sparse matrix. */
module UndoLadders {

  /** One matrix entry: `was` is what `target[item]` held before it was overwritten. */
  datatype Change = Change(item: nat, was: real)

  /** A write `target[item] := value`. */
  datatype Write = Write(item: nat, value: real)

  type Frame = seq<Change>

  ghost predicate InRange(f: Frame, n: nat) {
    forall k :: 0 <= k < |f| ==> f[k].item < n
  }

  ghost predicate WritesInRange(ws: seq<Write>, n: nat) {
    forall k :: 0 <= k < |ws| ==> ws[k].item < n
  }

  /** What replaying a frame, first entry first, does to a vector. */
  ghost function Replay(f: Frame, b: seq<real>): (r: seq<real>)
    requires InRange(f, |b|)
    ensures |r| == |b|
  {
    if f == [] then b
    else
      var last := f[|f| - 1];
      Replay(f[..|f| - 1], b)[last.item := last.was]
  }

  /** The vector after a series of tracked writes. */
  ghost function Written(ws: seq<Write>, b: seq<real>): (r: seq<real>)
    requires WritesInRange(ws, |b|)
    ensures |r| == |b|
  {
    if ws == [] then b
    else
      var last := ws[|ws| - 1];
      Written(ws[..|ws| - 1], b)[last.item := last.value]
  }

  /** The frame that a series of tracked writes leaves behind. */
  ghost function Logged(ws: seq<Write>, b: seq<real>): (f: Frame)
    requires WritesInRange(ws, |b|)
    ensures |f| == |ws| && InRange(f, |b|)
    ensures forall k :: 0 <= k < |ws| ==> f[k].item == ws[k].item
  {
    if ws == [] then []
    else
      var n := |ws| - 1;
      Logged(ws[..n], b) + [Change(ws[n].item, Written(ws[..n], b)[ws[n].item])]
  }

  /** Index of the last entry for item `i`, or -1. */
  ghost function LastEntry(f: Frame, i: nat): (k: int)
    ensures -1 <= k < |f|
    ensures k >= 0 ==> f[k].item == i
  {
    if f == [] then -1
    else if f[|f| - 1].item == i then |f| - 1
    else LastEntry(f[..|f| - 1], i)
  }

  /** A replayed vector holds, item by item, the last recorded value. */
  lemma {:induction false} ReplayAt(f: Frame, b: seq<real>, i: nat)
    requires InRange(f, |b|) && i < |b|
    ensures Replay(f, b)[i] == if LastEntry(f, i) < 0 then b[i] else f[LastEntry(f, i)].was
  {
    if f != [] {
      ReplayAt(f[..|f| - 1], b, i);
    }
  }

  lemma {:induction false} Untouched(f: Frame, i: nat)
    ensures LastEntry(f, i) < 0 <==> forall k :: 0 <= k < |f| ==> f[k].item != i
  {
    if f != [] {
      Untouched(f[..|f| - 1], i);
    }
  }

  /** Recording a change to an item not yet in the frame keeps what the frame restores. */
  lemma ReplayExtend(f: Frame, b: seq<real>, i: nat, v: real)
    requires InRange(f, |b|) && i < |b| && LastEntry(f, i) < 0
    ensures InRange(f + [Change(i, b[i])], |b|)
    ensures Replay(f + [Change(i, b[i])], b[i := v]) == Replay(f, b)
  {
    var g := f + [Change(i, b[i])];
    assert g[..|f|] == f;
    ReplayAt(f, b, i);
    ReplayShift(f, b, i, v);
  }

  lemma {:induction false} ReplayShift(f: Frame, b: seq<real>, i: nat, v: real)
    requires InRange(f, |b|) && i < |b| && LastEntry(f, i) < 0
    ensures Replay(f, b[i := v]) == Replay(f, b)[i := v]
  {
    if f != [] {
      ReplayShift(f[..|f| - 1], b, i, v);
    }
  }

  /** A frame whose entries all name one item and one value restores exactly that item. */
  lemma {:induction false} ReplaySingle(f: Frame, b: seq<real>, k: nat, v: real)
    requires k < |b| && InRange(f, |b|)
    requires forall e :: 0 <= e < |f| ==> f[e] == Change(k, v)
    ensures Replay(f, b) == if f == [] then b else b[k := v]
  {
    if f != [] {
      ReplaySingle(f[..|f| - 1], b, k, v);
    }
  }

  /** Index of the last write to `i`, or -1. */
  ghost function LastWrite(ws: seq<Write>, i: nat): (k: int)
    ensures -1 <= k < |ws|
    ensures k >= 0 ==> ws[k].item == i
  {
    if ws == [] then -1
    else if ws[|ws| - 1].item == i then |ws| - 1
    else LastWrite(ws[..|ws| - 1], i)
  }

  lemma {:induction false} WrittenAt(ws: seq<Write>, b: seq<real>, i: nat)
    requires WritesInRange(ws, |b|) && i < |b|
    ensures Written(ws, b)[i] == if LastWrite(ws, i) < 0 then b[i] else ws[LastWrite(ws, i)].value
  {
    if ws != [] {
      WrittenAt(ws[..|ws| - 1], b, i);
    }
  }

  lemma {:induction false} LoggedAt(ws: seq<Write>, b: seq<real>, i: nat)
    requires WritesInRange(ws, |b|) && i < |b|
    ensures LastEntry(Logged(ws, b), i) == LastWrite(ws, i)
    ensures var k := LastWrite(ws, i); k >= 0 ==> Logged(ws, b)[k].was == Written(ws[..k], b)[i]
  {
    if ws != [] {
      var n := |ws| - 1;
      LoggedAt(ws[..n], b, i);
      assert Logged(ws, b)[..n] == Logged(ws[..n], b);
      var k := LastWrite(ws[..n], i);
      if k >= 0 {
        assert ws[..n][..k] == ws[..k];
      }
    }
  }

  /** Whenever `i` is written more than once, the write before its last one puts back `b[i]`. */
  ghost predicate OriginalBeforeLast(ws: seq<Write>, b: seq<real>, i: nat)
    requires i < |b|
  {
    var k := LastWrite(ws, i);
    k >= 0 ==>
      var j := LastWrite(ws[..k], i);
      j >= 0 ==> ws[j].value == b[i]
  }

  /** When undoing works: replaying a frame restores the vector it was recorded on exactly when
      every item written more than once holds its original value just before its last write. */
  lemma UndoExact(ws: seq<Write>, b: seq<real>)
    requires WritesInRange(ws, |b|)
    ensures Replay(Logged(ws, b), Written(ws, b)) == b <==>
            forall i :: 0 <= i < |b| ==> OriginalBeforeLast(ws, b, i)
  {
    var r := Replay(Logged(ws, b), Written(ws, b));
    forall i | 0 <= i < |b| ensures r[i] == b[i] <==> OriginalBeforeLast(ws, b, i) {
      UndoExactAt(ws, b, i);
    }
    if forall i :: 0 <= i < |b| ==> OriginalBeforeLast(ws, b, i) {
      assert r == b;
    }
  }

  lemma UndoExactAt(ws: seq<Write>, b: seq<real>, i: nat)
    requires WritesInRange(ws, |b|) && i < |b|
    ensures Replay(Logged(ws, b), Written(ws, b))[i] == b[i] <==> OriginalBeforeLast(ws, b, i)
  {
    var f, a := Logged(ws, b), Written(ws, b);
    var k := LastWrite(ws, i);
    ReplayAt(f, a, i);
    LoggedAt(ws, b, i);
    if k < 0 {
      WrittenAt(ws, b, i);
    } else {
      WrittenAt(ws[..k], b, i);
      PrefixItem(ws, k, i);
    }
    hide Replay, Written, Logged, LastWrite, LastEntry;
  }

  lemma PrefixItem(ws: seq<Write>, k: nat, i: nat)
    requires k < |ws|
    ensures var j := LastWrite(ws[..k], i); j >= 0 ==> ws[..k][j] == ws[j]
  {
  }

  /** Two writes of different values to one item are enough to break the undo. */
  lemma UndoFails()
    ensures Replay(Logged([Write(0, 1.0), Write(0, 2.0)], [0.0]), Written([Write(0, 1.0), Write(0, 2.0)], [0.0])) == [1.0]
  {
    var ws := [Write(0, 1.0), Write(0, 2.0)];
    assert ws[..1] == [Write(0, 1.0)] && ws[..1][..0] == [];
    var f := Logged(ws, [0.0]);
    assert f == [Change(0, 0.0), Change(0, 1.0)];
    assert f[..1] == [Change(0, 0.0)] && f[..1][..0] == [];
  }

  /** The ladder itself: `colEnd[c]` is one past the last entry of column `c` of the tracker
      matrix, and the columns 1..columns are the frames from the bottom to the top. */
  class UndoLadder {
    var activelevel: nat
    var columns: nat
    var colEnd: seq<nat>
    var entries: seq<Change>

    /** The frames from the bottom to the top. */
    ghost var frames: seq<Frame>

    ghost predicate Valid()
      reads this
    {
      && activelevel == columns == |frames|
      && |colEnd| == columns + 1
      && colEnd[0] == 0
      && (forall i, j :: 0 <= i <= j <= columns ==> colEnd[i] <= colEnd[j])
      && colEnd[columns] <= |entries|
      && (forall c :: 0 <= c < columns ==> frames[c] == entries[colEnd[c]..colEnd[c + 1]])
    }

    constructor ()
      ensures Valid() && frames == []
    {
      activelevel, columns := 0, 0;
      frames := [];
      colEnd, entries := [0], [];
    }

    /** mat_shiftcols for an insertion of one column: the new column starts out empty. Only the end markers
        above `base` are moved, which is right behind the last column, where the ladder inserts; elsewhere the
        marker of column `base` is lost and the one behind it is there twice. */
    method InsertColumn(base: nat)
      requires 1 <= base <= columns + 1 && |colEnd| == columns + 1
      modifies this`colEnd
      ensures |colEnd| == columns + 2 && colEnd[..base] == old(colEnd)[..base] && colEnd[base] == old(colEnd)[base - 1]
      ensures forall i :: base + 1 < i <= columns + 1 ==> colEnd[i] == old(colEnd)[i - 1]
      ensures base < columns ==> colEnd[base + 1] == old(colEnd)[base + 1]
    {
      var ii := columns;
      var cols := colEnd + [0];
      while ii > base
        invariant base <= ii <= columns || ii == columns
        invariant |cols| == columns + 2
        invariant forall q :: 0 <= q <= ii && q <= columns ==> cols[q] == colEnd[q]
        invariant base < columns ==> cols[base + 1] == colEnd[base + 1]
        invariant forall q :: ii + 1 < q <= columns + 1 ==> cols[q] == colEnd[q - 1]
      {
        cols := cols[ii + 1 := cols[ii]];
        ii := ii - 1;
      }
      colEnd := cols[base := cols[base - 1]];
    }

    /** mat_shiftcols for a deletion of one column. The end markers are only moved for the columns
        that follow `base`, so deleting the last column leaves its own marker where it was. */
    method DeleteColumn(base: nat) returns (k: nat)
      requires Valid() && 1 <= base <= columns
      modifies this`colEnd, this`entries
      ensures k == |frames[base - 1]|
      ensures |colEnd| == |old(colEnd)|
      ensures colEnd[..base] == old(colEnd)[..base] && colEnd[columns] == old(colEnd)[columns]
      ensures forall i :: base <= i < columns ==> colEnd[i] == old(colEnd)[i + 1] - k
      ensures base == columns ==> colEnd == old(colEnd) && entries == old(entries)
    {
      var i := colEnd[base - 1];
      var ii := colEnd[base];
      var n := colEnd[columns];
      k := ii - i;
      if k > 0 && n > i {
        n := n - ii;
        entries := entries[..i] + entries[ii..ii + n] + entries[i + n..];
        assert n == 0 ==> entries == old(entries);
      }
      ghost var moved := entries;
      var c := base;
      while c <= columns - 1
        invariant base <= c && (c <= columns || c == base) && entries == moved
        invariant |colEnd| == |old(colEnd)|
        invariant colEnd[..base] == old(colEnd)[..base]
        invariant forall q :: base <= q < c ==> colEnd[q] == old(colEnd)[q + 1] - k
        invariant forall q :: c <= q <= columns ==> colEnd[q] == old(colEnd)[q]
      {
        assert old(colEnd)[c + 1] >= old(colEnd)[base];
        colEnd := colEnd[c := colEnd[c + 1] - k];
        c := c + 1;
      }
    }

    /** incrementUndoLadder: open an empty frame. */
    method Increment()
      requires Valid()
      modifies this
      ensures Valid() && frames == old(frames) + [[]]
    {
      activelevel := activelevel + 1;
      InsertColumn(activelevel);
      columns := columns + 1;
      frames := frames + [[]];
    }

    /** modifyUndoLadder: record the current value in the top frame and overwrite it. */
    method Modify(item: nat, target: array<real>, newvalue: real)
      requires Valid() && frames != [] && item < target.Length
      modifies this`colEnd, this`entries, this`frames, target
      ensures Valid()
      ensures var top := |old(frames)| - 1;
              frames == old(frames)[top := old(frames)[top] + [Change(item, old(target[item]))]]
      ensures target[..] == old(target[..])[item := newvalue]
    {
      var e := colEnd[columns];
      entries := entries[..e] + [Change(item, target[item])];
      colEnd := colEnd[columns := e + 1];
      frames := frames[columns - 1 := frames[columns - 1] + [Change(item, target[item])]];
      target[item] := newvalue;
    }

    /** countsUndoLadder: the number of changes in the top frame. */
    method Counts() returns (n: nat)
      requires Valid()
      ensures n == if frames == [] then 0 else |frames[|frames| - 1]|
    {
      if activelevel > 0 {
        n := colEnd[activelevel] - colEnd[activelevel - 1];
      } else {
        n := 0;
      }
    }

    /** restoreUndoLadder: replay the top frame onto `target`. Although the code then deletes the
        column, the frame is still there afterwards (see DeleteColumn). */
    method Restore(target: array<real>)
      requires Valid()
      requires frames != [] ==> InRange(frames[|frames| - 1], target.Length)
      modifies this`colEnd, this`entries, target
      ensures Valid()
      ensures target[..] == if frames == [] then old(target[..]) else Replay(frames[|frames| - 1], old(target[..]))
    {
      if activelevel > 0 {
        var iB := colEnd[activelevel - 1];
        var iE := colEnd[activelevel];
        var k := iB;
        ghost var f := frames[columns - 1];
        assert f[..0] == [];
        while k < iE
          invariant iB <= k <= iE
          invariant unchanged(`colEnd, `entries) && |f| == iE - iB && f == entries[iB..iE]
          invariant iE <= |entries| && InRange(f, target.Length)
          invariant target[..] == Replay(f[..k - iB], old(target[..]))
        {
          assert f[..k + 1 - iB][..k - iB] == f[..k - iB];
          assert entries[k] == f[k - iB];
          target[entries[k].item] := entries[k].was;
          k := k + 1;
        }
        assert f[..iE - iB] == f;
        var _ := DeleteColumn(activelevel);
      }
    }

    /** decrementUndoLadder: drop the top frame. */
    method Decrement()
      requires Valid()
      modifies this
      ensures Valid()
      ensures frames == if old(frames) == [] then [] else old(frames)[..|old(frames)| - 1]
    {
      if activelevel > 0 {
        var _ := DeleteColumn(activelevel);
        activelevel := activelevel - 1;
        columns := columns - 1;
        colEnd := colEnd[..columns + 1];
        frames := frames[..columns];
      }
    }
  }
}
