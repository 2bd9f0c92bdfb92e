/** The special ordered sets of lp_SOS.c as they are kept and changed in place. */
module SosGroups {
  import opened Numbers
  import opened SosSets
  import opened SosIndex
  import SosShift
  import opened UndoLadders

  class SOSrec {
    /** The packed list: member count, members, order, active slots. */
    const members: array<int>
    /** The number of members that `SOS_member_updatemap` reads. It is kept apart from the member count at the
        head of the list, and stays as it was when `SOS_shift_col` drops members. */
    var size: nat

    ghost function List(): seq<int>
      reads members
    {
      members[..]
    }

    constructor (list: seq<int>)
      requires |list| > 0 && list[0] >= 0
      ensures fresh(members) && List() == list && size == list[0]
    {
      size := list[0];
      members := new int[|list|](i requires 0 <= i < |list| => list[i]);
    }

    /** The part of `SOS_member_sortlist` that brings the size up to date. */
    method SortList()
      requires members.Length > 0 && members[0] >= 0
      modifies this`size
      ensures size == members[0]
    {
      if members[0] != size {
        size := members[0];
      }
    }

    /** `SOS_member_index`: the position of a member, or 0. */
    method MemberIndex(col: nat) returns (i: nat)
      requires SosSets.Valid(List())
      ensures i == Index(List(), col)
    {
      i := members[0];
      while i > 0 && Abs(members[i]) != col
        invariant 0 <= i <= members[0]
        invariant IndexTo(List(), col, members[0]) == IndexTo(List(), col, i)
      {
        i := i - 1;
      }
    }

    /** `SOS_is_active`: scan the active list up to the first empty slot. */
    method ScanActive(col: nat) returns (active: bool)
      requires SosSets.Valid(List())
      ensures active == IsActive(List(), col)
    {
      var n := members[0] + 1;
      var nn := members[n];
      var i := 1;
      assert Order(List()) == nn;
      while i <= nn && members[n + i] != 0 && members[n + i] != col
        invariant 1 <= i <= nn + 1
        invariant forall k: nat :: k < i - 1 ==> Slot(List(), k) != 0 && Slot(List(), k) != col
        invariant Filled(List()) == i - 1 + FilledFrom(List(), i - 1)
      {
        i := i + 1;
      }
      active := i <= nn && members[n + i] == col && members[n + i] != 0;
      assert forall k: nat :: k < nn ==> Slot(List(), k) == members[n + 1 + k];
    }

    /** `SOS_set_marked` for this set: whether the mark was set without an activation. */
    method SetMarkedHere(col: nat, asactive: bool) returns (plain: bool)
      requires SosSets.Valid(List())
      modifies members
      ensures List() == SetMarked(old(List()), col, asactive)
      ensures plain <==> !(asactive && IsUnmarked(old(List()), col) && (IsActive(old(List()), col) || Filled(old(List())) < Order(old(List()))))
    {
      var n := members[0] + 1;
      var nn := members[n];
      var p := MemberIndex(col);
      if p == 0 || members[p] < 0 {
        return true;
      }
      ghost var s := List();
      members[p] := -members[p];
      assert List() == s[p := -s[p]];
      if asactive {
        var found := PutActive(col, n, nn, s, p);
        return !found;
      }
      return true;
    }

    /** Put `col` in the first empty slot, unless it is found before that; false when there is no room. */
    method PutActive(col: nat, n: int, nn: int, ghost s: seq<int>, ghost p: nat) returns (found: bool)
      requires SosSets.Valid(s) && n == s[0] + 1 && nn == s[n] && 1 <= p <= s[0] && List() == s[p := -s[p]] && col > 0
      modifies members
      ensures found <==> IsActive(s, col) || Filled(s) < Order(s)
      ensures List() == if !IsActive(s, col) && Filled(s) < Order(s) then s[p := -s[p]][s[0] + 2 + Filled(s) := col] else s[p := -s[p]]
    {
      ghost var t := List();
      var i := 1;
      while i <= nn
        invariant 1 <= i <= nn + 1 && List() == t
        invariant forall k: nat :: k < i - 1 ==> Slot(s, k) != 0 && Slot(s, k) != col
        invariant Filled(s) == i - 1 + FilledFrom(s, i - 1)
      {
        assert members[n + i] == Slot(s, i - 1);
        if members[n + i] == col {
          assert FilledFrom(s, i - 1) > 0;
          return true;
        } else if members[n + i] == 0 {
          assert Filled(s) == i - 1;
          members[n + i] := col;
          return true;
        }
        i := i + 1;
      }
      return false;
    }

    /** `SOS_unmark` for this set. */
    method UnmarkHere(col: nat)
      requires SosSets.Valid(List())
      modifies members
      ensures List() == Unmarked(old(List()), col)
    {
      var n := members[0] + 1;
      var nn := members[n];
      var p := MemberIndex(col);
      if p == 0 || members[p] > 0 {
        return;
      }
      var active := ScanActive(col);
      members[p] := -members[p];
      if active {
        RemoveSlot(col, n, nn, old(List()), p);
      }
    }

    /** Drop the slot of `col` and move the later ones down. */
    method RemoveSlot(col: nat, n: int, nn: int, ghost s: seq<int>, ghost p: nat)
      requires SosSets.Valid(s) && IsActive(s, col) && n == s[0] + 1 && nn == s[n] && 1 <= p <= s[0]
      requires List() == s[p := -s[p]]
      modifies members
      ensures var q := s[0] + 2 + SlotOf(s, col, 0); var t := s[p := -s[p]]; List() == t[..q] + t[q + 1..] + [0]
    {
      var i := 1;
      while i <= nn && members[n + i] != col
        invariant 1 <= i <= nn + 1
        invariant SlotOf(s, col, 0) == SlotOf(s, col, i - 1)
      {
        assert members[n + i] == Slot(s, i - 1);
        i := i + 1;
      }
      assert SlotOf(s, col, 0) == i - 1;
      ShiftDown(n + i);
    }

    /** Move the entries after `q` down by one and put a zero at the end. */
    method ShiftDown(q: nat)
      requires q < members.Length
      modifies members
      ensures List() == old(List())[..q] + old(List())[q + 1..] + [0]
    {
      ghost var t := List();
      var i := q;
      while i < members.Length - 1
        invariant q <= i <= members.Length - 1
        invariant forall j :: 0 <= j < q ==> members[j] == t[j]
        invariant forall j :: q <= j < i ==> members[j] == t[j + 1]
        invariant forall j :: i <= j < members.Length ==> members[j] == t[j]
      {
        members[i] := members[i + 1];
        i := i + 1;
      }
      members[members.Length - 1] := 0;
    }

    /** `SOS_can_activate` for this set under the lower bounds `lo`. */
    method CanActivateHere(col: nat, lo: seq<real>) returns (ok: bool)
      requires SosSets.Valid(List()) && ColumnsIn(List(), |lo|)
      ensures ok == CanActivate(List(), col, lo)
    {
      hide *;
      ghost var s := members[..];
      ListIs();
      ActivationTest(s, col, lo);
      LastSlot(s);
      var p := MemberIndex(col);
      if p == 0 {
        return true;
      }
      if members[members[0] + 1 + members[members[0] + 1]] != 0 {
        return false;
      }
      var nz, blocked := CountBounded(col, lo);
      if blocked {
        return false;
      }
      ok := HasRoom(col, lo, nz);
    }

    /** The rest of the guard: room for another nonzero member, and a free place beside the last one. */
    method HasRoom(col: nat, lo: seq<real>, nz: nat) returns (ok: bool)
      requires SosSets.Valid(List()) && ColumnsIn(List(), |lo|)
      ensures ok == RoomBeside(List(), col, lo, nz)
    {
      ghost var s := members[..];
      var nn := members[members[0] + 1];
      var c, free := CountFree(lo);
      if nz + free == nn {
        return false;
      }
      if c == 0 {
        return true;
      }
      hide *;
      if nn > 1 {
        var active := ScanActive(col);
        if active {
          return false;
        }
        ok := BesideLast(col, c);
        return;
      }
      return true;
    }

    /** `col` stands next to the column activated last, that of slot `c`. */
    method BesideLast(col: nat, c: nat) returns (ok: bool)
      requires SosSets.Valid(List()) && 1 <= c <= Order(List())
      ensures var s := List(); var e := Index(s, Slot(s, c - 1));
              ok == (e > 0 && ((e > 1 && s[e - 1] == col) || (e < s[0] && s[e + 1] == col)))
    {
      var n := members[0] + 1;
      assert members[n + c] == Slot(List(), c - 1);
      var e := MemberIndex(members[n + c]);
      ok := e > 0 && ((e > 1 && members[e - 1] == col) || (e < members[0] && members[e + 1] == col));
    }

    /** Members with a positive lower bound, and whether `col` itself is an unmarked one of them. */
    method CountBounded(col: nat, lo: seq<real>) returns (nz: nat, blocked: bool)
      requires SosSets.Valid(List()) && ColumnsIn(List(), |lo|) && Index(List(), col) > 0
      ensures blocked <==> List()[Index(List(), col)] > 0 && lo[col] > 0.0
      ensures !blocked ==> nz == BoundedMembers(List(), lo, List()[0])
    {
      ghost var s := List();
      nz, blocked := 0, false;
      var i := 1;
      while i <= members[0]
        invariant 1 <= i <= members[0] + 1
        invariant nz == BoundedMembers(s, lo, i - 1)
        invariant forall j :: 1 <= j < i ==> !(s[j] == col && lo[Abs(s[j])] > 0.0)
      {
        if lo[Abs(members[i])] > 0.0 {
          nz := nz + 1;
          if members[i] == col {
            IndexIs(s, col, i);
            return nz, true;
          }
        }
        i := i + 1;
      }
    }

    /** Length of the active list, and the active columns whose lower bound is zero. */
    method CountFree(lo: seq<real>) returns (c: nat, free: nat)
      requires SosSets.Valid(List()) && ColumnsIn(List(), |lo|)
      ensures c == Filled(List()) && free == UnboundedActive(List(), lo, c)
    {
      ghost var s := List();
      var n := members[0] + 1;
      var nn := members[n];
      c, free := 0, 0;
      while c < nn && members[n + c + 1] != 0
        invariant 0 <= c <= nn && free == UnboundedActive(s, lo, c)
        invariant Filled(s) == c + FilledFrom(s, c)
      {
        assert members[n + c + 1] == Slot(s, c);
        if lo[members[n + c + 1]] == 0.0 {
          free := free + 1;
        }
        c := c + 1;
      }
      assert c < nn ==> members[n + c + 1] == Slot(s, c);
    }

    /** `SOS_fix_unmarked` for this set: fix the bounds of the unmarked members outside the free window at
        `value`, recording each change. Returns the number of changes, or the negated column whose
        original bounds forbid the value. */
    method FixUnmarkedHere(variable: nat, bound: array<real>, value: real, isupper: bool,
                           origLow: seq<real>, origUp: seq<real>, changelog: UndoLadder) returns (r: int)
      requires SosSets.Valid(List()) && ColumnsIn(List(), bound.Length) && Index(List(), variable) > 0
      requires |origLow| == |origUp| == bound.Length
      requires changelog.Valid() && Undoing(changelog.frames, bound[..])
      modifies bound, changelog
      ensures changelog.Valid() && UndoIs(old(changelog.frames), old(bound[..]), changelog.frames, bound[..])
      ensures r >= 0 ==> forall j :: 0 <= j < bound.Length ==>
                bound[j] == if ToFix(List(), variable, j) then value else old(bound[j])
      ensures r < 0 ==> -r < bound.Length && ToFix(List(), variable, -r) && (if isupper then value < origLow[-r] else value > origUp[-r])
    {
      hide UndoLadder.Valid, UndoIs, FixedBelow, ToFix, Undoing;
      ghost var s, b0 := List(), bound[..];
      NothingFixed(changelog.frames, s, variable, b0, value);
      var n := members[0] + 1;
      var nLeft, nRight := FreeWindow(variable);
      r := 0;
      var i := 1;
      assert bound[..] == b0;
      while i < n
        invariant 1 <= i <= n && r >= 0
        invariant changelog.Valid() && UndoIs(old(changelog.frames), b0, changelog.frames, bound[..])
        invariant FixedBelow(s, variable, b0, bound[..], value, i)
      {
        if !(nLeft <= i <= nRight) && members[i] > 0 {
          var ii := members[i];
          NextFixed(s, variable, b0, bound[..], value, i);
          if bound[ii] != value {
            if isupper && value < origLow[ii] {
              return -ii;
            } else if !isupper && value > origUp[ii] {
              return -ii;
            }
            r := r + 1;
            RecordFix(changelog, bound, ii, value, old(changelog.frames), b0);
          } else {
            assert bound[..][ii := value] == bound[..];
          }
        } else {
          SkipFixed(s, variable, b0, bound[..], value, i);
        }
        i := i + 1;
      }
      AllFixed(s, variable, b0, bound[..], value);
    }

    method FreeWindow(variable: nat) returns (nLeft: nat, nRight: nat)
      requires SosSets.Valid(List())
      ensures nLeft == FreeLeft(List(), variable) && nRight == FreeRight(List(), variable)
    {
      ghost var s := List();
      var n := members[0] + 1;
      var nn := members[n];
      var c := CountActive();
      var unused := nn - c;
      if unused == nn {
        nLeft := 0;
        nRight := MemberIndex(variable);
      } else {
        assert members[n + 1] == Slot(s, 0);
        nLeft := MemberIndex(members[n + 1]);
        if variable == members[n + 1] {
          nRight := nLeft;
        } else {
          nRight := MemberIndex(variable);
        }
      }
      nRight := nRight + unused;
    }

    /** Length of the active list. */
    method CountActive() returns (c: nat)
      requires SosSets.Valid(List())
      ensures c == Filled(List())
    {
      var n := members[0] + 1;
      var nn := members[n];
      c := 0;
      while c < nn && members[n + c + 1] != 0
        invariant 0 <= c <= nn
        invariant Filled(List()) == c + FilledFrom(List(), c)
      {
        assert members[n + c + 1] == Slot(List(), c);
        c := c + 1;
      }
      assert c < nn ==> members[n + c + 1] == Slot(List(), c);
    }

    /** Find the first member that is `first` or nonzero, then read `count` entries: zeros, then nonzeros. */
    method ScanActiveRun(y: seq<real>, first: nat, count: nat) returns (i: nat, code: int)
      requires SosSets.Valid(List()) && EntriesIn(List(), |y|) && Index(List(), first) > 0 && count <= Order(List())
      ensures code == 0 || code == 2
      ensures var q := Index(List(), first); code == 0 <==> ReadsZero(List(), y, 1, q) && RunEnds(List(), y, q, q + count)
      ensures code == 0 ==> i == Index(List(), first) + count
    {
      ghost var s := List();
      ghost var q := Index(s, first);
      var n := members[0] + 1;
      i := 1;
      while i < n && !(Abs(members[i]) == first || y[Abs(members[i])] != 0.0)
        invariant 1 <= i <= q
        invariant ReadsZero(s, y, 1, i)
      {
        i := i + 1;
      }
      if Abs(members[i]) != first {
        assert i < q && Nonzero(s, y, i);
        return i, 2;
      }
      IndexIs(s, first, i);
      var left := count;
      while left > 0 && y[Abs(members[i])] == 0.0
        invariant q <= i && i + left == q + count
        invariant ReadsZero(s, y, q, i)
      {
        i := i + 1;
        left := left - 1;
      }
      ghost var z := i;
      while left > 0 && y[Abs(members[i])] != 0.0
        invariant z <= i && i + left == q + count
        invariant ReadsNonzero(s, y, z, i)
      {
        i := i + 1;
        left := left - 1;
      }
      code := if left > 0 then 2 else 0;
      if left > 0 {
        assert Nonzero(s, y, z) && !Nonzero(s, y, i);
      } else {
        assert RunEnds(s, y, q, q + count);
      }
    }

    /** Skip the zero members, then count the nonzero ones, at most one more than `nn`. */
    method ScanHeader(y: seq<real>, nn: int) returns (i: nat, many: bool, ghost a: nat)
      requires SosSets.Valid(List()) && EntriesIn(List(), |y|) && nn == Order(List())
      ensures 1 <= a <= i <= List()[0] + 1 && ReadsZero(List(), y, 1, a) && ReadsNonzero(List(), y, a, i)
      ensures a <= List()[0] ==> Nonzero(List(), y, a)
      ensures many <==> i - a > nn
      ensures !many ==> i == List()[0] + 1 || !Nonzero(List(), y, i)
    {
      var n := members[0] + 1;
      i := 1;
      while i < n && y[Abs(members[i])] == 0.0
        invariant 1 <= i <= n && ReadsZero(List(), y, 1, i)
      {
        i := i + 1;
      }
      a := i;
      var count := 0;
      while i < n && count <= nn && y[Abs(members[i])] != 0.0
        invariant a <= i <= n && count == i - a <= nn + 1
        invariant ReadsNonzero(List(), y, a, i)
      {
        count := count + 1;
        i := i + 1;
      }
      many := count > nn;
    }

    /** `SOS_is_feasible` for this set: at most one maximal run of nonzero values in the active list. */
    method IsFeasible(y: seq<real>) returns (ok: bool)
      requires SosSets.Valid(List()) && EntriesIn(List(), |y|)
      requires forall k: nat :: Filled(List()) <= k < Order(List()) ==> Slot(List(), k) == 0
      ensures ok <==> Order(List()) <= 2 || !HasGap(List(), y)
    {
      ghost var s := List();
      var n := members[0] + 1;
      var nn := members[n];
      if nn <= 2 {
        return true;
      }
      SlotsAreRead(s, y);
      assert |s| == n + nn + 1 == members.Length && s[n] == nn && ColumnsIn(s, |y|) && s[0] >= 0;
      hide SosSets.Valid, Slot, Filled, ActiveValue, RunsSeen, HasGap, EntriesIn, ColumnsIn;
      var i: nat, runs: nat := 1, 0;
      ghost var last: nat := 0;
      while i <= nn && members[n + i] != 0
        invariant 1 <= i <= nn + 2 && SlotRead(s, y, i) && RunsSeen(s, y, i - 1, runs, last)
      {
        i, runs, last := ReadRun(y, n, nn, i, runs, last);
      }
      ok := runs <= 1;
      RunsGap(s, y, i - 1, runs, last);
    }

    /** One round of the scan: zeros, a run of nonzero values if one follows, and the slot after it. */
    method ReadRun(y: seq<real>, n: int, nn: int, i0: nat, runs0: nat, ghost last0: nat) returns (i: nat, runs: nat, ghost last: nat)
      requires SosSets.Valid(List()) && EntriesIn(List(), |y|)
      requires n == List()[0] + 1 && nn == Order(List()) && 1 <= i0 <= nn && members[n + i0] != 0
      requires SlotsRead(List(), y) && RunsSeen(List(), y, i0 - 1, runs0, last0)
      ensures i0 < i <= nn + 2 && RunsSeen(List(), y, i - 1, runs, last)
    {
      hide *;
      ghost var s := members[..];
      ListIs();
      SlotReadAt(s, y, i0);
      i := SkipZeros(y, n, nn, i0);
      if i <= nn && members[n + i] != 0 {
        i, runs, last := ReadNonzeros(y, n, nn, i0 - 1, i, runs0, last0);
      } else {
        OnlyZeros(s, y, i0 - 1, runs0, last0, i - 1);
        runs, last := runs0, last0;
      }
      i := i + 1;
    }

    lemma ListIs()
      ensures List() == members[..]
    {
    }

    /** The run of nonzero values at position `i1`, after zeros from slot `k` on. */
    method ReadNonzeros(y: seq<real>, n: int, nn: int, ghost k: nat, i1: nat, runs0: nat, ghost last0: nat) returns (i: nat, runs: nat, ghost last: nat)
      requires SosSets.Valid(List()) && EntriesIn(List(), |y|)
      requires n == List()[0] + 1 && nn == Order(List()) && 1 <= i1 && i1 - 1 < Filled(List()) <= nn
      requires SlotsRead(List(), y) && RunsSeen(List(), y, k, runs0, last0)
      requires k <= i1 - 1 && ZeroSlots(List(), y, k, i1 - 1) && NonzeroSlots(List(), y, i1 - 1, i1)
      ensures i1 < i <= nn + 1 && RunsSeen(List(), y, i, runs, last)
    {
      hide *;
      i := SkipNonzeros(y, n, nn, i1 + 1, i1 - 1);
      OneMoreRun(List(), y, k, runs0, last0, i1 - 1, i - 1);
      runs := runs0 + 1;
      last := i - 2;
    }

    /** `SOS_is_satisfied` for this set: -1 (-2 for negative types) if satisfied but not full, 0 if satisfied
        and full, 1 if there are nonzero members outside the block, 2 if the active run is inconsistent. */
    method IsSatisfied(y: seq<real>, sosType: int) returns (status: int)
      requires SosSets.Valid(List()) && EntriesIn(List(), |y|)
      requires Filled(List()) > 0 ==> Index(List(), Slot(List(), 0)) > 0
      ensures Filled(List()) == 0 ==> status == if !Satisfied(List(), y) then 1 else if sosType <= -1 then -2 else -1
      ensures forall p, up, c :: c > 0 && Window(List(), p, up, c) ==>
                (status <= 0 <==> Verdict(List(), y, p, c)) &&
                (status <= 0 ==> status == if c == Order(List()) then 0 else if sosType <= -1 then -2 else -1)
      ensures Filled(List()) > 0 && !ReadsZero(List(), y, 1, Index(List(), Slot(List(), 0))) ==> status == 2
    {
      hide *;
      ghost var s := members[..];
      ListIs();
      LastSlot(s);
      var nn := members[members[0] + 1];
      var count := CountActive();
      if count > 0 {
        var good := if count == nn then 0 else Partial(sosType);
        PartialIs(sosType);
        status := SatisfiedRun(y, count, good);
        RunStarts(s);
      } else {
        PartialIs(sosType);
        status := SatisfiedHeader(y, Partial(sosType));
        NoRun(s);
      }
    }

    /** The case with active columns; `good` is the result when the set is satisfied. */
    method SatisfiedRun(y: seq<real>, count: nat, good: int) returns (status: int)
      requires SosSets.Valid(List()) && EntriesIn(List(), |y|)
      requires count == Filled(List()) > 0 && Index(List(), Slot(List(), 0)) > 0 && good <= 0
      ensures status == good || status == 1 || status == 2
      ensures status <= 0 <==> Verdict(List(), y, Index(List(), Slot(List(), 0)), count)
      ensures !ReadsZero(List(), y, 1, Index(List(), Slot(List(), 0))) ==> status == 2
    {
      ghost var s := List();
      assert members[members[0] + 2] == Slot(s, 0);
      hide SosSets.Valid, ReadsZero, ReadsNonzero, RunEnds;
      var i, code := ScanActiveRun(y, members[members[0] + 2], count);
      if code != 0 {
        return code;
      }
      ghost var i0 := i;
      i := ScanTail(y, i);
      TailZero(s, y, i0, i);
      status := if i <= members[0] then 1 else good;
    }

    /** The case without active columns. */
    method SatisfiedHeader(y: seq<real>, good: int) returns (status: int)
      requires SosSets.Valid(List()) && EntriesIn(List(), |y|) && good <= 0
      ensures status == if Satisfied(List(), y) then good else 1
    {
      ghost var s := List();
      var nn := members[members[0] + 1];
      var i, many, a := ScanHeader(y, nn);
      if many {
        TooMany(s, y, a, i);
        return 1;
      }
      hide *;
      ghost var i0 := i;
      i := ScanTail(y, i);
      HeaderVerdict(s, y, a, i0, i);
      status := if i <= members[0] then 1 else good;
    }

    /** Step over active slots with value zero. */
    method SkipZeros(y: seq<real>, n: int, nn: int, i0: nat) returns (i: nat)
      requires SosSets.Valid(List()) && EntriesIn(List(), |y|)
      requires n == List()[0] + 1 && nn == Order(List()) && 1 <= i0 <= nn + 1
      requires SlotsRead(List(), y) && i0 - 1 <= Filled(List())
      ensures i0 - 1 <= i - 1 <= Filled(List()) <= nn
      ensures ZeroSlots(List(), y, i0 - 1, i - 1)
      ensures i <= nn && members[n + i] != 0 <==> i - 1 < Filled(List())
      ensures i - 1 < Filled(List()) ==> NonzeroSlots(List(), y, i - 1, i)
    {
      ghost var s := List();
      assert ActiveValue(s, y, Filled(s)) == 0.0;
      hide Slot, Filled, ActiveValue, SosSets.Valid, EntriesIn;
      i := i0;
      while i <= nn && members[n + i] != 0 && y[members[n + i]] == 0.0
        invariant i0 <= i <= Filled(s) + 1 && SlotRead(s, y, i)
        invariant ZeroSlots(s, y, i0 - 1, i - 1)
      {
        i := i + 1;
      }
    }

    /** Step over active slots with a nonzero value. */
    method SkipNonzeros(y: seq<real>, n: int, nn: int, i0: nat, ghost from: nat) returns (i: nat)
      requires SosSets.Valid(List()) && EntriesIn(List(), |y|)
      requires n == List()[0] + 1 && nn == Order(List()) && 1 <= i0 <= nn + 1
      requires SlotsRead(List(), y) && i0 - 1 <= Filled(List())
      requires from < i0 - 1 && NonzeroSlots(List(), y, from, i0 - 1)
      ensures from < i - 1 <= Filled(List()) <= nn
      ensures NonzeroSlots(List(), y, from, i - 1)
      ensures ActiveValue(List(), y, i - 1) == 0.0
    {
      ghost var s := List();
      assert ActiveValue(s, y, Filled(s)) == 0.0;
      hide Slot, Filled, ActiveValue, SosSets.Valid, EntriesIn;
      i := i0;
      while i <= nn && members[n + i] != 0 && y[members[n + i]] != 0.0
        invariant i0 <= i <= Filled(s) + 1 && SlotRead(s, y, i)
        invariant NonzeroSlots(s, y, from, i - 1)
      {
        i := i + 1;
      }
    }

    /** Skip the zero members from position `i0`. */
    method ScanTail(y: seq<real>, i0: nat) returns (i: nat)
      requires SosSets.Valid(List()) && EntriesIn(List(), |y|) && i0 >= 1
      ensures i0 <= i && (i0 <= List()[0] + 1 ==> i <= List()[0] + 1)
      ensures ReadsZero(List(), y, i0, i)
      ensures i <= List()[0] ==> Nonzero(List(), y, i)
    {
      i := i0;
      while i <= members[0] && y[Abs(members[i])] == 0.0
        invariant i0 <= i && (i0 <= members[0] + 1 ==> i <= members[0] + 1)
        invariant ReadsZero(List(), y, i0, i)
      {
        i := i + 1;
      }
    }
  }

  ghost function ListsOf(sets: seq<SOSrec>): (ls: seq<seq<int>>)
    reads set r | r in sets :: r.members
    ensures |ls| == |sets|
    ensures forall i :: 0 <= i < |sets| ==> ls[i] == sets[i].List()
  {
    if sets == [] then [] else ListsOf(sets[..|sets| - 1]) + [sets[|sets| - 1].List()]
  }

  ghost function SizesOf(sets: seq<SOSrec>): (ns: seq<nat>)
    reads sets
    ensures |ns| == |sets| && forall i :: 0 <= i < |sets| ==> ns[i] == sets[i].size
  {
    if sets == [] then [] else SizesOf(sets[..|sets| - 1]) + [sets[|sets| - 1].size]
  }

  /** The sets of column `v`, as the index has them. */
  ghost predicate IndexedAt(pos: seq<int>, membership: seq<int>, lists: seq<seq<int>>, v: int)
    requires AllValid(lists) && 1 <= v < |pos|
  {
    0 <= pos[v - 1] <= pos[v] <= |membership| && AreSetsOf(membership[pos[v - 1]..pos[v]], lists, v)
  }

  datatype How = ToMark(asactive: bool) | ToUnmark

  ghost function Changed(s: seq<int>, col: nat, how: How): seq<int>
    requires SosSets.Valid(s)
  {
    match how
    case ToMark(asactive) => SetMarked(s, col, asactive)
    case ToUnmark => Unmarked(s, col)
  }

  /** The sets listed in `ids` have been changed, the others are as before. */
  ghost predicate ChangedIn(before: seq<seq<int>>, after: seq<seq<int>>, ids: seq<int>, col: nat, how: How)
    requires AllValid(before)
  {
    |after| == |before| && forall k :: 0 <= k < |before| ==> after[k] == if k + 1 in ids then Changed(before[k], col, how) else before[k]
  }

  lemma ChangeNext(before: seq<seq<int>>, after: seq<seq<int>>, ids: seq<int>, n: int, col: nat, how: How)
    requires AllValid(before) && 1 <= n <= |before| && ChangedIn(before, after, ids, col, how)
    ensures |after| == |before| && SosSets.Valid(after[n - 1])
    ensures ChangedIn(before, after[n - 1 := Changed(after[n - 1], col, how)], ids + [n], col, how)
  {
    hide *;
    ChangedAt(before, after, ids, n - 1, col, how);
    forall k | 0 <= k < |before|
      ensures SosSets.Valid(before[k])
      ensures after[n - 1 := Changed(after[n - 1], col, how)][k] == if k + 1 in ids + [n] then Changed(before[k], col, how) else before[k]
    {
      ChangedAt(before, after, ids, k, col, how);
    }
    ChangedInIs(before, after[n - 1 := Changed(after[n - 1], col, how)], ids + [n], col, how);
  }

  lemma ChangedAt(before: seq<seq<int>>, after: seq<seq<int>>, ids: seq<int>, k: int, col: nat, how: How)
    requires AllValid(before) && 0 <= k < |before| && ChangedIn(before, after, ids, col, how)
    ensures |after| == |before| && SosSets.Valid(before[k]) && SosSets.Valid(after[k])
    ensures after[k] == if k + 1 in ids then Changed(before[k], col, how) else before[k]
    ensures Changed(after[k], col, how) == Changed(before[k], col, how)
  {
    ChangeTwice(before[k], col, how);
    hide Changed, SosSets.Valid;
  }

  lemma ChangedInIs(before: seq<seq<int>>, after: seq<seq<int>>, ids: seq<int>, col: nat, how: How)
    requires AllValid(before) && |after| == |before|
    requires forall k :: 0 <= k < |before| ==> after[k] == if k + 1 in ids then Changed(before[k], col, how) else before[k]
    ensures ChangedIn(before, after, ids, col, how)
  {
  }

  lemma ChangeTwice(s: seq<int>, col: nat, how: How)
    requires SosSets.Valid(s)
    ensures SosSets.Valid(Changed(s, col, how)) && Changed(Changed(s, col, how), col, how) == Changed(s, col, how)
  {
    if how.ToMark? {
      MarkTwice(s, col, how.asactive);
    } else {
      UnmarkTwice(s, col);
    }
  }

  lemma ChangeKeepsIndex(s: seq<int>, col: nat, how: How, v: nat)
    requires SosSets.Valid(s)
    ensures SosSets.Valid(Changed(s, col, how)) && Index(Changed(s, col, how), v) == Index(s, v)
  {
    if how.ToMark? {
      MarkKeepsIndex(s, col, how.asactive, v);
    } else {
      UnmarkKeepsIndex(s, col, v);
    }
  }

  /** Taking back a mark gives every set of the group back. */
  lemma GroupRestored(ls: seq<seq<int>>, col: nat, asactive: bool)
    requires AllValid(ls) && AllWindowed(ls) && FreeColumn(ls, col)
    ensures AllValid(GroupMarked(ls, col, asactive)) && GroupUnmarked(GroupMarked(ls, col, asactive), col) == ls
  {
    var ts := GroupMarked(ls, col, asactive);
    forall k | 0 <= k < |ls| ensures SosSets.Valid(ts[k]) && Unmarked(ts[k], col) == ls[k] {
      if Index(ls[k], col) > 0 {
        var p, up, c :| Window(ls[k], p, up, c);
        UnmarkRestores(ls[k], p, up, c, col, asactive);
      }
    }
  }

  lemma AllChanged(before: seq<seq<int>>, after: seq<seq<int>>, ids: seq<int>, col: nat, how: How)
    requires AllValid(before) && ChangedIn(before, after, ids, col, how) && AreSetsOf(ids, before, col)
    ensures |after| == |before| && forall k :: 0 <= k < |before| ==> after[k] == Changed(before[k], col, how)
  {
  }

  ghost predicate AllowedIn(ls: seq<seq<int>>, n: int, col: nat, lo: seq<real>)
    requires AllValid(ls)
  {
    1 <= n <= |ls| && ColumnsIn(ls[n - 1], |lo|) && CanActivate(ls[n - 1], col, lo)
  }

  lemma AllAllowed(ls: seq<seq<int>>, ids: seq<int>, col: nat, lo: seq<real>)
    requires AllValid(ls) && AreSetsOf(ids, ls, col)
    requires forall k :: 0 <= k < |ls| ==> ColumnsIn(ls[k], |lo|)
    requires forall k :: 0 <= k < |ids| ==> AllowedIn(ls, ids[k], col, lo)
    ensures GroupCanActivate(ls, col, lo)
  {
    forall k | 0 <= k < |ls| ensures CanActivate(ls[k], col, lo) {
      if Index(ls[k], col) > 0 {
        assert k + 1 in ids;
      }
    }
  }

  /** `ids` are exactly the sets that hold column `v`. */
  ghost predicate AreSetsOf(ids: seq<int>, lists: seq<seq<int>>, v: int)
    requires AllValid(lists) && v >= 0
  {
    forall id :: id in ids <==> 1 <= id <= |lists| && Index(lists[id - 1], v) > 0
  }

  /** The finished map of unmarked sets, read in full, lists exactly the sets of each column. */
  lemma MapIndexes(pos: seq<int>, membership: seq<int>, lists: seq<seq<int>>, sizes: seq<nat>, columns: nat, v: int)
    requires AllValid(lists) && ValidLists(lists, sizes, columns) && SizesAreCounts(lists, sizes) && 1 <= v <= columns
    requires Maps(pos, membership, Pairs(lists, sizes, columns, |lists|), columns)
    ensures v < |pos| && IndexedAt(pos, membership, lists, v)
  {
    assert SliceIs(pos, membership, Pairs(lists, sizes, columns, |lists|), v);
    var ids := membership[pos[v - 1]..pos[v]];
    forall id ensures id in ids <==> 1 <= id <= |lists| && Index(lists[id - 1], v) > 0 {
      SliceMeansMembership(lists, sizes, columns, v, id);
      if 1 <= id <= |lists| {
        assert ValidEntries(lists[id - 1], sizes[id - 1], columns);
        HoldsIndex(lists[id - 1], v, columns);
      }
    }
  }

  lemma HoldsIndex(s: seq<int>, v: nat, columns: nat)
    requires SosSets.Valid(s) && forall j :: 1 <= j <= s[0] ==> 1 <= s[j] <= columns
    ensures Holds(s, s[0], v) <==> Index(s, v) > 0
  {
    if Holds(s, s[0], v) {
      var j :| 1 <= j <= s[0] && s[j] == v;
      IndexIs(s, v, j);
    }
  }

  /** A group of sets with the index from columns to the sets that hold them: the sets of column v are
      listed in membership[memberpos[v - 1]..memberpos[v]]. */
  class SOSgroup {
    const columns: nat
    var sosList: seq<SOSrec>
    var memberpos: array<int>
    var membership: array<int>

    ghost function Lists(): (ls: seq<seq<int>>)
      reads this`sosList, set r | r in sosList :: r.members
      ensures |ls| == |sosList|
    {
      ListsOf(sosList)
    }

    /** What the sets keep as their sizes. */
    ghost function Sizes(): (ns: seq<nat>)
      reads this`sosList, sosList
      ensures |ns| == |sosList|
    {
      SizesOf(sosList)
    }

    /** The index lists, for every column, exactly the sets that hold it. */
    ghost predicate Indexed()
      reads this, memberpos, membership, set r | r in sosList :: r.members
    {
      && AllValid(Lists()) && memberpos.Length == columns + 1
      && (forall r :: r in sosList ==> r.members != memberpos && r.members != membership)
      && forall v :: 1 <= v <= columns ==> IndexedAt(memberpos[..], membership[..], Lists(), v)
    }

    constructor (columns: nat, sets: seq<SOSrec>)
      ensures this.columns == columns && sosList == sets && fresh(memberpos) && fresh(membership)
    {
      this.columns, sosList := columns, sets;
      memberpos, membership := new int[0], new int[0];
    }

    /** No two sets share their list. */
    ghost predicate Apart()
      reads this`sosList
    {
      forall i, j :: 0 <= i < j < |sosList| ==> sosList[i].members != sosList[j].members
    }

    /** `SOS_set_marked` with set index 0: mark `col` in every set that the index lists for it. */
    method MarkColumn(col: nat, asactive: bool)
      requires Indexed() && Apart() && 1 <= col <= columns
      modifies set r | r in sosList :: r.members
      ensures Indexed() && Apart() && Lists() == GroupMarked(old(Lists()), col, asactive)
    {
      ghost var ls := Lists();
      ChangeColumn(col, ToMark(asactive));
      assert Lists() == GroupMarked(ls, col, asactive);
    }

    /** `SOS_unmark` with set index 0. */
    method UnmarkColumn(col: nat)
      requires Indexed() && Apart() && 1 <= col <= columns
      modifies set r | r in sosList :: r.members
      ensures Indexed() && Apart() && Lists() == GroupUnmarked(old(Lists()), col)
    {
      ghost var ls := Lists();
      ChangeColumn(col, ToUnmark);
      assert Lists() == GroupUnmarked(ls, col);
    }

    /** Marking a column that is free in sets whose active columns are in consecutive positions, and unmarking
        it again, restores every set. */
    method MarkAndUnmark(col: nat, asactive: bool)
      requires Indexed() && Apart() && 1 <= col <= columns
      requires AllWindowed(Lists()) && FreeColumn(Lists(), col)
      modifies set r | r in sosList :: r.members
      ensures Indexed() && Apart() && Lists() == old(Lists())
    {
      GroupRestored(Lists(), col, asactive);
      hide *;
      MarkColumn(col, asactive);
      UnmarkColumn(col);
    }

    /** The loop that both share: change `col` in every set that the index lists for it. */
    method ChangeColumn(col: nat, how: How)
      requires Indexed() && Apart() && 1 <= col <= columns
      modifies set r | r in sosList :: r.members
      ensures Indexed() && Apart() && |Lists()| == |old(Lists())|
      ensures forall k :: 0 <= k < |Lists()| ==> Lists()[k] == Changed(old(Lists())[k], col, how)
    {
      ghost var ls, ids := Lists(), Slice(col);
      ghost var pos, all := memberpos[..], membership[..];
      var lo, hi := memberpos[col - 1], memberpos[col];
      StartMarking(ls, ids, col, how, lo, hi);
      IndexBefore();
      hide *;
      var i := lo;
      while i < hi
        invariant lo <= i <= hi && Marking(ls, ids, col, how, lo, hi, i)
        invariant memberpos[..] == pos && membership[..] == all
      {
        ChangeNextSet(ls, ids, col, how, lo, hi, i);
        i := i + 1;
      }
      FinishMarking(ls, ids, col, how, lo, hi);
      IndexAfter(ls, pos, all, col, how);
    }

    /** The loop of `ChangeColumn` has reached index position `i`. */
    ghost predicate Marking(ls: seq<seq<int>>, ids: seq<int>, col: nat, how: How, lo: int, hi: int, i: int)
      reads this, membership, set r | r in sosList :: r.members
    {
      && Apart() && AllValid(ls) && |ls| == |sosList| && AreSetsOf(ids, ls, col)
      && (forall r :: r in sosList ==> r.members != memberpos && r.members != membership)
      && 0 <= lo <= i <= hi <= membership.Length && ids == membership[lo..hi]
      && ChangedIn(ls, Lists(), ids[..i - lo], col, how)
    }

    lemma StartMarking(ls: seq<seq<int>>, ids: seq<int>, col: nat, how: How, lo: int, hi: int)
      requires Indexed() && Apart() && 1 <= col <= columns && ls == Lists() && ids == Slice(col)
      requires lo == memberpos[col - 1] && hi == memberpos[col]
      ensures lo <= hi && Marking(ls, ids, col, how, lo, hi, lo)
    {
    }

    lemma FinishMarking(ls: seq<seq<int>>, ids: seq<int>, col: nat, how: How, lo: int, hi: int)
      requires Marking(ls, ids, col, how, lo, hi, hi)
      ensures AllValid(ls) && |Lists()| == |ls| && forall k :: 0 <= k < |ls| ==> Lists()[k] == Changed(ls[k], col, how)
      ensures Apart() && forall r :: r in sosList ==> r.members != memberpos && r.members != membership
    {
      assert ids[..|ids|] == ids;
      AllChanged(ls, Lists(), ids, col, how);
    }

    ghost predicate IndexOf(pos: seq<int>, all: seq<int>, ls: seq<seq<int>>) {
      |pos| == columns + 1 && AllValid(ls) && forall v :: 1 <= v <= columns ==> IndexedAt(pos, all, ls, v)
    }

    lemma IndexBefore()
      requires Indexed()
      ensures IndexOf(memberpos[..], membership[..], Lists())
    {
    }

    /** The index speaks of positions only, so it holds for the changed sets. */
    lemma IndexAfter(ls: seq<seq<int>>, pos: seq<int>, all: seq<int>, col: nat, how: How)
      requires IndexOf(pos, all, ls) && memberpos[..] == pos && membership[..] == all
      requires AllValid(ls) && |Lists()| == |ls| && forall k :: 0 <= k < |ls| ==> Lists()[k] == Changed(ls[k], col, how)
      requires forall r :: r in sosList ==> r.members != memberpos && r.members != membership
      ensures Indexed()
    {
      var ls' := Lists();
      forall k | 0 <= k < |ls| ensures SosSets.Valid(ls'[k]) && forall v: nat :: Index(ls'[k], v) == Index(ls[k], v) {
        forall v: nat ensures SosSets.Valid(ls'[k]) && Index(ls'[k], v) == Index(ls[k], v) {
          ChangeKeepsIndex(ls[k], col, how, v);
        }
        ChangeKeepsIndex(ls[k], col, how, 0);
      }
      hide Changed, Index, SosSets.Valid, SOSrec.List;
      assert AllValid(ls');
      forall v | 1 <= v <= columns ensures IndexedAt(pos, all, ls', v) {
        assert IndexedAt(pos, all, ls, v);
      }
    }

    method ChangeNextSet(ghost ls: seq<seq<int>>, ghost ids: seq<int>, col: nat, how: How, lo: int, hi: int, i: int)
      requires Marking(ls, ids, col, how, lo, hi, i) && i < hi
      modifies set r | r in sosList :: r.members
      ensures Marking(ls, ids, col, how, lo, hi, i + 1)
      ensures memberpos[..] == old(memberpos[..]) && membership[..] == old(membership[..])
    {
      hide Changed, ChangedIn, SosSets.Valid, SOSrec.List, Index;
      var n := membership[i];
      ghost var k := i - lo;
      assert n == ids[k] && ids[k] in ids && ids[..k + 1] == ids[..k] + [n];
      ChangeNext(ls, Lists(), ids[..k], n, col, how);
      ChangeOne(n, col, how);
    }

    method ChangeOne(n: int, col: nat, how: How)
      requires Apart() && 1 <= n <= |sosList| && SosSets.Valid(Lists()[n - 1])
      modifies sosList[n - 1].members
      ensures Lists() == old(Lists())[n - 1 := Changed(old(Lists())[n - 1], col, how)]
    {
      hide SosSets.Valid, SetMarked, Unmarked;
      match how
      case ToMark(asactive) =>
        var plain := sosList[n - 1].SetMarkedHere(col, asactive);
      case ToUnmark =>
        sosList[n - 1].UnmarkHere(col);
    }

    /** `SOS_can_activate` with set index 0. */
    method CanActivateColumn(col: nat, lo: seq<real>) returns (ok: bool)
      requires Indexed() && 1 <= col <= columns
      requires forall k :: 0 <= k < |sosList| ==> ColumnsIn(Lists()[k], |lo|)
      ensures ok <==> GroupCanActivate(Lists(), col, lo)
    {
      hide SosSets.Valid, ColumnsIn, CanActivate, Index, SOSrec.List;
      ghost var ls, ids := Lists(), Slice(col);
      ghost var from := memberpos[col - 1];
      var i := memberpos[col - 1];
      while i < memberpos[col]
        invariant from <= i <= memberpos[col]
        invariant forall k :: 0 <= k < i - from ==> AllowedIn(ls, ids[k], col, lo)
      {
        var n := membership[i];
        assert n == ids[i - from] && ids[i - from] in ids;
        var good := sosList[n - 1].CanActivateHere(col, lo);
        if !good {
          return false;
        }
        assert AllowedIn(ls, n, col, lo);
        i := i + 1;
      }
      AllAllowed(ls, ids, col, lo);
      return true;
    }

    /** What the index lists for `col`. */
    ghost function Slice(col: nat): (ids: seq<int>)
      requires Indexed() && 1 <= col <= columns
      reads this, memberpos, membership, set r | r in sosList :: r.members
      ensures 0 <= memberpos[col - 1] <= memberpos[col] <= membership.Length && ids == membership[memberpos[col - 1]..memberpos[col]]
      ensures AreSetsOf(ids, Lists(), col)
    {
      assert IndexedAt(memberpos[..], membership[..], Lists(), col);
      assert membership[..][memberpos[col - 1]..memberpos[col]] == membership[memberpos[col - 1]..memberpos[col]];
      membership[memberpos[col - 1]..memberpos[col]]
    }

    /** Count the sets of each column. */
    method Tally() returns (tally: array<int>)
      requires ValidLists(Lists(), Sizes(), columns)
      ensures fresh(tally) && tally.Length == columns + 1 && Counted(tally[..], Pairs(Lists(), Sizes(), columns, |sosList|), columns)
    {
      hide *;
      ghost var ls, ns := Lists(), Sizes();
      tally := new int[columns + 1](_ => 0);
      NothingCounted(tally[..], ls, ns, columns);
      StartTallying(tally, ls, ns);
      var i := 0;
      while i < |sosList|
        invariant 0 <= i <= |sosList| && Tallying(sosList, tally, ls, ns, i)
      {
        TallyNext(sosList, tally, ls, ns, i);
        i := i + 1;
      }
      Tallied(sosList, tally, ls, ns);
    }

    /** The sets before number `i` have been counted. */
    ghost predicate Tallying(sets: seq<SOSrec>, tally: array<int>, ls: seq<seq<int>>, ns: seq<nat>, i: int)
      reads tally, sets, set r | r in sets :: r.members
    {
      && |ls| == |ns| == |sets| && 0 <= i <= |sets| && ValidLists(ls, ns, columns) && tally.Length == columns + 1
      && (forall k :: 0 <= k < |sets| ==> sets[k].List() == ls[k] && sets[k].size == ns[k] && sets[k].members != tally)
      && Counted(tally[..], Pairs(ls, ns, columns, i), columns)
    }

    lemma StartTallying(tally: array<int>, ls: seq<seq<int>>, ns: seq<nat>)
      requires ls == Lists() && ns == Sizes() && ValidLists(ls, ns, columns) && tally.Length == columns + 1 && Counted(tally[..], Pairs(ls, ns, columns, 0), columns)
      requires forall r :: r in sosList ==> r.members != tally
      ensures Tallying(sosList, tally, ls, ns, 0)
    {
    }

    lemma Tallied(sets: seq<SOSrec>, tally: array<int>, ls: seq<seq<int>>, ns: seq<nat>)
      requires Tallying(sets, tally, ls, ns, |sets|)
      ensures ValidLists(ls, ns, columns) && |ls| == |ns| == |sets| && tally.Length == columns + 1 && Counted(tally[..], Pairs(ls, ns, columns, |sets|), columns)
    {
    }

    method TallyNext(sets: seq<SOSrec>, tally: array<int>, ghost ls: seq<seq<int>>, ghost ns: seq<nat>, i: nat)
      requires i < |sets| && Tallying(sets, tally, ls, ns, i)
      modifies tally
      ensures Tallying(sets, tally, ls, ns, i + 1)
    {
      hide ValidLists, Counted, Pairs, SOSrec.List;
      sets[i].ListIs();
      TallySet(sets[i].members, sets[i].size, tally, ls, ns, i);
    }

    method TallySet(list: array<int>, n: nat, tally: array<int>, ghost ls: seq<seq<int>>, ghost ns: seq<nat>, ghost i: nat)
      requires ValidLists(ls, ns, columns) && i < |ls| && list[..] == ls[i] && n == ns[i] && list != tally
      requires tally.Length == columns + 1 && Counted(tally[..], Pairs(ls, ns, columns, i), columns)
      modifies tally
      ensures Counted(tally[..], Pairs(ls, ns, columns, i + 1), columns)
    {
      hide Counted, Pairs;
      ghost var s, ps := ls[i], Pairs(ls, ns, columns, i);
      assert ValidEntries(s, n, columns);
      var j := 1;
      assert ps + SetPairs(s, i + 1, 0) == ps;
      while j <= n
        invariant 1 <= j <= n + 1 && list[..] == s
        invariant Counted(tally[..], ps + SetPairs(s, i + 1, j - 1), columns)
      {
        var k := list[j];
        PairsSnoc(ls, ns, columns, i, j);
        CountNext(tally[..], ps + SetPairs(s, i + 1, j - 1), (k, i + 1), columns);
        tally[k] := tally[k] + 1;
        j := j + 1;
      }
      PairsNext(ls, ns, columns, i);
    }

    /** Turn the counts into positions; the result is the number of columns in some set. */
    method Positions(tally: array<int>, pos: array<int>, ghost ps: seq<(int, int)>) returns (nvars: nat)
      requires tally.Length == pos.Length == columns + 1 && tally != pos && Counted(tally[..], ps, columns)
      modifies pos
      ensures nvars == UsedTo(ps, columns) && StartsTo(pos[..], ps, columns)
    {
      hide Sel;
      nvars := 0;
      pos[0] := 0;
      var i := 1;
      while i <= columns
        invariant 1 <= i <= columns + 1 && tally[..] == old(tally[..])
        invariant nvars == UsedTo(ps, i - 1) && StartsTo(pos[..], ps, i - 1)
      {
        var n := tally[i];
        assert n == |Sel(ps, i)|;
        if n > 0 {
          nvars := nvars + 1;
        }
        pos[i] := pos[i - 1] + n;
        i := i + 1;
      }
    }

    /** Copy each column's first position to the counters. */
    method CopyStarts(tally: array<int>, pos: array<int>)
      requires tally.Length == pos.Length == columns + 1 && tally != pos
      modifies tally
      ensures forall v :: 1 <= v <= columns ==> tally[v] == pos[v - 1]
    {
      var i := 1;
      while i <= columns
        invariant 1 <= i <= columns + 1
        invariant forall v :: 1 <= v < i ==> tally[v] == pos[v - 1]
      {
        tally[i] := pos[i - 1];
        i := i + 1;
      }
    }

    /** `SOS_member_updatemap`: a counting sort of the members of all sets by column. */
    method UpdateMap() returns (nvars: nat)
      requires ValidLists(Lists(), Sizes(), columns)
      modifies this`memberpos, this`membership
      ensures fresh(memberpos) && fresh(membership) && Lists() == old(Lists())
      ensures Maps(memberpos[..], membership[..], Pairs(Lists(), Sizes(), columns, |sosList|), columns)
      ensures nvars == |Held(Lists(), Sizes(), columns)|
      ensures ValidMembers(Lists(), columns) ==>
                (MapExact(memberpos[..], membership[..], Lists(), columns) <==> SizesAreCounts(Lists(), Sizes()))
    {
      hide *;
      ghost var ls, ns := Lists(), Sizes();
      ghost var all := Pairs(ls, ns, columns, |sosList|);
      var tally := Tally();
      var pos := new int[columns + 1];
      nvars := Positions(tally, pos, all);
      CopyStarts(tally, pos);
      AllStarts(ls, ns, columns, pos[..]);
      var n := pos[columns];
      var m := new int[n + 1];
      NothingPlaced(tally[..], pos[..], m[..], all, columns);
      StartLoading(tally, m, ls, ns, all);
      Load(sosList, tally, m, ls, ns, all);
      AllPlaced(tally[..], pos[..], m[..], all, columns);
      memberpos, membership := pos, m;
      UsedIsHeld(ls, ns, columns, columns);
      if ValidMembers(ls, columns) {
        MapsExact(pos[..], m[..], ls, ns, columns);
      }
    }

    /** With sizes that are the member counts the map is the index that the operations on columns rely on. */
    method BuildIndex() returns (nvars: nat)
      requires AllValid(Lists()) && ValidMembers(Lists(), columns) && SizesAreCounts(Lists(), Sizes())
      modifies this`memberpos, this`membership
      ensures Indexed() && Lists() == old(Lists())
    {
      hide *;
      SizesAreValid(Lists(), Sizes(), columns);
      nvars := UpdateMap();
      NowIndexed();
    }

    lemma NowIndexed()
      requires AllValid(Lists()) && ValidLists(Lists(), Sizes(), columns) && SizesAreCounts(Lists(), Sizes())
      requires Maps(memberpos[..], membership[..], Pairs(Lists(), Sizes(), columns, |sosList|), columns)
      requires forall r :: r in sosList ==> r.members != memberpos && r.members != membership
      ensures Indexed()
    {
      forall v | 1 <= v <= columns ensures IndexedAt(memberpos[..], membership[..], Lists(), v) {
        MapIndexes(memberpos[..], membership[..], Lists(), Sizes(), columns, v);
      }
      hide Pairs, IndexedAt, SizesAreCounts, SliceIs;
    }

    lemma StartLoading(tally: array<int>, m: array<int>, ls: seq<seq<int>>, ns: seq<nat>, all: seq<(int, int)>)
      requires ls == Lists() && ns == Sizes() && ValidLists(ls, ns, columns) && all == Pairs(ls, ns, columns, |ls|)
      requires tally != m && tally.Length == columns + 1 && Placed(tally[..], m[..], all, [], columns)
      requires forall r :: r in sosList ==> r.members != tally && r.members != m
      ensures Loading(sosList, tally, m, ls, ns, all, 0)
    {
    }

    /** Write the sets of all columns to their places. */
    method Load(sets: seq<SOSrec>, tally: array<int>, m: array<int>, ghost ls: seq<seq<int>>, ghost ns: seq<nat>, ghost all: seq<(int, int)>)
      requires Loading(sets, tally, m, ls, ns, all, 0)
      modifies tally, m
      ensures Placed(tally[..], m[..], all, all, columns)
    {
      hide Loading;
      var i := 0;
      while i < |sets|
        invariant 0 <= i <= |sets| && Loading(sets, tally, m, ls, ns, all, i)
      {
        LoadNext(sets, tally, m, ls, ns, all, i);
        i := i + 1;
      }
      Loaded(sets, tally, m, ls, ns, all);
    }

    lemma Loaded(sets: seq<SOSrec>, tally: array<int>, m: array<int>, ls: seq<seq<int>>, ns: seq<nat>, all: seq<(int, int)>)
      requires Loading(sets, tally, m, ls, ns, all, |sets|)
      ensures Placed(tally[..], m[..], all, all, columns)
    {
    }

    method LoadNext(sets: seq<SOSrec>, tally: array<int>, m: array<int>, ghost ls: seq<seq<int>>, ghost ns: seq<nat>, ghost all: seq<(int, int)>, i: nat)
      requires i < |sets| && Loading(sets, tally, m, ls, ns, all, i)
      modifies tally, m
      ensures Loading(sets, tally, m, ls, ns, all, i + 1)
    {
      hide ValidLists, Placed, Pairs, SOSrec.List;
      PlaceSet(sets[i], tally, m, ls, ns, i);
    }

    /** The sets before number `i` have been written to their places. */
    ghost predicate Loading(sets: seq<SOSrec>, tally: array<int>, m: array<int>, ls: seq<seq<int>>, ns: seq<nat>, all: seq<(int, int)>, i: int)
      reads tally, m, sets, set r | r in sets :: r.members
    {
      && |ls| == |ns| == |sets| && 0 <= i <= |sets| && ValidLists(ls, ns, columns) && tally != m && tally.Length == columns + 1
      && (forall k :: 0 <= k < |sets| ==> sets[k].List() == ls[k] && sets[k].size == ns[k] && sets[k].members != tally && sets[k].members != m)
      && all == Pairs(ls, ns, columns, |ls|) && Placed(tally[..], m[..], all, Pairs(ls, ns, columns, i), columns)
    }

    method PlaceSet(rec: SOSrec, tally: array<int>, m: array<int>, ghost ls: seq<seq<int>>, ghost ns: seq<nat>, i: nat)
      requires ValidLists(ls, ns, columns) && i < |ls| && rec.List() == ls[i] && rec.size == ns[i] && rec.members != tally && rec.members != m && tally != m
      requires tally.Length == columns + 1
      requires Placed(tally[..], m[..], Pairs(ls, ns, columns, |ls|), Pairs(ls, ns, columns, i), columns)
      modifies tally, m
      ensures Placed(tally[..], m[..], Pairs(ls, ns, columns, |ls|), Pairs(ls, ns, columns, i + 1), columns)
    {
      ghost var s, ps, all := ls[i], Pairs(ls, ns, columns, i), Pairs(ls, ns, columns, |ls|);
      assert Start(all, columns) <= m.Length;
      hide Placed, Pairs, Start;
      var list := rec.members;
      var n := rec.size;
      var j := 1;
      assert ps + SetPairs(s, i + 1, 0) == ps;
      while j <= n
        invariant 1 <= j <= n + 1 && list[..] == s
        invariant Placed(tally[..], m[..], all, ps + SetPairs(s, i + 1, j - 1), columns)
      {
        PlaceMember(tally, m, list[j], i + 1, all, ps + SetPairs(s, i + 1, j - 1), ps + SetPairs(s, i + 1, j)) by {
          PairsSnoc(ls, ns, columns, i, j);
          PairsPrefix(ls, ns, columns, i, j);
        }
        j := j + 1;
      }
      PairsNext(ls, ns, columns, i);
    }

    method PlaceMember(tally: array<int>, m: array<int>, v: int, id: int,
                       ghost all: seq<(int, int)>, ghost ps: seq<(int, int)>, ghost next: seq<(int, int)>)
      requires tally != m && tally.Length == columns + 1 && 1 <= v <= columns
      requires Placed(tally[..], m[..], all, ps, columns) && next == ps + [(v, id)] <= all
      modifies tally, m
      ensures Placed(tally[..], m[..], all, next, columns)
    {
      assert Start(all, columns) <= m.Length;
      hide Placed, Start;
      PlaceNext(tally[..], m[..], all, ps, (v, id), columns);
      var k := tally[v];
      tally[v] := k + 1;
      m[k] := id;
    }
  }

  /** A set of order 2 with members 5 and 7 whose column 7 is deleted: the list is that of the one member, the
      size is still 2, and the map then lists the set under column 2, its order cell. */
  method MisreadOrder() returns (rec: SOSrec, slice: seq<int>)
    ensures rec.List() == [1, 5, 2, 2, 0, 0] && rec.size == 2
    ensures slice == [1] && !Holds(rec.List(), 1, 2)
  {
    hide *;
    rec := DeleteOneOfTwo();
    var group := new SOSgroup(6, [rec]);
    OneSet(group, rec);
    OrderRead();
    var _ := group.UpdateMap();
    SliceOfOrder(group.memberpos[..], group.membership[..]);
    slice := group.membership[group.memberpos[1]..group.memberpos[2]];
  }

  method DeleteOneOfTwo() returns (rec: SOSrec)
    ensures fresh(rec) && fresh(rec.members) && rec.List() == [1, 5, 2, 2, 0, 0] && rec.size == 2
  {
    rec := new SOSrec([2, 5, 7, 2, 0, 0]);
    var weights := new real[3](i => i as real);
    hide *;
    WholePack(rec.List(), weights[..]);
    rec.ListIs();
    SosShift.ShiftDelete(rec.members, weights, 7, 1);
    LastDeleted(rec.members[..], weights[..], [0.0, 1.0, 2.0]);
    rec.ListIs();
  }

  lemma WholePack(list: seq<int>, weights: seq<real>)
    requires list == [2, 5, 7, 2, 0, 0] && |weights| == 3
    ensures SosShift.Packed(list, weights)
  {
  }

  lemma OneSet(group: SOSgroup, rec: SOSrec)
    requires group.sosList == [rec]
    ensures group.Lists() == [rec.List()] && group.Sizes() == [rec.size]
  {
  }

  lemma LastDeleted(list: seq<int>, weights: seq<real>, weights0: seq<real>)
    requires |weights0| == 3 && SosShift.Packed(list, weights) && SosShift.Shrunk([2, 5, 7, 2, 0, 0], list)
    requires SosShift.Block(list, weights, list[0]) == SosShift.Deleted(SosShift.Block([2, 5, 7, 2, 0, 0], weights0, 2), 7, 1)
    ensures list == [1, 5, 2, 2, 0, 0]
  {
    var ps := SosShift.Block([2, 5, 7, 2, 0, 0], weights0, 2);
    assert ps[..1] == [(5, weights0[1])] && ps[..1][..0] == [];
    assert SosShift.Deleted(ps[..1], 7, 1) == [(5, weights0[1])];
    assert SosShift.Deleted(ps, 7, 1) == [(5, weights0[1])];
  }

  lemma OrderRead()
    ensures ValidLists([[1, 5, 2, 2, 0, 0]], [2], 6) && !Holds([1, 5, 2, 2, 0, 0], 1, 2)
  {
  }

  lemma SliceOfOrder(pos: seq<int>, membership: seq<int>)
    requires ValidLists([[1, 5, 2, 2, 0, 0]], [2], 6)
    requires Maps(pos, membership, Pairs([[1, 5, 2, 2, 0, 0]], [2], 6, 1), 6)
    ensures |pos| == 7 && 0 <= pos[1] <= pos[2] <= |membership| && membership[pos[1]..pos[2]] == [1]
  {
    var s, all := [1, 5, 2, 2, 0, 0], Pairs([[1, 5, 2, 2, 0, 0]], [2], 6, 1);
    assert all == SetPairs(s, 1, 2) == [(5, 1)] + [(2, 1)];
    SelSnoc([], (5, 1), 2);
    SelSnoc([(5, 1)], (2, 1), 2);
    assert SliceIs(pos, membership, all, 2);
    hide Maps;
  }

  lemma LastSlot(s: seq<int>)
    requires SosSets.Valid(s)
    ensures 0 <= s[0] && s[0] + 1 < |s| && Order(s) == s[s[0] + 1] >= 1
    ensures s[0] + 1 + Order(s) == |s| - 1 && s[s[0] + 1 + Order(s)] == Slot(s, Order(s) - 1)
  {
  }

  /** There is room for another nonzero member, and `col` is beside the column activated last. */
  predicate RoomBeside(s: seq<int>, col: nat, lo: seq<real>, nz: nat)
    requires SosSets.Valid(s) && ColumnsIn(s, |lo|)
  {
    var c := Filled(s);
    nz + UnboundedActive(s, lo, c) != Order(s) &&
    (c == 0 || Order(s) <= 1 ||
     (!IsActive(s, col) &&
      var e := Index(s, Slot(s, c - 1)); e > 0 && ((e > 1 && s[e - 1] == col) || (e < s[0] && s[e + 1] == col))))
  }

  /** The order of the tests in the activation guard. */
  lemma ActivationTest(s: seq<int>, col: nat, lo: seq<real>)
    requires SosSets.Valid(s) && ColumnsIn(s, |lo|)
    ensures Index(s, col) > 0 ==> col < |lo|
    ensures CanActivate(s, col, lo) <==>
              Index(s, col) == 0 ||
              (Slot(s, Order(s) - 1) == 0 && !(s[Index(s, col)] > 0 && lo[col] > 0.0) &&
               RoomBeside(s, col, lo, BoundedMembers(s, lo, s[0])))
  {
    hide IsActive, BoundedMembers, UnboundedActive;
  }

  /** What a scan over the slots reads at position `i`, in a list without holes. */
  ghost predicate SlotRead(s: seq<int>, y: seq<real>, i: int)
    requires SosSets.Valid(s) && EntriesIn(s, |y|)
  {
    1 <= i <= Order(s) ==>
      && s[0] + 1 + i < |s| && 0 <= s[s[0] + 1 + i] < |y|
      && (s[s[0] + 1 + i] != 0 <==> i - 1 < Filled(s))
      && (i - 1 < Filled(s) ==> y[s[s[0] + 1 + i]] == ActiveValue(s, y, i - 1))
  }

  ghost predicate SlotsRead(s: seq<int>, y: seq<real>)
    requires SosSets.Valid(s) && EntriesIn(s, |y|)
  {
    Filled(s) <= Order(s) && forall i :: SlotRead(s, y, i)
  }

  lemma SlotReadAt(s: seq<int>, y: seq<real>, i: int)
    requires SosSets.Valid(s) && EntriesIn(s, |y|) && SlotsRead(s, y)
    ensures ColumnsIn(s, |y|) && s[0] >= 0 && |s| == s[0] + 2 + Order(s) && Filled(s) <= Order(s)
    ensures 1 <= i <= Order(s) && s[s[0] + 1 + i] != 0 ==> i - 1 < Filled(s)
  {
    assert SlotRead(s, y, i);
  }

  lemma SlotsAreRead(s: seq<int>, y: seq<real>)
    requires SosSets.Valid(s) && EntriesIn(s, |y|)
    requires forall k: nat :: Filled(s) <= k < Order(s) ==> Slot(s, k) == 0
    ensures SlotsRead(s, y)
  {
    forall i ensures SlotRead(s, y, i) {
      assert 1 <= i <= Order(s) ==> s[s[0] + 1 + i] == Slot(s, i - 1);
    }
  }

  lemma PartialIs(sosType: int)
    ensures Partial(sosType) == if sosType <= -1 then -2 else -1
  {
  }

  /** Where the scan begins, and how many entries it reads, for every window. */
  lemma RunStarts(s: seq<int>)
    requires SosSets.Valid(s)
    ensures forall p, up, c :: c > 0 && Window(s, p, up, c) ==> c == Filled(s) && p == Index(s, Slot(s, 0))
  {
    forall p, up, c | c > 0 && Window(s, p, up, c) ensures c == Filled(s) && p == Index(s, Slot(s, 0)) {
      WindowFilled(s, p, up, c);
      FirstPosition(s, p, up, c);
    }
  }

  lemma NoRun(s: seq<int>)
    requires SosSets.Valid(s) && Filled(s) == 0
    ensures forall p, up, c :: c > 0 ==> !Window(s, p, up, c)
  {
    forall p, up, c | c > 0 ensures !Window(s, p, up, c) {
      if Window(s, p, up, c) {
        WindowFilled(s, p, up, c);
      }
    }
  }

  lemma TailZero(s: seq<int>, y: seq<real>, i0: nat, i: nat)
    requires SosSets.Valid(s) && EntriesIn(s, |y|) && 1 <= i0 <= i && ReadsZero(s, y, i0, i)
    requires i <= s[0] ==> Nonzero(s, y, i)
    ensures i > s[0] <==> ReadsZero(s, y, i0, s[0] + 1)
  {
  }

  /** There is a top frame, and it has recorded columns of the bound vector. */
  ghost predicate Undoing(fs: seq<Frame>, b: seq<real>) {
    fs != [] && InRange(fs[|fs| - 1], |b|)
  }

  /** The members at positions below `i` have been dealt with. */
  ghost predicate FixedBelow(s: seq<int>, variable: nat, b0: seq<real>, b: seq<real>, value: real, i: int)
    requires SosSets.Valid(s)
  {
    |b| == |b0| && forall j :: 0 <= j < |b| ==> b[j] == if ToFix(s, variable, j) && Index(s, j) < i then value else b0[j]
  }

  lemma NextFixed(s: seq<int>, variable: nat, b0: seq<real>, b: seq<real>, value: real, i: int)
    requires SosSets.Valid(s) && FixedBelow(s, variable, b0, b, value, i) && 1 <= i <= s[0] && 0 < s[i] < |b|
    requires !(FreeLeft(s, variable) <= i <= FreeRight(s, variable))
    ensures ToFix(s, variable, s[i]) && FixedBelow(s, variable, b0, b[s[i] := value], value, i + 1)
    ensures b[s[i]] == b0[s[i]]
  {
    IndexIs(s, s[i], i);
  }

  lemma SkipFixed(s: seq<int>, variable: nat, b0: seq<real>, b: seq<real>, value: real, i: int)
    requires SosSets.Valid(s) && FixedBelow(s, variable, b0, b, value, i) && 1 <= i <= s[0]
    requires s[i] < 0 || FreeLeft(s, variable) <= i <= FreeRight(s, variable)
    ensures FixedBelow(s, variable, b0, b, value, i + 1)
  {
  }

  lemma AllFixed(s: seq<int>, variable: nat, b0: seq<real>, b: seq<real>, value: real)
    requires SosSets.Valid(s) && FixedBelow(s, variable, b0, b, value, s[0] + 1)
    ensures forall j :: 0 <= j < |b| ==> b[j] == if ToFix(s, variable, j) then value else b0[j]
  {
  }

  /** Only the top frame has changed, and it now leads every column that was changed back to the bound it had
      before, and the others to where it led them before. */
  ghost predicate UndoIs(fs0: seq<Frame>, b0: seq<real>, fs: seq<Frame>, b: seq<real>) {
    && Undoing(fs0, b0) && Undoing(fs, b) && |fs| == |fs0| && |b| == |b0|
    && fs[..|fs| - 1] == fs0[..|fs| - 1]
    && UndoneTo(fs0[|fs| - 1], b0, fs[|fs| - 1], b)
  }

  ghost predicate UndoneTo(f0: Frame, b0: seq<real>, f: Frame, b: seq<real>)
    requires InRange(f0, |b0|) && InRange(f, |b|) && |b| == |b0|
  {
    forall j :: 0 <= j < |b| ==> Replay(f, b)[j] == if b[j] != b0[j] then b0[j] else Replay(f0, b0)[j]
  }

  /** The ladder still leads back to where it led before exactly if it did not lead a column that was changed
      anywhere but to the bound the column had. */
  lemma UndoKept(fs0: seq<Frame>, b0: seq<real>, fs: seq<Frame>, b: seq<real>)
    requires UndoIs(fs0, b0, fs, b)
    ensures Replay(fs[|fs| - 1], b) == Replay(fs0[|fs| - 1], b0)
       <==> forall j :: 0 <= j < |b| && b[j] != b0[j] ==> Replay(fs0[|fs| - 1], b0)[j] == b0[j]
  {
    var r, r0 := Replay(fs[|fs| - 1], b), Replay(fs0[|fs| - 1], b0);
    assert forall j :: 0 <= j < |b| ==> r[j] == if b[j] != b0[j] then b0[j] else r0[j];
  }

  /** So it does when every column that it has recorded stands at `value`, where the calls leave it, or where
      the frame leads it, as an undo leaves it. */
  lemma UndoKeptIf(fs0: seq<Frame>, b0: seq<real>, fs: seq<Frame>, b: seq<real>, value: real)
    requires UndoIs(fs0, b0, fs, b)
    requires forall j :: 0 <= j < |b| && b[j] != b0[j] ==> b[j] == value
    requires var f := fs0[|fs0| - 1]; forall e :: 0 <= e < |f| ==> b0[f[e].item] == value || b0[f[e].item] == Replay(f, b0)[f[e].item]
    ensures Replay(fs[|fs| - 1], b) == Replay(fs0[|fs| - 1], b0)
  {
    var f := fs0[|fs0| - 1];
    forall j | 0 <= j < |b| && b[j] != b0[j] ensures Replay(f, b0)[j] == b0[j] {
      ReplayAt(f, b0, j);
      var k := LastEntry(f, j);
      assert k >= 0 ==> f[k].item == j;
    }
    UndoKept(fs0, b0, fs, b);
  }

  /** Replaying a frame again changes nothing: after an undo all columns stand where the frame leads them. */
  lemma ReplayTwice(f: Frame, b: seq<real>)
    requires InRange(f, |b|)
    ensures Replay(f, Replay(f, b)) == Replay(f, b)
  {
    forall j | 0 <= j < |b| ensures Replay(f, Replay(f, b))[j] == Replay(f, b)[j] {
      ReplayAt(f, b, j);
      ReplayAt(f, Replay(f, b), j);
    }
  }

  lemma NothingFixed(fs: seq<Frame>, s: seq<int>, variable: nat, b: seq<real>, value: real)
    requires SosSets.Valid(s) && Undoing(fs, b)
    ensures UndoIs(fs, b, fs, b) && FixedBelow(s, variable, b, b, value, 1)
  {
    forall j | 0 <= j < |b| && ToFix(s, variable, j) ensures Index(s, j) >= 1 {
    }
  }

  /** Recording a change to a column that has not been changed yet. */
  lemma RecordedNext(f0: Frame, b0: seq<real>, f: Frame, b: seq<real>, ii: nat, value: real)
    requires |b| == |b0| && InRange(f0, |b0|) && InRange(f, |b|) && UndoneTo(f0, b0, f, b)
    requires ii < |b| && b[ii] == b0[ii] && b[ii] != value
    ensures InRange(f + [Change(ii, b[ii])], |b|)
    ensures UndoneTo(f0, b0, f + [Change(ii, b[ii])], b[ii := value])
  {
    var g, b' := f + [Change(ii, b[ii])], b[ii := value];
    assert g[..|f|] == f;
    forall j | 0 <= j < |b| ensures Replay(g, b')[j] == if b'[j] != b0[j] then b0[j] else Replay(f0, b0)[j] {
      ReplayAt(f, b', j);
      ReplayAt(f, b, j);
      assert Replay(g, b') == Replay(f, b')[ii := b[ii]];
    }
  }

  method RecordFix(changelog: UndoLadder, bound: array<real>, ii: nat, value: real, ghost fs0: seq<Frame>, ghost b0: seq<real>)
    requires changelog.Valid() && UndoIs(fs0, b0, changelog.frames, bound[..])
    requires ii < bound.Length == |b0| && bound[ii] == b0[ii] && bound[ii] != value
    modifies bound, changelog
    ensures changelog.Valid() && UndoIs(fs0, b0, changelog.frames, bound[..])
    ensures bound[..] == old(bound[..])[ii := value]
  {
    hide UndoLadder.Valid, UndoneTo;
    ghost var fs := changelog.frames;
    ghost var top := |fs| - 1;
    RecordedNext(fs0[top], b0, fs[top], bound[..], ii, value);
    changelog.Modify(ii, bound, value);
    assert changelog.frames[..top] == fs[..top];
  }
}
