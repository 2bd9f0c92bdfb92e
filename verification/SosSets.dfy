/** Special ordered sets of lp_SOS.c as values. A set is one packed list: the member count n, the n
    members (a marked member is stored negated), the order nn, and nn slots that hold the active columns
    in the order of their activation, filled up with zeros. */
module SosSets {
  import opened Numbers

  ghost predicate Valid(s: seq<int>) {
    && |s| >= 3 && 0 <= s[0] <= |s| - 3
    && s[s[0] + 1] == |s| - s[0] - 2
    && (forall i :: 1 <= i <= s[0] ==> s[i] != 0)
    && (forall i, j :: 1 <= i < j <= s[0] ==> Abs(s[i]) != Abs(s[j]))
    && (forall k :: s[0] + 2 <= k < |s| ==> s[k] >= 0)
  }

  function Order(s: seq<int>): int
    requires |s| > 0 && 0 <= s[0] < |s| - 1
  {
    s[s[0] + 1]
  }

  /** Slot `k` of the active list, counted from 0. */
  function Slot(s: seq<int>, k: nat): int
    requires |s| > 0 && 0 <= s[0] && s[0] + 2 + k < |s|
  {
    s[s[0] + 2 + k]
  }

  /** Position of the member `col` among the positions 1..k, or 0 (`SOS_member_index`). */
  function IndexTo(s: seq<int>, col: nat, k: nat): (i: nat)
    requires k < |s|
    ensures i <= k
    ensures i > 0 ==> Abs(s[i]) == col
    ensures i == 0 ==> forall j :: 1 <= j <= k ==> Abs(s[j]) != col
  {
    if k == 0 then 0 else if Abs(s[k]) == col then k else IndexTo(s, col, k - 1)
  }

  function Index(s: seq<int>, col: nat): (i: nat)
    requires |s| > 0 && 0 <= s[0] < |s|
    ensures i <= s[0]
    ensures i > 0 ==> Abs(s[i]) == col
    ensures i == 0 ==> forall j :: 1 <= j <= s[0] ==> Abs(s[j]) != col
  {
    IndexTo(s, col, s[0])
  }

  /** Number of slots before the first empty one, counted from slot `k`. */
  function FilledFrom(s: seq<int>, k: nat): (c: nat)
    requires Valid(s) && k <= Order(s)
    ensures c <= Order(s) - k
    ensures forall j: nat :: k <= j < k + c ==> Slot(s, j) != 0
    ensures k + c < Order(s) ==> Slot(s, k + c) == 0
    decreases Order(s) - k
  {
    if k == Order(s) || Slot(s, k) == 0 then 0 else 1 + FilledFrom(s, k + 1)
  }

  function Filled(s: seq<int>): nat
    requires Valid(s)
  {
    FilledFrom(s, 0)
  }

  /** `col` is in the active list (`SOS_is_active`). */
  predicate IsActive(s: seq<int>, col: nat)
    requires Valid(s)
  {
    exists k: nat :: k < Filled(s) && Slot(s, k) == col
  }

  predicate IsUnmarked(s: seq<int>, col: nat)
    requires Valid(s)
  {
    Index(s, col) > 0 && s[Index(s, col)] > 0
  }

  // ------------------------------------------------------------------ the operations

  /** `SOS_set_marked` on one set. */
  function SetMarked(s: seq<int>, col: nat, asactive: bool): (t: seq<int>)
    requires Valid(s)
  {
    var i := Index(s, col);
    if i == 0 || s[i] < 0 then s
    else
      var t := s[i := -s[i]];
      var c := Filled(s);
      if asactive && !IsActive(s, col) && c < Order(s) then t[s[0] + 2 + c := col] else t
  }

  /** First slot that holds `col`, from slot `k`. */
  function SlotOf(s: seq<int>, col: nat, k: nat): (j: nat)
    requires Valid(s) && k <= Order(s)
    ensures k <= j <= Order(s)
    ensures j < Order(s) ==> Slot(s, j) == col
    ensures forall q: nat :: k <= q < j ==> Slot(s, q) != col
    decreases Order(s) - k
  {
    if k == Order(s) || Slot(s, k) == col then k else SlotOf(s, col, k + 1)
  }

  /** `SOS_unmark` on one set: the slots after the one that held `col` move down. */
  function Unmarked(s: seq<int>, col: nat): (t: seq<int>)
    requires Valid(s)
  {
    var i := Index(s, col);
    if i == 0 || s[i] > 0 then s
    else
      var t := s[i := -s[i]];
      if IsActive(s, col) then
        var p := s[0] + 2 + SlotOf(s, col, 0);
        t[..p] + t[p + 1..] + [0]
      else t
  }

  /** Members among 1..k with a positive lower bound. */
  function BoundedMembers(s: seq<int>, lo: seq<real>, k: nat): nat
    requires k < |s| && forall i :: 1 <= i <= k ==> Abs(s[i]) < |lo|
  {
    if k == 0 then 0 else BoundedMembers(s, lo, k - 1) + if lo[Abs(s[k])] > 0.0 then 1 else 0
  }

  /** Active columns among the first `k` slots whose lower bound is zero. */
  function UnboundedActive(s: seq<int>, lo: seq<real>, k: nat): nat
    requires Valid(s) && k <= Order(s) && forall j: nat :: j < k ==> Slot(s, j) < |lo|
  {
    if k == 0 then 0 else UnboundedActive(s, lo, k - 1) + if lo[Slot(s, k - 1)] == 0.0 then 1 else 0
  }

  ghost predicate ColumnsIn(s: seq<int>, n: int)
    requires Valid(s)
  {
    && (forall i :: 1 <= i <= s[0] ==> Abs(s[i]) < n)
    && (forall k: nat :: k < Order(s) ==> Slot(s, k) < n)
  }

  /** `SOS_can_activate` on one set. */
  predicate CanActivate(s: seq<int>, col: nat, lo: seq<real>)
    requires Valid(s) && ColumnsIn(s, |lo|)
  {
    var i := Index(s, col);
    var c := Filled(s);
    if i == 0 then true
    else if Slot(s, Order(s) - 1) != 0 then false
    else if s[i] > 0 && lo[col] > 0.0 then false
    else if BoundedMembers(s, lo, s[0]) + UnboundedActive(s, lo, c) == Order(s) then false
    else if c == 0 then true
    else if Order(s) > 1 then
      !IsActive(s, col) &&
      var e := Index(s, Slot(s, c - 1));
      e > 0 && ((e > 1 && s[e - 1] == col) || (e < s[0] && s[e + 1] == col))
    else true
  }

  // ------------------------------------------------------------------ the window

  /** The position `k` steps from `p`, upward or downward. */
  function Pos(p: int, up: bool, k: int): int {
    if up then p + k else p - k
  }

  /** The active list holds `c` columns that occupy consecutive member positions from `p` in one
      direction, all of them marked, and is empty after that. */
  ghost predicate Window(s: seq<int>, p: int, up: bool, c: nat)
    requires Valid(s)
  {
    && c <= Order(s)
    && (forall k: nat :: k < c ==>
          1 <= Pos(p, up, k) <= s[0] && s[Pos(p, up, k)] < 0 && Slot(s, k) == -s[Pos(p, up, k)])
    && (forall k: nat :: c <= k < Order(s) ==> Slot(s, k) == 0)
  }

  ghost predicate Windowed(s: seq<int>)
    requires Valid(s)
  {
    exists p, up, c :: Window(s, p, up, c)
  }

  lemma {:induction false} FilledIs(s: seq<int>, k: nat, c: nat)
    requires Valid(s) && k + c <= Order(s)
    requires forall j: nat :: k <= j < k + c ==> Slot(s, j) != 0
    requires k + c < Order(s) ==> Slot(s, k + c) == 0
    ensures FilledFrom(s, k) == c
    decreases c
  {
    if c > 0 {
      FilledIs(s, k + 1, c - 1);
    }
  }

  lemma WindowFilled(s: seq<int>, p: int, up: bool, c: nat)
    requires Valid(s) && Window(s, p, up, c)
    ensures Filled(s) == c
  {
    FilledIs(s, 0, c);
  }

  /** A column that is not marked is not active. */
  lemma UnmarkedInactive(s: seq<int>, p: int, up: bool, c: nat, col: nat)
    requires Valid(s) && Window(s, p, up, c) && IsUnmarked(s, col)
    ensures !IsActive(s, col)
  {
    WindowFilled(s, p, up, c);
    forall k: nat | k < c ensures Slot(s, k) != col {
      assert Pos(p, up, k) != Index(s, col);
    }
  }

  /** Marking keeps the list well formed. */
  lemma MarkValid(s: seq<int>, col: nat, asactive: bool)
    requires Valid(s)
    ensures var t := SetMarked(s, col, asactive);
            Valid(t) && t[0] == s[0] && |t| == |s| && Order(t) == Order(s)
  {
    var i := Index(s, col);
    if i > 0 && s[i] > 0 {
      var t := SetMarked(s, col, asactive);
      assert forall j :: 1 <= j <= s[0] ==> Abs(t[j]) == Abs(s[j]);
    }
  }

  /** Marking a second time changes nothing. */
  lemma MarkTwice(s: seq<int>, col: nat, asactive: bool)
    requires Valid(s)
    ensures Valid(SetMarked(s, col, asactive)) && SetMarked(SetMarked(s, col, asactive), col, asactive) == SetMarked(s, col, asactive)
  {
    MarkValid(s, col, asactive);
    var i := Index(s, col);
    if i > 0 {
      IndexIs(SetMarked(s, col, asactive), col, i);
    }
  }

  lemma UnmarkedEntries(s: seq<int>, i: int, q: int)
    requires |s| > 0 && 0 <= s[0] && 1 <= i <= s[0] && s[0] + 2 <= q < |s|
    ensures var u := s[i := -s[i]]; var t := u[..q] + u[q + 1..] + [0];
            |t| == |s| && (forall j :: 0 <= j <= s[0] + 1 ==> t[j] == if j == i then -s[j] else s[j]) &&
            forall k :: s[0] + 2 <= k < |s| ==> t[k] == if k < q then s[k] else if k < |s| - 1 then s[k + 1] else 0
  {
  }

  /** Unmarking turns one sign and keeps the list well formed. */
  lemma UnmarkValid(s: seq<int>, col: nat, i: nat, t: seq<int>)
    requires Valid(s) && i == Index(s, col) > 0 && s[i] < 0 && t == Unmarked(s, col)
    ensures Valid(t) && |t| == |s| && t[0] == s[0] && t[i] == -s[i]
  {
    hide Valid, Index, IsActive, SlotOf, Order;
    if IsActive(s, col) {
      UnmarkActive(s, col, i, t);
    } else {
      SignTurned(s, s[i := -s[i]], i) by { SlotsPositive(s); }
      assert t == s[i := -s[i]];
    }
  }

  lemma SlotsPositive(s: seq<int>)
    requires Valid(s)
    ensures 0 <= s[0] <= |s| - 3 && forall k :: s[0] + 2 <= k < |s| ==> s[k] >= 0
  {
  }

  lemma UnmarkActive(s: seq<int>, col: nat, i: nat, t: seq<int>)
    requires Valid(s) && i == Index(s, col) > 0 && s[i] < 0 && t == Unmarked(s, col) && IsActive(s, col)
    ensures Valid(t) && |t| == |s| && t[0] == s[0] && t[i] == -s[i]
  {
    var q := s[0] + 2 + SlotOf(s, col, 0);
    assert t == var u := s[i := -s[i]]; u[..q] + u[q + 1..] + [0];
    ActiveSlot(s, col);
    hide Valid, Index, IsActive, SlotOf;
    SlotRemoved(s, i, q) by { SlotsPositive(s); }
  }

  lemma ActiveSlot(s: seq<int>, col: nat)
    requires Valid(s) && IsActive(s, col)
    ensures SlotOf(s, col, 0) < Order(s)
  {
    var k: nat :| k < Filled(s) && Slot(s, k) == col;
    assert k < Order(s);
    hide Valid;
  }

  lemma SlotRemoved(s: seq<int>, i: int, q: int)
    requires Valid(s) && 1 <= i <= s[0] && s[0] + 2 <= q < |s|
    ensures var u := s[i := -s[i]]; var t := u[..q] + u[q + 1..] + [0];
            Valid(t) && |t| == |s| && t[0] == s[0] && t[i] == -s[i]
  {
    var u := s[i := -s[i]];
    var t := u[..q] + u[q + 1..] + [0];
    UnmarkedEntries(s, i, q);
    assert |t| == |s| && (forall j :: 0 <= j <= s[0] + 1 ==> t[j] == if j == i then -s[j] else s[j]);
    SignTurned(s, t, i);
  }

  lemma SignTurned(s: seq<int>, t: seq<int>, i: int)
    requires Valid(s) && |t| == |s| && 1 <= i <= s[0]
    requires forall j :: 0 <= j <= s[0] + 1 ==> t[j] == if j == i then -s[j] else s[j]
    requires forall k :: s[0] + 2 <= k < |s| ==> t[k] >= 0
    ensures Valid(t)
  {
    assert forall j :: 1 <= j <= s[0] ==> Abs(t[j]) == Abs(s[j]);
    hide Abs;
  }

  /** Unmarking a second time changes nothing. */
  lemma UnmarkTwice(s: seq<int>, col: nat)
    requires Valid(s)
    ensures Valid(Unmarked(s, col)) && Unmarked(Unmarked(s, col), col) == Unmarked(s, col)
  {
    var i := Index(s, col);
    if i > 0 && s[i] < 0 {
      UnmarkValid(s, col, i, Unmarked(s, col));
      IndexIs(Unmarked(s, col), col, i);
    }
  }

  /** The active columns in the order of their activation. */
  ghost function Actives(s: seq<int>): (r: seq<int>)
    requires Valid(s)
    ensures |r| == Filled(s) && forall k :: 0 <= k < |r| ==> r[k] == Slot(s, k)
  {
    s[s[0] + 2..s[0] + 2 + Filled(s)]
  }

  /** Marking turns the sign of an unmarked member and nothing else among the members; with activation the column
      joins the active list, which has no holes, at its end, if it is not there yet and there is room. */
  lemma MarkMeans(s: seq<int>, col: nat, asactive: bool)
    requires Valid(s) && forall k: nat :: Filled(s) <= k < Order(s) ==> Slot(s, k) == 0
    ensures Valid(SetMarked(s, col, asactive))
    ensures !IsUnmarked(s, col) ==> SetMarked(s, col, asactive) == s
    ensures IsUnmarked(s, col) ==>
              var t := SetMarked(s, col, asactive);
              && t[0] == s[0] && (forall j :: 1 <= j <= s[0] ==> t[j] == if s[j] == col then -s[j] else s[j])
              && Actives(t) == Actives(s) + if asactive && col !in Actives(s) && |Actives(s)| < Order(s) then [col] else []
  {
    MarkValid(s, col, asactive);
    if IsUnmarked(s, col) {
      ActiveListed(s, col);
      var i := Index(s, col);
      OnlyMember(s, col, i);
      if asactive && !IsActive(s, col) && Filled(s) < Order(s) {
        MarkedEntries(s, i, Filled(s), col);
        hide Index, IsActive;
        PlusOne(s, SetMarked(s, col, asactive), Filled(s), col);
      } else {
        var t := SetMarked(s, col, asactive);
        assert t == s[i := -s[i]];
        assert forall k: nat :: k < Order(s) ==> Slot(t, k) == Slot(s, k);
        hide SetMarked, Index, IsActive;
        SameActives(s, t);
      }
    }
  }

  lemma OnlyMember(s: seq<int>, col: nat, i: nat)
    requires Valid(s) && 1 <= i <= s[0] && s[i] == col
    ensures col > 0 && forall j :: 1 <= j <= s[0] ==> (s[j] == col <==> j == i)
  {
  }

  lemma ActiveListed(s: seq<int>, col: nat)
    requires Valid(s)
    ensures IsActive(s, col) <==> col in Actives(s)
  {
    if IsActive(s, col) {
      var k: nat :| k < Filled(s) && Slot(s, k) == col;
      assert Actives(s)[k] == col;
    }
  }

  lemma SameActives(s: seq<int>, t: seq<int>)
    requires Valid(s) && Valid(t) && Order(t) == Order(s) && forall k: nat :: k < Order(s) ==> Slot(t, k) == Slot(s, k)
    ensures Actives(t) == Actives(s)
  {
    hide Slot, Valid;
    FilledIs(t, 0, Filled(s));
  }

  lemma PlusOne(s: seq<int>, t: seq<int>, c: nat, col: nat)
    requires Valid(s) && Valid(t) && Order(t) == Order(s) && c == Filled(s) < Order(s) && col > 0
    requires forall k: nat :: k < Order(s) ==> Slot(t, k) == if k == c then col else Slot(s, k)
    requires c + 1 < Order(s) ==> Slot(s, c + 1) == 0
    ensures Actives(t) == Actives(s) + [col]
  {
    hide Slot, Valid;
    FilledIs(t, 0, c + 1);
  }

  /** Unmarking an active column takes it out of the active list and leaves the others in their order. */
  lemma UnmarkedActives(s: seq<int>, col: nat) returns (k: nat)
    requires Valid(s) && Index(s, col) > 0 && s[Index(s, col)] < 0 && IsActive(s, col)
    ensures Valid(Unmarked(s, col)) && k < |Actives(s)| && Actives(s)[k] == col
    ensures Actives(Unmarked(s, col)) == Actives(s)[..k] + Actives(s)[k + 1..]
  {
    k := SlotOf(s, col, 0);
    hide *;
    var t := UnmarkedList(s, col, k);
    ActivesShifted(s, t, k);
  }

  lemma UnmarkedList(s: seq<int>, col: nat, k: nat) returns (t: seq<int>)
    requires Valid(s) && Index(s, col) > 0 && s[Index(s, col)] < 0 && IsActive(s, col) && 0 < Order(s) && k == SlotOf(s, col, 0)
    ensures t == Unmarked(s, col) && Valid(t) && Order(t) == Order(s) && k < Filled(s) <= Order(s) && Slot(s, k) == col
    ensures forall j: nat :: j < Order(s) ==> SlotAfter(s, t, k, j)
    ensures |t| == |s| && forall j :: 1 <= j <= s[0] ==> t[j] == if j == Index(s, col) then -s[j] else s[j]
  {
    t := Unmarked(s, col);
    hide *;
    FirstSlotOf(s, col);
    UnmarkValid(s, col, Index(s, col), t);
    UnmarkedHere(s, col, Index(s, col), k);
    SlotsShifted(s, t, Index(s, col), k);
  }

  lemma UnmarkedHere(s: seq<int>, col: nat, i: nat, k: nat)
    requires Valid(s) && i == Index(s, col) > 0 && s[i] < 0 && IsActive(s, col) && k == SlotOf(s, col, 0) < Filled(s)
    ensures 1 <= i <= s[0] && k < Order(s) && s[0] + 2 + k < |s|
    ensures Unmarked(s, col) == var q := s[0] + 2 + k; var u := s[i := -s[i]]; u[..q] + u[q + 1..] + [0]
  {
    assert Filled(s) <= Order(s) && i <= s[0] && |s| == s[0] + 2 + Order(s);
    var t := s[i := -s[i]];
    hide IsActive, SlotOf, Valid, Index, Filled, Order;
    assert Unmarked(s, col) == t[..s[0] + 2 + k] + t[s[0] + 2 + k + 1..] + [0];
  }

  lemma ActivesShifted(s: seq<int>, t: seq<int>, k: nat)
    requires Valid(s) && Valid(t) && Order(t) == Order(s) && k < Filled(s)
    requires forall j: nat :: j < Order(s) ==> SlotAfter(s, t, k, j)
    ensures k < |Actives(s)| && Actives(s)[k] == Slot(s, k) && Actives(t) == Actives(s)[..k] + Actives(s)[k + 1..]
  {
    var c := Filled(s);
    assert c <= Order(s);
    forall j: nat | j < c - 1 ensures Slot(t, j) != 0 {
      assert Slot(s, j) != 0 && Slot(s, j + 1) != 0 && SlotAfter(s, t, k, j);
    }
    assert c - 1 < Order(t) && Slot(t, c - 1) == 0 by {
      assert SlotAfter(s, t, k, c - 1);
    }
    FilledIs(t, 0, c - 1);
    ListEqual(Actives(t), Actives(s), k, c, s, t);
  }

  /** Slot `j` after slot `k` has been taken out. */
  ghost predicate SlotAfter(s: seq<int>, t: seq<int>, k: nat, j: nat)
    requires Valid(s) && Valid(t) && Order(t) == Order(s) && j < Order(s)
  {
    Slot(t, j) == if j < k then Slot(s, j) else if j + 1 < Order(s) then Slot(s, j + 1) else 0
  }

  lemma ListEqual(r: seq<int>, r0: seq<int>, k: nat, c: nat, s: seq<int>, t: seq<int>)
    requires Valid(s) && Valid(t) && Order(t) == Order(s) && k < c <= Order(s) && |r0| == c && |r| == c - 1
    requires forall j :: 0 <= j < c ==> r0[j] == Slot(s, j)
    requires forall j :: 0 <= j < c - 1 ==> r[j] == Slot(t, j)
    requires forall j: nat :: j < Order(s) ==> SlotAfter(s, t, k, j)
    ensures r == r0[..k] + r0[k + 1..]
  {
    var u := r0[..k] + r0[k + 1..];
    forall j | 0 <= j < c - 1 ensures r[j] == u[j] {
      assert SlotAfter(s, t, k, j) && r[j] == Slot(t, j);
      assert u[j] == if j < k then r0[j] else r0[j + 1];
    }
  }

  lemma FirstSlotOf(s: seq<int>, col: nat)
    requires Valid(s) && IsActive(s, col)
    ensures SlotOf(s, col, 0) < Filled(s) && Slot(s, SlotOf(s, col, 0)) == col
  {
    var j: nat :| j < Filled(s) && Slot(s, j) == col;
    SlotOfAtMost(s, col, 0, j);
    hide Valid;
  }

  lemma {:induction false} SlotOfAtMost(s: seq<int>, col: nat, k: nat, j: nat)
    requires Valid(s) && k <= j < Order(s) && Slot(s, j) == col
    ensures SlotOf(s, col, k) <= j && Slot(s, SlotOf(s, col, k)) == col
    decreases j - k
  {
    if Slot(s, k) != col {
      SlotOfAtMost(s, col, k + 1, j);
    }
  }

  lemma SlotsShifted(s: seq<int>, t: seq<int>, i: nat, k: nat)
    requires Valid(s) && Valid(t) && |t| == |s| && t[0] == s[0] && 1 <= i <= s[0] && k < Order(s)
    requires t == var q := s[0] + 2 + k; var u := s[i := -s[i]]; u[..q] + u[q + 1..] + [0]
    ensures Order(t) == Order(s) && forall j :: 1 <= j <= s[0] ==> t[j] == if j == i then -s[j] else s[j]
    ensures forall j: nat :: j < Order(s) ==> SlotAfter(s, t, k, j)
  {
    UnmarkedEntries(s, i, s[0] + 2 + k);
    forall j: nat | j < Order(s) ensures SlotAfter(s, t, k, j) {
      assert Slot(t, j) == t[s[0] + 2 + j];
      assert s[0] + 2 + j < |s|;
    }
  }

  /** A plain mark keeps the window. */
  lemma MarkKeepsWindow(s: seq<int>, p: int, up: bool, c: nat, col: nat)
    requires Valid(s) && Window(s, p, up, c)
    ensures Valid(SetMarked(s, col, false)) && Window(SetMarked(s, col, false), p, up, c)
  {
    MarkValid(s, col, false);
    var t := SetMarked(s, col, false);
    forall k: nat | k < c ensures 1 <= Pos(p, up, k) <= s[0] && t[Pos(p, up, k)] < 0 && Slot(t, k) == -t[Pos(p, up, k)] {
      assert Slot(t, k) == Slot(s, k);
    }
    forall k: nat | c <= k < Order(s) ensures Slot(t, k) == 0 {
      assert Slot(t, k) == Slot(s, k);
    }
  }

  /** A guarded activation extends the window by one position at the end last extended. */
  lemma ActivateKeepsWindow(s: seq<int>, p: int, up: bool, c: nat, col: nat, lo: seq<real>) returns (p': int, up': bool)
    requires Valid(s) && Window(s, p, up, c) && ColumnsIn(s, |lo|)
    requires IsUnmarked(s, col) && CanActivate(s, col, lo)
    ensures Valid(SetMarked(s, col, true)) && Window(SetMarked(s, col, true), p', up', c + 1)
    ensures c > 0 ==> p' == p && (c > 1 ==> up' == up)
  {
    MarkValid(s, col, true);
    WindowFilled(s, p, up, c);
    UnmarkedInactive(s, p, up, c, col);
    var i := Index(s, col);
    p', up' := i, true;
    if c > 0 {
      p' := p;
      up' := Neighbour(s, p, up, c, col, lo);
    }
    ExtendWindow(s, p, up, c, p', up', col);
  }

  /** An activation that is allowed beside active columns is next to the last of them, on the free side. */
  lemma Neighbour(s: seq<int>, p: int, up: bool, c: nat, col: nat, lo: seq<real>) returns (up': bool)
    requires Valid(s) && Window(s, p, up, c) && ColumnsIn(s, |lo|) && c > 0 && c == Filled(s)
    requires IsUnmarked(s, col) && CanActivate(s, col, lo)
    ensures c < Order(s) && Index(s, col) == Pos(p, up', c) && (c > 1 ==> up' == up)
  {
    LastPosition(s, p, up, c);
    assert Slot(s, Order(s) - 1) == 0;
    var e := Pos(p, up, c - 1);
    var i := if e > 1 && s[e - 1] == col then e - 1 else e + 1;
    assert s[i] == col;
    IndexIs(s, col, i);
    if c > 1 {
      assert s[Pos(p, up, c - 2)] < 0;
      up' := up;
    } else {
      up' := i == e + 1;
    }
  }

  // ------------------------------------------------------------------ what the guard allows

  /** The positions of the members that are active or kept above zero by their lower bounds. */
  ghost function Taken(s: seq<int>, lo: seq<real>): set<int>
    requires Valid(s) && ColumnsIn(s, |lo|)
  {
    set i | 1 <= i <= s[0] && (lo[Abs(s[i])] > 0.0 || IsActive(s, Abs(s[i])))
  }

  ghost predicate NoneBelowZero(s: seq<int>, lo: seq<real>)
    requires Valid(s) && ColumnsIn(s, |lo|)
  {
    forall i :: 1 <= i <= s[0] ==> lo[Abs(s[i])] >= 0.0
  }

  /** In a windowed set the active columns are the members at the positions of the run. */
  lemma ActiveInRun(s: seq<int>, p: int, up: bool, c: nat, i: int)
    requires Valid(s) && Window(s, p, up, c) && 1 <= i <= s[0]
    ensures IsActive(s, Abs(s[i])) <==> if up then p <= i < p + c else p - c < i <= p
  {
    WindowFilled(s, p, up, c);
    var k := if up then i - p else p - i;
    if 0 <= k < c {
      assert Pos(p, up, k) == i && Slot(s, k) == -s[i];
    }
    if IsActive(s, Abs(s[i])) {
      var q: nat :| q < c && Slot(s, q) == Abs(s[i]);
      assert Abs(s[Pos(p, up, q)]) == Abs(s[i]);
    }
  }

  ghost function BoundedTo(s: seq<int>, lo: seq<real>, k: int): set<int>
    requires Valid(s) && ColumnsIn(s, |lo|) && k <= s[0]
  {
    set i | 1 <= i <= k && lo[Abs(s[i])] > 0.0
  }

  lemma {:induction false} BoundedSize(s: seq<int>, lo: seq<real>, k: nat)
    requires Valid(s) && ColumnsIn(s, |lo|) && k <= s[0]
    ensures BoundedMembers(s, lo, k) == |BoundedTo(s, lo, k)|
  {
    if k == 0 {
      assert BoundedTo(s, lo, 0) == {};
    } else {
      BoundedSize(s, lo, k - 1);
      hide Valid;
      assert BoundedTo(s, lo, k) == BoundedTo(s, lo, k - 1) + if lo[Abs(s[k])] > 0.0 then {k} else {};
    }
  }

  /** The first `k` positions of the run whose columns have lower bound zero. */
  ghost function RunTo(s: seq<int>, lo: seq<real>, p: int, up: bool, k: nat): set<int>
    requires Valid(s) && ColumnsIn(s, |lo|) && k <= Order(s)
  {
    if k == 0 then {} else RunTo(s, lo, p, up, k - 1) + if lo[Slot(s, k - 1)] == 0.0 then {Pos(p, up, k - 1)} else {}
  }

  lemma {:induction false} RunIn(s: seq<int>, lo: seq<real>, p: int, up: bool, k: nat, i: int)
    requires Valid(s) && ColumnsIn(s, |lo|) && k <= Order(s)
    ensures i in RunTo(s, lo, p, up, k) <==> InRun(s, lo, k, if up then i - p else p - i)
  {
    if k > 0 {
      RunIn(s, lo, p, up, k - 1, i);
    }
  }

  ghost predicate InRun(s: seq<int>, lo: seq<real>, k: nat, q: int)
    requires Valid(s) && ColumnsIn(s, |lo|) && k <= Order(s)
  {
    0 <= q < k && lo[Slot(s, q)] == 0.0
  }

  lemma {:induction false} RunSize(s: seq<int>, lo: seq<real>, p: int, up: bool, k: nat)
    requires Valid(s) && ColumnsIn(s, |lo|) && k <= Order(s)
    ensures UnboundedActive(s, lo, k) == |RunTo(s, lo, p, up, k)|
  {
    if k > 0 {
      RunSize(s, lo, p, up, k - 1);
      hide *;
      RunNext(s, lo, p, up, k);
    }
  }

  lemma RunNext(s: seq<int>, lo: seq<real>, p: int, up: bool, k: nat)
    requires Valid(s) && ColumnsIn(s, |lo|) && 1 <= k <= Order(s) && UnboundedActive(s, lo, k - 1) == |RunTo(s, lo, p, up, k - 1)|
    ensures UnboundedActive(s, lo, k) == |RunTo(s, lo, p, up, k)|
  {
    RunIn(s, lo, p, up, k - 1, Pos(p, up, k - 1));
    hide Valid, ColumnsIn, Slot;
  }

  /** The count of the guard is the number of those members. */
  lemma TakenSize(s: seq<int>, p: int, up: bool, c: nat, lo: seq<real>)
    requires Valid(s) && Window(s, p, up, c) && ColumnsIn(s, |lo|) && NoneBelowZero(s, lo)
    ensures BoundedMembers(s, lo, s[0]) + UnboundedActive(s, lo, c) == |Taken(s, lo)|
    ensures c <= |Taken(s, lo)|
  {
    var b, r, t := BoundedTo(s, lo, s[0]), RunTo(s, lo, p, up, c), Taken(s, lo);
    BoundedSize(s, lo, s[0]);
    RunSize(s, lo, p, up, c);
    RunInTaken(s, p, up, c, lo);
    forall i ensures i in t <==> i in b || i in r {
      TakenAt(s, p, up, c, lo, i);
    }
    forall i ensures !(i in b && i in r) {
      TakenAt(s, p, up, c, lo, i);
    }
    hide *;
    assert t == b + r && b !! r;
  }

  lemma TakenAt(s: seq<int>, p: int, up: bool, c: nat, lo: seq<real>, i: int)
    requires Valid(s) && Window(s, p, up, c) && ColumnsIn(s, |lo|) && NoneBelowZero(s, lo)
    ensures i in Taken(s, lo) <==> i in BoundedTo(s, lo, s[0]) || i in RunTo(s, lo, p, up, c)
    ensures !(i in BoundedTo(s, lo, s[0]) && i in RunTo(s, lo, p, up, c))
  {
    RunIn(s, lo, p, up, c, i);
    var q := if up then i - p else p - i;
    if 0 <= q < c {
      assert Pos(p, up, q) == i && 1 <= i <= s[0] && Slot(s, q) == Abs(s[i]);
    }
    if 1 <= i <= s[0] {
      ActiveInRun(s, p, up, c, i);
    }
    hide IsActive, Valid, Window, RunTo, Slot, Pos;
  }

  lemma RunInTaken(s: seq<int>, p: int, up: bool, c: nat, lo: seq<real>)
    requires Valid(s) && Window(s, p, up, c) && ColumnsIn(s, |lo|)
    ensures c <= |Taken(s, lo)|
  {
    var run := RunSpan(p, up, c);
    RunHas(p, up, c);
    forall i | i in run ensures i in Taken(s, lo) {
      var q := if up then i - p else p - i;
      assert Pos(p, up, q) == i;
      ActiveInRun(s, p, up, c, i);
    }
    assert Taken(s, lo) == run + (Taken(s, lo) - run);
  }

  ghost function RunSpan(p: int, up: bool, c: nat): set<int> {
    if c == 0 then {} else RunSpan(p, up, c - 1) + {Pos(p, up, c - 1)}
  }

  lemma {:induction false} RunHas(p: int, up: bool, c: nat)
    ensures |RunSpan(p, up, c)| == c
    ensures forall i :: i in RunSpan(p, up, c) <==> if up then p <= i < p + c else p - c < i <= p
  {
    if c > 0 {
      RunHas(p, up, c - 1);
      var before, x := RunSpan(p, up, c - 1), Pos(p, up, c - 1);
      assert RunSpan(p, up, c) == before + {x} && x !in before;
      assert x == if up then p + c - 1 else p - c + 1;
      hide RunSpan;
      assert forall i :: i in before + {x} <==> i in before || i == x;
    }
  }

  /** The guard, exactly, for an unmarked member of a windowed set with no lower bound below zero: its own
      lower bound is zero, there is room, the number of members that are active or kept above zero is not the
      order, and its position is next to the last of the run on the free side (either side of a run of one). */
  lemma GuardExact(s: seq<int>, p: int, up: bool, c: nat, col: nat, lo: seq<real>)
    requires Valid(s) && Window(s, p, up, c) && ColumnsIn(s, |lo|) && NoneBelowZero(s, lo) && IsUnmarked(s, col)
    ensures col < |lo|
    ensures CanActivate(s, col, lo) <==>
              && lo[col] == 0.0 && c < Order(s) && |Taken(s, lo)| != Order(s)
              && (c == 0 || Index(s, col) == Pos(p, up, c) || (c == 1 && Index(s, col) == Pos(p, !up, 1)))
  {
    WindowFilled(s, p, up, c);
    TakenSize(s, p, up, c, lo);
    UnmarkedInactive(s, p, up, c, col);
    LastFree(s, p, up, c);
    var i := Index(s, col);
    assert Abs(s[i]) == col && s[i] == col;
    if c > 0 {
      LastPosition(s, p, up, c);
      Beside(s, p, up, c, i);
      IsBeside(s, col, i, Pos(p, up, c - 1));
    }
    hide IsActive, BoundedMembers, UnboundedActive, Taken, Window, Index, Slot, Filled;
  }

  lemma LastFree(s: seq<int>, p: int, up: bool, c: nat)
    requires Valid(s) && Window(s, p, up, c)
    ensures Slot(s, Order(s) - 1) == 0 <==> c < Order(s)
  {
    if c == Order(s) {
      assert Slot(s, c - 1) == -s[Pos(p, up, c - 1)];
    }
  }

  /** An unmarked position beside the last of the run is on its free side. */
  lemma Beside(s: seq<int>, p: int, up: bool, c: nat, i: int)
    requires Valid(s) && Window(s, p, up, c) && c > 0 && 1 <= i <= s[0] && s[i] > 0
    ensures var e := Pos(p, up, c - 1);
            i == e - 1 || i == e + 1 <==> i == Pos(p, up, c) || (c == 1 && i == Pos(p, !up, 1))
  {
    if c > 1 {
      assert s[Pos(p, up, c - 2)] < 0;
    }
  }

  lemma IsBeside(s: seq<int>, col: nat, i: nat, e: int)
    requires Valid(s) && 1 <= e <= s[0] && 1 <= i <= s[0] && s[i] == col
    ensures (e > 1 && s[e - 1] == col) || (e < s[0] && s[e + 1] == col) <==> i == e - 1 || i == e + 1
  {
  }

  /** So, as long as no more members than the order are taken, there must be fewer. */
  lemma GuardRoom(s: seq<int>, p: int, up: bool, c: nat, col: nat, lo: seq<real>)
    requires Valid(s) && Window(s, p, up, c) && ColumnsIn(s, |lo|) && NoneBelowZero(s, lo) && IsUnmarked(s, col)
    requires |Taken(s, lo)| <= Order(s)
    ensures col < |lo|
    ensures CanActivate(s, col, lo) <==>
              && lo[col] == 0.0 && |Taken(s, lo)| < Order(s)
              && (c == 0 || Index(s, col) == Pos(p, up, c) || (c == 1 && Index(s, col) == Pos(p, !up, 1)))
  {
    GuardExact(s, p, up, c, col, lo);
    RunInTaken(s, p, up, c, lo);
    hide CanActivate, Taken, Window;
  }

  /** A member that is marked already is allowed only while nothing is active. */
  lemma GuardMarked(s: seq<int>, p: int, up: bool, c: nat, col: nat, lo: seq<real>)
    requires Valid(s) && Window(s, p, up, c) && ColumnsIn(s, |lo|) && NoneBelowZero(s, lo)
    requires Index(s, col) > 0 && s[Index(s, col)] < 0
    ensures CanActivate(s, col, lo) <==> c == 0 && |Taken(s, lo)| != Order(s)
  {
    WindowFilled(s, p, up, c);
    TakenSize(s, p, up, c, lo);
    LastFree(s, p, up, c);
    assert forall j :: 1 <= j <= s[0] ==> s[j] != col by {
      forall j | 1 <= j <= s[0] ensures s[j] != col {
        assert Abs(s[Index(s, col)]) == col;
      }
    }
    hide IsActive, BoundedMembers, UnboundedActive, Taken, Window, Slot, Filled;
  }

  /** With more members kept above zero than the order allows, the guard lets another one in. */
  lemma GuardOverfull()
    ensures var s, lo := [3, 5, 6, 7, 1, 0], [0.0, 0.0, 0.0, 0.0, 0.0, 1.0, 1.0, 0.0];
            Valid(s) && ColumnsIn(s, |lo|) && Window(s, 1, true, 0) && CanActivate(s, 7, lo)
            && lo[5] > 0.0 && lo[6] > 0.0 && Order(s) == 1
  {
    var s, lo := [3, 5, 6, 7, 1, 0], [0.0, 0.0, 0.0, 0.0, 0.0, 1.0, 1.0, 0.0];
    IndexIs(s, 7, 3);
    assert Filled(s) == 0;
    assert BoundedMembers(s, lo, 0) == 0 && BoundedMembers(s, lo, 1) == 1 && BoundedMembers(s, lo, 2) == 2 && BoundedMembers(s, lo, 3) == 2;
  }

  lemma ExtendWindow(s: seq<int>, p: int, up: bool, c: nat, p': int, up': bool, col: nat)
    requires Valid(s) && Window(s, p, up, c) && c < Order(s) && c == Filled(s) && IsUnmarked(s, col) && !IsActive(s, col)
    requires Index(s, col) == Pos(p', up', c)
    requires c > 0 ==> p' == p && (c > 1 ==> up' == up)
    requires Valid(SetMarked(s, col, true))
    ensures Window(SetMarked(s, col, true), p', up', c + 1)
  {
    ActivatedList(s, col, c);
    var t := SetMarked(s, col, true);
    WindowIsRun(s, p, up, c);
    assert col > 0;
    hide *;
    ExtendRun(s, t, p, up, c, p', up', col);
    RunIsWindow(t, p', up', c + 1);
  }

  lemma WindowIsRun(s: seq<int>, p: int, up: bool, c: nat)
    requires Valid(s) && Window(s, p, up, c)
    ensures Run(s, p, up, c)
  {
  }

  lemma RunIsWindow(s: seq<int>, p: int, up: bool, c: nat)
    requires Valid(s) && Run(s, p, up, c)
    ensures Window(s, p, up, c)
  {
  }

  /** The active part of a window, on any packed list. */
  ghost predicate Run(s: seq<int>, p: int, up: bool, c: nat) {
    && |s| > 0 && 0 <= s[0] && s[0] + 2 + c <= |s|
    && (forall k: nat :: k < c ==>
          1 <= Pos(p, up, k) <= s[0] && s[Pos(p, up, k)] < 0 && Slot(s, k) == -s[Pos(p, up, k)])
    && (forall k: nat :: c <= k && s[0] + 2 + k < |s| ==> Slot(s, k) == 0)
  }

  lemma ExtendRun(s: seq<int>, t: seq<int>, p: int, up: bool, c: nat, p': int, up': bool, col: nat)
    requires Run(s, p, up, c) && |t| == |s| && t[0] == s[0] && s[0] + 2 + c < |s|
    requires 1 <= Pos(p', up', c) <= s[0] && s[Pos(p', up', c)] == col > 0
    requires c > 0 ==> p' == p && (c > 1 ==> up' == up)
    requires forall j :: 1 <= j <= s[0] ==> t[j] == if j == Pos(p', up', c) then -s[j] else s[j]
    requires forall k: nat :: s[0] + 2 + k < |s| ==> Slot(t, k) == if k == c then col else Slot(s, k)
    ensures Run(t, p', up', c + 1)
  {
    hide Slot;
    forall k: nat | k < c ensures Pos(p', up', k) == Pos(p, up, k) {
    }
    assert Slot(t, c) == col;
  }

  /** Activating an unmarked column while there is room changes one sign and one slot. */
  lemma ActivatedList(s: seq<int>, col: nat, c: nat)
    requires Valid(s) && c == Filled(s) < Order(s) && IsUnmarked(s, col) && !IsActive(s, col)
    ensures var i := Index(s, col); var t := SetMarked(s, col, true);
            && 1 <= i <= s[0] && s[i] == col && s[0] + 2 + c < |s| && t == s[i := -s[i]][s[0] + 2 + c := col]
            && t[0] == s[0] && |t| == |s| && Order(t) == Order(s) == |s| - s[0] - 2
            && (forall j :: 1 <= j <= s[0] ==> t[j] == if j == i then -s[j] else s[j])
            && (forall k: nat :: s[0] + 2 + k < |s| ==> Slot(t, k) == if k == c then col else Slot(s, k))
  {
    MarkedEntries(s, Index(s, col), c, col);
  }

  lemma MarkedEntries(s: seq<int>, i: nat, c: nat, col: nat)
    requires |s| > 0 && 0 <= s[0] && 1 <= i <= s[0] && s[0] + 2 + c < |s|
    ensures var t := s[i := -s[i]][s[0] + 2 + c := col];
            && t[0] == s[0] && |t| == |s|
            && (forall j :: 1 <= j <= s[0] ==> t[j] == if j == i then -s[j] else s[j])
            && (forall k: nat :: s[0] + 2 + k < |s| ==> Slot(t, k) == if k == c then col else Slot(s, k))
  {
  }

  /** The last active column is found at the last position of the window. */
  lemma LastPosition(s: seq<int>, p: int, up: bool, c: nat)
    requires Valid(s) && Window(s, p, up, c) && c > 0
    ensures Slot(s, c - 1) > 0 && Index(s, Slot(s, c - 1)) == Pos(p, up, c - 1)
  {
    var q := Pos(p, up, c - 1);
    IndexIs(s, Slot(s, c - 1), q);
  }

  lemma IndexIs(s: seq<int>, col: nat, i: nat)
    requires Valid(s) && 1 <= i <= s[0] && Abs(s[i]) == col
    ensures Index(s, col) == i
  {
  }

  /** Marking an unmarked column and unmarking it again restores the list exactly. */
  lemma UnmarkRestores(s: seq<int>, p: int, up: bool, c: nat, col: nat, asactive: bool)
    requires Valid(s) && Window(s, p, up, c) && IsUnmarked(s, col)
    ensures Valid(SetMarked(s, col, asactive)) && Unmarked(SetMarked(s, col, asactive), col) == s
  {
    MarkValid(s, col, asactive);
    WindowFilled(s, p, up, c);
    UnmarkedInactive(s, p, up, c, col);
    hide Unmarked, Valid, Index, Slot, IsActive, IsUnmarked;
    if asactive && c < Order(s) {
      ActiveRestores(s, col, c);
    } else {
      PlainRestores(s, col, c);
    }
  }

  lemma SameSlots(s: seq<int>, t: seq<int>, col: nat, c: nat)
    requires Valid(s) && Valid(t) && |t| == |s| && t[0] == s[0] && c == Filled(s) && !IsActive(s, col)
    requires forall j :: s[0] + 2 <= j < |s| ==> t[j] == s[j]
    ensures !IsActive(t, col)
  {
    assert forall k: nat :: k < Order(s) ==> Slot(t, k) == Slot(s, k);
    FilledIs(t, 0, c);
  }

  lemma PlainRestores(s: seq<int>, col: nat, c: nat)
    requires Valid(s) && IsUnmarked(s, col) && c == Filled(s) && !IsActive(s, col)
    ensures var t := s[Index(s, col) := -s[Index(s, col)]];
            Valid(t) && Unmarked(t, col) == s
  {
    MarkValid(s, col, false);
    var i := Index(s, col);
    var t := s[i := -s[i]];
    IndexIs(t, col, i);
    SameSlots(s, t, col, c);
    hide Filled, IsActive, Index, Valid;
    assert t[i := -t[i]] == s;
  }

  lemma ActiveRestores(s: seq<int>, col: nat, c: nat)
    requires Valid(s) && IsUnmarked(s, col) && c == Filled(s) < Order(s) && !IsActive(s, col)
    requires forall k: nat :: c <= k < Order(s) ==> Slot(s, k) == 0
    requires Valid(SetMarked(s, col, true))
    ensures Unmarked(SetMarked(s, col, true), col) == s
  {
    var i := Index(s, col);
    ActivatedList(s, col, c);
    BeforeFilled(s, col, c);
    NewSlot(s, SetMarked(s, col, true), col, i, c);
    RemoveLastSlot(s, i, c, col);
  }

  lemma NewSlot(s: seq<int>, t: seq<int>, col: nat, i: nat, c: nat)
    requires Valid(s) && Valid(t) && t[0] == s[0] && |t| == |s| && c < Order(s)
    requires forall k: nat :: k < c ==> Slot(s, k) != 0 && Slot(s, k) != col
    requires forall k: nat :: c <= k < Order(s) ==> Slot(s, k) == 0
    requires forall k: nat :: s[0] + 2 + k < |s| ==> Slot(t, k) == if k == c then col else Slot(s, k)
    requires 1 <= i <= s[0] && t[i] < 0 && Abs(t[i]) == col && col > 0
    ensures Unmarked(t, col) == var u := t[i := -t[i]]; var q := t[0] + 2 + c; u[..q] + u[q + 1..] + [0]
    ensures forall j :: s[0] + 2 + c <= j < |s| ==> s[j] == 0
  {
    NewFilled(s, t, col, c);
    hide *;
    EmptyTail(s, c);
    IndexIs(t, col, i);
    SlotIs(t, col, c);
    UnmarkedIs(t, col, i, c);
  }

  lemma NewFilled(s: seq<int>, t: seq<int>, col: nat, c: nat)
    requires Valid(s) && Valid(t) && t[0] == s[0] && |t| == |s| && c < Order(s) && col > 0
    requires forall k: nat :: k < c ==> Slot(s, k) != 0 && Slot(s, k) != col
    requires forall k: nat :: c <= k < Order(s) ==> Slot(s, k) == 0
    requires forall k: nat :: s[0] + 2 + k < |s| ==> Slot(t, k) == if k == c then col else Slot(s, k)
    ensures c < Order(t) && Filled(t) == c + 1 && Slot(t, c) == col && forall k: nat :: k < c ==> Slot(t, k) != col
  {
    FilledIs(t, 0, c + 1);
  }

  lemma UnmarkedIs(t: seq<int>, col: nat, i: nat, c: nat)
    requires Valid(t) && Index(t, col) == i > 0 && t[i] < 0 && IsActive(t, col) && SlotOf(t, col, 0) == c < Order(t)
    ensures Unmarked(t, col) == var u := t[i := -t[i]]; var q := t[0] + 2 + c; u[..q] + u[q + 1..] + [0]
  {
    hide Index, IsActive, SlotOf;
  }

  lemma EmptyTail(s: seq<int>, c: nat)
    requires Valid(s) && c < Order(s) && forall k: nat :: c <= k < Order(s) ==> Slot(s, k) == 0
    ensures forall j :: s[0] + 2 + c <= j < |s| ==> s[j] == 0
  {
    forall j | s[0] + 2 + c <= j < |s| ensures s[j] == 0 {
      assert Slot(s, j - s[0] - 2) == 0;
    }
  }

  lemma BeforeFilled(s: seq<int>, col: nat, c: nat)
    requires Valid(s) && c == Filled(s) && !IsActive(s, col)
    ensures forall k: nat :: k < c ==> Slot(s, k) != 0 && Slot(s, k) != col
  {
  }

  lemma SlotIs(t: seq<int>, col: nat, c: nat)
    requires Valid(t) && c < Order(t) && Slot(t, c) == col && forall k: nat :: k < c ==> Slot(t, k) != col
    requires Filled(t) == c + 1
    ensures IsActive(t, col) && SlotOf(t, col, 0) == c
  {
  }

  lemma RemoveLastSlot(s: seq<int>, i: nat, c: nat, col: nat)
    requires |s| > 0 && 0 <= s[0] && 1 <= i <= s[0] && s[0] + 2 + c < |s| && s[i] == col
    requires forall k :: s[0] + 2 + c <= k < |s| ==> s[k] == 0
    ensures var t := s[i := -s[i]][s[0] + 2 + c := col]; var u := t[i := -t[i]]; var q := t[0] + 2 + c;
            u[..q] + u[q + 1..] + [0] == s
  {
  }

  /** Marking and unmarking leave every column at its position. */
  lemma MarkKeepsIndex(s: seq<int>, col: nat, asactive: bool, v: nat)
    requires Valid(s)
    ensures Valid(SetMarked(s, col, asactive)) && Index(SetMarked(s, col, asactive), v) == Index(s, v)
  {
    MarkValid(s, col, asactive);
    var t := SetMarked(s, col, asactive);
    assert forall j :: 1 <= j <= s[0] ==> Abs(t[j]) == Abs(s[j]);
    SameIndex(s, t, v);
  }

  lemma UnmarkKeepsIndex(s: seq<int>, col: nat, v: nat)
    requires Valid(s)
    ensures Valid(Unmarked(s, col)) && Index(Unmarked(s, col), v) == Index(s, v)
  {
    var i, t := Index(s, col), Unmarked(s, col);
    if i > 0 && s[i] < 0 {
      UnmarkValid(s, col, i, t);
      assert forall j :: 1 <= j <= s[0] ==> Abs(t[j]) == Abs(s[j]);
    }
    SameIndex(s, t, v);
  }

  lemma SameIndex(s: seq<int>, t: seq<int>, v: nat)
    requires Valid(s) && Valid(t) && t[0] == s[0] && forall j :: 1 <= j <= s[0] ==> Abs(t[j]) == Abs(s[j])
    ensures Index(t, v) == Index(s, v)
  {
    var i := Index(s, v);
    if i > 0 {
      IndexIs(t, v, i);
    }
  }

  // ------------------------------------------------------------------ runs over a group of sets

  ghost predicate AllWindowed(sets: seq<seq<int>>) {
    forall i :: 0 <= i < |sets| ==> Valid(sets[i]) && Windowed(sets[i])
  }

  ghost predicate AllValid(sets: seq<seq<int>>) {
    forall i :: 0 <= i < |sets| ==> Valid(sets[i])
  }

  /** `col` is not marked in any set it belongs to. */
  ghost predicate FreeColumn(sets: seq<seq<int>>, col: nat)
    requires AllValid(sets)
  {
    forall i :: 0 <= i < |sets| && Index(sets[i], col) > 0 ==> IsUnmarked(sets[i], col)
  }

  /** `SOS_set_marked`, `SOS_unmark` and `SOS_can_activate` on all sets (set index 0). */
  ghost function GroupMarked(sets: seq<seq<int>>, col: nat, asactive: bool): (t: seq<seq<int>>)
    requires AllValid(sets)
    ensures |t| == |sets|
  {
    seq(|sets|, i requires 0 <= i < |sets| && AllValid(sets) => SetMarked(sets[i], col, asactive))
  }

  ghost function GroupUnmarked(sets: seq<seq<int>>, col: nat): (t: seq<seq<int>>)
    requires AllValid(sets)
    ensures |t| == |sets|
  {
    seq(|sets|, i requires 0 <= i < |sets| && AllValid(sets) => Unmarked(sets[i], col))
  }

  ghost predicate GroupCanActivate(sets: seq<seq<int>>, col: nat, lo: seq<real>)
    requires AllValid(sets)
  {
    forall i :: 0 <= i < |sets| ==> ColumnsIn(sets[i], |lo|) && CanActivate(sets[i], col, lo)
  }

  /** What branch and bound does with the sets: mark a column, activate it under the lower bounds then in
      force, or take the latest mark back. */
  datatype Event = Mark(col: nat) | Activate(acol: nat, lo: seq<real>) | Back

  datatype Marks = Marks(sets: seq<seq<int>>, stack: seq<nat>)

  ghost predicate Allowed(st: Marks, e: Event)
    requires AllValid(st.sets)
  {
    match e
    case Mark(col) => FreeColumn(st.sets, col)
    case Activate(col, lo) => FreeColumn(st.sets, col) && GroupCanActivate(st.sets, col, lo)
    case Back => st.stack != []
  }

  ghost function After(st: Marks, e: Event): Marks
    requires AllValid(st.sets) && Allowed(st, e)
  {
    match e
    case Mark(col) => Marks(GroupMarked(st.sets, col, false), st.stack + [col])
    case Activate(col, _) => Marks(GroupMarked(st.sets, col, true), st.stack + [col])
    case Back => Marks(GroupUnmarked(st.sets, st.stack[|st.stack| - 1]), st.stack[..|st.stack| - 1])
  }

  /** `past[k]` are the sets as they were when the mark `st.stack[k]` was made. */
  ghost predicate Backed(st: Marks, past: seq<seq<seq<int>>>)
    decreases |past|
  {
    && |past| == |st.stack| && AllWindowed(st.sets)
    && (past != [] ==>
          var l := |past| - 1;
          && AllWindowed(past[l]) && FreeColumn(past[l], st.stack[l])
          && (st.sets == GroupMarked(past[l], st.stack[l], false) || st.sets == GroupMarked(past[l], st.stack[l], true))
          && Backed(Marks(past[l], st.stack[..l]), past[..l]))
  }

  /** Every step keeps the windows, and going back restores the sets as they were before the mark. */
  lemma StepBacked(st: Marks, past: seq<seq<seq<int>>>, e: Event) returns (past': seq<seq<seq<int>>>)
    requires Backed(st, past) && Allowed(st, e)
    ensures Backed(After(st, e), past')
    ensures e.Back? ==> After(st, e).sets == past[|past| - 1]
    ensures (if past' == [] then After(st, e).sets else past'[0]) == if past == [] then st.sets else past[0]
  {
    var next := After(st, e);
    match e
    case Mark(col) =>
      forall i | 0 <= i < |st.sets| ensures Valid(next.sets[i]) && Windowed(next.sets[i]) {
        var p, up, c :| Window(st.sets[i], p, up, c);
        MarkKeepsWindow(st.sets[i], p, up, c, col);
      }
      past' := past + [st.sets];
      assert past'[..|past|] == past && next.stack[..|past|] == st.stack;
    case Activate(col, lo) =>
      forall i | 0 <= i < |st.sets| ensures Valid(next.sets[i]) && Windowed(next.sets[i]) {
        ActivateOne(st.sets[i], col, lo);
      }
      past' := past + [st.sets];
      assert past'[..|past|] == past && next.stack[..|past|] == st.stack;
    case Back =>
      var l := |past| - 1;
      BackOne(st, past[l], st.stack[l]);
      past' := past[..l];
  }

  lemma ActivateOne(s: seq<int>, col: nat, lo: seq<real>)
    requires Valid(s) && Windowed(s) && ColumnsIn(s, |lo|) && CanActivate(s, col, lo)
    requires Index(s, col) > 0 ==> IsUnmarked(s, col)
    ensures Valid(SetMarked(s, col, true)) && Windowed(SetMarked(s, col, true))
  {
    if Index(s, col) > 0 {
      var p, up, c :| Window(s, p, up, c);
      var p', up' := ActivateKeepsWindow(s, p, up, c, col, lo);
    }
  }

  lemma BackOne(st: Marks, before: seq<seq<int>>, col: nat)
    requires AllWindowed(before) && FreeColumn(before, col) && AllValid(st.sets)
    requires st.sets == GroupMarked(before, col, false) || st.sets == GroupMarked(before, col, true)
    ensures GroupUnmarked(st.sets, col) == before
  {
    forall i | 0 <= i < |before| ensures GroupUnmarked(st.sets, col)[i] == before[i] {
      var s := before[i];
      if Index(s, col) > 0 {
        var p, up, c :| Window(s, p, up, c);
        UnmarkRestores(s, p, up, c, col, false);
        UnmarkRestores(s, p, up, c, col, true);
      }
    }
  }

  /** The states a run passes through. */
  ghost predicate IsRun(states: seq<Marks>, events: seq<Event>) {
    && |states| == |events| + 1
    && forall k :: 0 <= k < |events| ==>
         AllValid(states[k].sets) && Allowed(states[k], events[k]) && states[k + 1] == After(states[k], events[k])
  }

  /** Window safety over whole runs: from unmarked sets, every state of every run has its active columns
      in consecutive positions, at most as many as the order; taking back all marks restores the sets. */
  lemma {:induction false} RunSafety(states: seq<Marks>, events: seq<Event>) returns (past: seq<seq<seq<int>>>)
    requires IsRun(states, events) && states[0].stack == [] && AllWindowed(states[0].sets)
    ensures Backed(states[|events|], past)
    ensures AllWindowed(states[|events|].sets)
    ensures (if past == [] then states[|events|].sets else past[0]) == states[0].sets
    decreases |events|
  {
    if events == [] {
      past := [];
    } else {
      var l := |events| - 1;
      var before := RunSafety(states[..l + 1], events[..l]);
      past := StepBacked(states[l], before, events[l]);
    }
  }

  // ------------------------------------------------------------------ fixing outside the window

  /** The member positions that `SOS_fix_unmarked` leaves alone, given the column activated last. */
  function FreeLeft(s: seq<int>, variable: nat): nat
    requires Valid(s)
  {
    if Filled(s) == 0 then 0 else Index(s, Slot(s, 0))
  }

  function FreeRight(s: seq<int>, variable: nat): nat
    requires Valid(s)
  {
    Index(s, variable) + (Order(s) - Filled(s))
  }

  /** `j` is an unmarked member outside those positions. */
  predicate ToFix(s: seq<int>, variable: nat, j: nat)
    requires Valid(s)
  {
    IsUnmarked(s, j) && !(FreeLeft(s, variable) <= Index(s, j) <= FreeRight(s, variable))
  }

  /** Every member that is nonzero in `y` lies within `Order(s)` consecutive positions from `a`. */
  ghost predicate NonzerosWithin(s: seq<int>, y: seq<real>, a: int)
    requires Valid(s) && ColumnsIn(s, |y|)
  {
    forall i :: 1 <= i <= s[0] && y[Abs(s[i])] != 0.0 ==> a <= i < a + Order(s)
  }

  /** Soundness of fixing: when the active run ends in the column activated last, a nonnegative point that
      respects zero upper bounds on the fixed columns and is zero on the members marked as inactive has all
      its nonzero members within as many consecutive positions as the order allows. */
  lemma FixSound(s: seq<int>, p: int, up: bool, c: nat, variable: nat, y: seq<real>) returns (a: int)
    requires Valid(s) && Window(s, p, up, c) && c > 0 && variable == Slot(s, c - 1) && ColumnsIn(s, |y|)
    requires forall i :: 1 <= i <= s[0] ==> y[Abs(s[i])] >= 0.0
    requires forall j: nat :: j < |y| && ToFix(s, variable, j) ==> y[j] <= 0.0
    requires forall i :: 1 <= i <= s[0] && s[i] < 0 && !IsActive(s, -s[i]) ==> y[Abs(s[i])] == 0.0
    ensures NonzerosWithin(s, y, a)
  {
    WindowFilled(s, p, up, c);
    LastPosition(s, p, up, c);
    FirstPosition(s, p, up, c);
    a := if up then p else p - c + 1;
    forall i | 1 <= i <= s[0] && y[Abs(s[i])] != 0.0 ensures a <= i < a + Order(s) {
      if s[i] < 0 {
        var k: nat :| k < c && Slot(s, k) == -s[i];
        assert Abs(s[Pos(p, up, k)]) == Abs(s[i]);
      } else {
        IndexIs(s, s[i], i);
        assert !ToFix(s, variable, s[i]);
      }
    }
  }

  /** Which columns are fixed while a run is active: the unmarked members before the position activated first,
      and those behind the position of `variable` by more than the number of unused slots. */
  lemma FixExact(s: seq<int>, p: int, up: bool, c: nat, variable: nat, j: nat)
    requires Valid(s) && Window(s, p, up, c) && c > 0
    ensures ToFix(s, variable, j) <==>
              IsUnmarked(s, j) && (Index(s, j) < p || Index(s, j) > Index(s, variable) + (Order(s) - c))
  {
    WindowFilled(s, p, up, c);
    FirstPosition(s, p, up, c);
    hide Window, IsUnmarked, Index, Filled;
  }

  /** After a run that ends upward in `variable`: the unmarked members outside the positions that the run has
      when it is filled up. */
  lemma FixUpward(s: seq<int>, p: int, c: nat, variable: nat, j: nat)
    requires Valid(s) && Window(s, p, true, c) && c > 0 && variable == Slot(s, c - 1)
    ensures ToFix(s, variable, j) <==> IsUnmarked(s, j) && !(p <= Index(s, j) < p + Order(s))
  {
    FixExact(s, p, true, c, variable, j);
    LastPosition(s, p, true, c);
    hide Window, IsUnmarked, Index, ToFix;
  }

  /** After a run that ends downward: all unmarked members before the run, even where it could go on, and those
      behind the position that the number of unused slots leads to from its last. */
  lemma FixDownward(s: seq<int>, p: int, c: nat, variable: nat, j: nat)
    requires Valid(s) && Window(s, p, false, c) && c > 0 && variable == Slot(s, c - 1)
    ensures ToFix(s, variable, j) <==> IsUnmarked(s, j) && (Index(s, j) < p || Index(s, j) > p + 1 + Order(s) - 2 * c)
  {
    FixExact(s, p, false, c, variable, j);
    LastPosition(s, p, false, c);
    hide Window, IsUnmarked, Index, ToFix;
  }

  /** While nothing is active: the unmarked members behind the position of `variable` by more than the order. */
  lemma FixUnstarted(s: seq<int>, variable: nat, j: nat)
    requires Valid(s) && Filled(s) == 0
    ensures ToFix(s, variable, j) <==> IsUnmarked(s, j) && Index(s, j) > Index(s, variable) + Order(s)
  {
    hide Index, Filled;
  }

  /** After a run that ends upward in `variable`, fixing at zero leaves exactly the points whose nonzero members
      lie in the positions that the run has when it is filled up. */
  lemma FixLeaves(s: seq<int>, p: int, c: nat, variable: nat, y: seq<real>)
    requires Valid(s) && Window(s, p, true, c) && c > 0 && variable == Slot(s, c - 1) && ColumnsIn(s, |y|)
    requires forall i :: 1 <= i <= s[0] ==> y[Abs(s[i])] >= 0.0
    requires forall i :: 1 <= i <= s[0] && s[i] < 0 && !IsActive(s, -s[i]) ==> y[Abs(s[i])] == 0.0
    ensures (forall j: nat :: j < |y| && ToFix(s, variable, j) ==> y[j] == 0.0) <==> NonzerosWithin(s, y, p)
  {
    if NonzerosWithin(s, y, p) {
      forall j: nat | j < |y| && ToFix(s, variable, j) ensures y[j] == 0.0 {
        FixUpward(s, p, c, variable, j);
        assert Abs(s[Index(s, j)]) == j;
      }
    }
    if forall j: nat :: j < |y| && ToFix(s, variable, j) ==> y[j] == 0.0 {
      forall i | 1 <= i <= s[0] && y[Abs(s[i])] != 0.0 ensures p <= i < p + Order(s) {
        FixUpward(s, p, c, variable, Abs(s[i]));
        IndexIs(s, Abs(s[i]), i);
        ActiveInRun(s, p, true, c, i);
      }
    }
  }

  lemma FirstPosition(s: seq<int>, p: int, up: bool, c: nat)
    requires Valid(s) && Window(s, p, up, c) && c > 0
    ensures Slot(s, 0) > 0 && Index(s, Slot(s, 0)) == p
  {
    IndexIs(s, Slot(s, 0), p);
  }

  // ------------------------------------------------------------------ satisfaction tests

  ghost predicate EntriesIn(s: seq<int>, n: int) {
    forall j :: 1 <= j < |s| ==> Abs(s[j]) < n
  }

  ghost predicate Nonzero(s: seq<int>, y: seq<real>, i: int)
    requires EntriesIn(s, |y|) && 1 <= i < |s|
  {
    y[Abs(s[i])] != 0.0
  }

  /** The nonzero members are exactly the positions a..b-1. */
  ghost predicate IsBlock(s: seq<int>, y: seq<real>, a: int, b: int)
    requires Valid(s) && EntriesIn(s, |y|)
  {
    1 <= a <= b <= s[0] + 1 && forall i :: 1 <= i <= s[0] ==> (Nonzero(s, y, i) <==> a <= i < b)
  }

  /** The set is satisfied: its nonzero members form one block no longer than the order. */
  ghost predicate Satisfied(s: seq<int>, y: seq<real>)
    requires Valid(s) && EntriesIn(s, |y|)
  {
    exists a, b :: IsBlock(s, y, a, b) && b - a <= Order(s)
  }

  // What the scans of `SOS_is_satisfied` read: the packed list from some position on, in some order.

  ghost predicate ReadsZero(s: seq<int>, y: seq<real>, a: int, b: int)
    requires EntriesIn(s, |y|)
  {
    forall j :: 1 <= a <= j < b && j < |s| ==> !Nonzero(s, y, j)
  }

  ghost predicate ReadsNonzero(s: seq<int>, y: seq<real>, a: int, b: int)
    requires EntriesIn(s, |y|)
  {
    forall j :: 1 <= a <= j < b && j < |s| ==> Nonzero(s, y, j)
  }

  /** From `q` to `b` there are zeros and then only nonzeros. */
  ghost predicate RunEnds(s: seq<int>, y: seq<real>, q: int, b: int)
    requires EntriesIn(s, |y|)
  {
    exists z :: q <= z <= b && ReadsZero(s, y, q, z) && ReadsNonzero(s, y, z, b)
  }

  /** The nonzero members form a block within positions p..b-1 that ends at b - 1, or there are none. */
  ghost predicate EndsAt(s: seq<int>, y: seq<real>, p: int, b: int)
    requires Valid(s) && EntriesIn(s, |y|)
  {
    exists a :: p <= a <= b && IsBlock(s, y, a, b)
  }

  lemma EndsAtParts(s: seq<int>, y: seq<real>, p: int, b: int)
    requires Valid(s) && EntriesIn(s, |y|) && 1 <= p <= b <= s[0] + 1
    ensures EndsAt(s, y, p, b) <==> ReadsZero(s, y, 1, p) && RunEnds(s, y, p, b) && ReadsZero(s, y, b, s[0] + 1)
  {
    if EndsAt(s, y, p, b) {
      var a :| p <= a <= b && IsBlock(s, y, a, b);
      assert ReadsZero(s, y, p, a) && ReadsNonzero(s, y, a, b);
    }
    if ReadsZero(s, y, 1, p) && RunEnds(s, y, p, b) && ReadsZero(s, y, b, s[0] + 1) {
      var z :| p <= z <= b && ReadsZero(s, y, p, z) && ReadsNonzero(s, y, z, b);
      assert IsBlock(s, y, z, b);
    }
  }

  /** What `SOS_is_satisfied` asks of a set whose active run has `c` columns, the one activated first at
      position `p`: it reads `c` entries upward from there, in whichever direction the run was activated, and
      reads the order and the active list as columns when the members end before that. */
  ghost predicate Verdict(s: seq<int>, y: seq<real>, p: int, c: int)
    requires |s| > 0 && EntriesIn(s, |y|)
  {
    ReadsZero(s, y, 1, p) && RunEnds(s, y, p, p + c) && ReadsZero(s, y, p + c, s[0] + 1)
  }

  /** As long as the entries read are members, the nonzero members must be a block that ends with them. */
  lemma VerdictIsEnd(s: seq<int>, y: seq<real>, p: int, c: nat)
    requires Valid(s) && EntriesIn(s, |y|) && 1 <= p && p + c <= s[0] + 1
    ensures Verdict(s, y, p, c) <==> EndsAt(s, y, p, p + c)
  {
    EndsAtParts(s, y, p, p + c);
  }

  /** A set that is accepted is satisfied, whatever the direction of its run and whatever is read. */
  lemma VerdictSatisfied(s: seq<int>, y: seq<real>, p: int, up: bool, c: nat)
    requires Valid(s) && EntriesIn(s, |y|) && Window(s, p, up, c) && c > 0 && Verdict(s, y, p, c)
    ensures Satisfied(s, y)
  {
    assert 1 <= Pos(p, up, 0) <= s[0];
    var z :| p <= z <= p + c && ReadsZero(s, y, p, z) && ReadsNonzero(s, y, z, p + c);
    var a, b := if z <= s[0] + 1 then z else s[0] + 1, if p + c <= s[0] + 1 then p + c else s[0] + 1;
    assert IsBlock(s, y, a, b);
  }

  ghost predicate ZeroOutside(s: seq<int>, y: seq<real>, p: int, up: bool, c: nat)
    requires Valid(s) && EntriesIn(s, |y|)
  {
    forall i :: 1 <= i <= s[0] && !(if up then p <= i < p + c else p - c < i <= p) ==> !Nonzero(s, y, i)
  }

  /** The verdict is the right answer for every point exactly if the set has a single member. */
  lemma VerdictExact(s: seq<int>, p: int, up: bool, c: nat, n: nat)
    requires Valid(s) && Window(s, p, up, c) && c > 0 && EntriesIn(s, n)
    ensures (forall y: seq<real> :: |y| == n ==> (Verdict(s, y, p, c) <==> Satisfied(s, y))) <==> s[0] == 1
  {
    assert 1 <= Pos(p, up, 0) <= s[0];
    if s[0] == 1 {
      forall y: seq<real> | |y| == n ensures Verdict(s, y, p, c) <==> Satisfied(s, y) {
        SingleRun(s, p, up, c);
        OnlyInside(s, y, p, up);
        VerdictSatisfied(s, y, p, up, c);
      }
    } else {
      var i := if c > 1 then Pos(p, up, if up then 0 else 1) else if p == 1 then 2 else p - 1;
      var y := Misread(s, p, up, c, n, i);
      assert |y| == n;
    }
  }

  /** It is the right answer for every point that is zero outside the run exactly if the run has one column. */
  lemma VerdictExactInside(s: seq<int>, p: int, up: bool, c: nat, n: nat)
    requires Valid(s) && Window(s, p, up, c) && c > 0 && EntriesIn(s, n)
    ensures (forall y: seq<real> :: |y| == n && ZeroOutside(s, y, p, up, c) ==> (Verdict(s, y, p, c) <==> Satisfied(s, y))) <==> c == 1
  {
    if c == 1 {
      forall y: seq<real> | |y| == n && ZeroOutside(s, y, p, up, c) ensures Verdict(s, y, p, c) <==> Satisfied(s, y) {
        OnlyInside(s, y, p, up);
        VerdictSatisfied(s, y, p, up, c);
      }
    } else {
      assert 1 <= Pos(p, up, 0) <= s[0] && 1 <= Pos(p, up, 1) <= s[0];
      var i := Pos(p, up, if up then 0 else 1);
      var y := Misread(s, p, up, c, n, i);
      assert |y| == n && ZeroOutside(s, y, p, up, c);
    }
  }

  /** In a set with one member the run is that member. */
  lemma SingleRun(s: seq<int>, p: int, up: bool, c: nat)
    requires Valid(s) && Window(s, p, up, c) && c > 0 && s[0] == 1
    ensures p == 1 && c == 1
  {
    RunFits(s, p, up, c);
  }

  lemma RunFits(s: seq<int>, p: int, up: bool, c: nat)
    requires Valid(s) && Window(s, p, up, c) && c > 0
    ensures 1 <= p <= s[0] && 1 <= Pos(p, up, c - 1) <= s[0]
  {
    assert 1 <= Pos(p, up, 0) <= s[0];
  }

  lemma OnlyInside(s: seq<int>, y: seq<real>, p: int, up: bool)
    requires Valid(s) && EntriesIn(s, |y|) && 1 <= p <= s[0] && ZeroOutside(s, y, p, up, 1)
    ensures Verdict(s, y, p, 1)
  {
    var z := if Nonzero(s, y, p) then p else p + 1;
    assert ReadsZero(s, y, p, z) && ReadsNonzero(s, y, z, p + 1);
  }

  /** A point whose only nonzero member satisfies the set, but is not where the scan wants it. */
  lemma Misread(s: seq<int>, p: int, up: bool, c: nat, n: nat, i: int) returns (y: seq<real>)
    requires Valid(s) && Window(s, p, up, c) && c > 0 && EntriesIn(s, n) && 1 <= i <= s[0]
    requires if c == 1 then i != p else i == Pos(p, up, if up then 0 else 1)
    ensures |y| == n && (forall j :: 1 <= j <= s[0] ==> (Nonzero(s, y, j) <==> j == i))
    ensures Satisfied(s, y) && !Verdict(s, y, p, c)
  {
    y := seq(n, j requires 0 <= j < n => if j == Abs(s[i]) then 1.0 else 0.0);
    assert forall j :: 1 <= j <= s[0] ==> (Nonzero(s, y, j) <==> j == i);
    assert IsBlock(s, y, i, i + 1);
    assert 1 <= Pos(p, up, 0) <= s[0] && Nonzero(s, y, i);
    if i < p {
      ReadAt(s, y, 1, p, i);
    } else if c == 1 {
      ReadAt(s, y, p + 1, s[0] + 1, i);
    } else {
      assert i == p && p + 1 == Pos(p, up, 1) <= s[0] && !Nonzero(s, y, p + 1);
    }
  }

  /** Points that are zero outside a run of several columns activated downward, with a member above it, are
      accepted only if they are zero in the whole set. */
  lemma DescendingVerdict(s: seq<int>, y: seq<real>, p: int, c: nat)
    requires Valid(s) && EntriesIn(s, |y|) && Window(s, p, false, c) && c > 1 && p + c <= s[0] + 1
    requires ZeroOutside(s, y, p, false, c)
    ensures Verdict(s, y, p, c) <==> ReadsZero(s, y, 1, s[0] + 1)
  {
    assert 1 <= Pos(p, false, 1) && Pos(p, false, 0) <= s[0] && p + 1 <= s[0];
    assert !Nonzero(s, y, p + 1);
    if ReadsZero(s, y, 1, s[0] + 1) {
      assert ReadsZero(s, y, p, p + c) && ReadsNonzero(s, y, p + c, p + c);
    }
    if Verdict(s, y, p, c) {
      var z :| p <= z <= p + c && ReadsZero(s, y, p, z) && ReadsNonzero(s, y, z, p + c);
      assert z > p + 1;
    }
  }

  lemma ReadAt(s: seq<int>, y: seq<real>, a: int, b: int, j: int)
    requires EntriesIn(s, |y|) && 1 <= a <= j < b && j < |s| && Nonzero(s, y, j)
    ensures !ReadsZero(s, y, a, b)
  {
  }

  lemma TooMany(s: seq<int>, y: seq<real>, a: int, i: int)
    requires Valid(s) && EntriesIn(s, |y|) && 1 <= a && i - a > Order(s) && i <= s[0] + 1
    requires ReadsNonzero(s, y, a, i)
    ensures !Satisfied(s, y)
  {
    assert Nonzero(s, y, a) && Nonzero(s, y, i - 1);
  }

  lemma HeaderVerdict(s: seq<int>, y: seq<real>, a: int, i0: int, i: int)
    requires Valid(s) && EntriesIn(s, |y|) && 1 <= a <= i0 <= i <= s[0] + 1 && i0 - a <= Order(s)
    requires ReadsZero(s, y, 1, a) && ReadsNonzero(s, y, a, i0) && ReadsZero(s, y, i0, i)
    requires a <= s[0] ==> Nonzero(s, y, a)
    requires i0 <= s[0] ==> !Nonzero(s, y, i0)
    requires i <= s[0] ==> Nonzero(s, y, i)
    ensures Satisfied(s, y) <==> i == s[0] + 1
  {
    if i == s[0] + 1 {
      assert IsBlock(s, y, a, i0);
    }
  }

  /** Result of `SOS_is_satisfied` for a set that is not full. */
  function Partial(sosType: int): int {
    if sosType <= -1 then -2 else -1
  }

  // What `SOS_is_feasible` reads: the values at the active slots.

  /** Value at slot `k`; empty slots read as zero. */
  function ActiveValue(s: seq<int>, y: seq<real>, k: nat): real
    requires Valid(s) && ColumnsIn(s, |y|)
  {
    if k < Filled(s) then y[Slot(s, k)] else 0.0
  }

  ghost predicate ZeroSlots(s: seq<int>, y: seq<real>, a: nat, b: nat)
  {
    Valid(s) && ColumnsIn(s, |y|) && forall k: nat :: a <= k < b ==> ActiveValue(s, y, k) == 0.0
  }

  ghost predicate NonzeroSlots(s: seq<int>, y: seq<real>, a: nat, b: nat)
  {
    Valid(s) && ColumnsIn(s, |y|) && forall k: nat :: a <= k < b ==> ActiveValue(s, y, k) != 0.0
  }

  /** Slots 0..i-1 have been read and held `runs` runs of nonzero values, the last ending at slot `last`. */
  ghost predicate RunsSeen(s: seq<int>, y: seq<real>, i: nat, runs: nat, last: nat)
  {
    && Valid(s) && ColumnsIn(s, |y|)
    && (i > 0 ==> ActiveValue(s, y, i - 1) == 0.0)
    && (runs == 0 ==> forall k: nat :: k < i ==> ActiveValue(s, y, k) == 0.0)
    && (runs == 1 ==> NoGapTo(s, y, i) && last < i && ActiveValue(s, y, last) != 0.0)
    && (runs >= 2 ==> HasGap(s, y))
  }

  ghost predicate NoGapTo(s: seq<int>, y: seq<real>, i: nat)
    requires Valid(s) && ColumnsIn(s, |y|)
  {
    !exists a: nat, b: nat, c: nat :: a < b < c < i && ActiveValue(s, y, a) != 0.0 && ActiveValue(s, y, b) == 0.0 && ActiveValue(s, y, c) != 0.0
  }

  lemma OneMoreRun(s: seq<int>, y: seq<real>, i: nat, runs: nat, last: nat, a: nat, b: nat)
    requires Valid(s) && EntriesIn(s, |y|) && RunsSeen(s, y, i, runs, last) && i <= a < b <= Filled(s)
    requires ZeroSlots(s, y, i, a)
    requires NonzeroSlots(s, y, a, b)
    requires ActiveValue(s, y, b) == 0.0
    ensures RunsSeen(s, y, b + 1, runs + 1, b - 1)
  {
    if runs == 1 {
      assert last < i - 1 < a && ActiveValue(s, y, a) != 0.0;
    }
  }

  lemma OnlyZeros(s: seq<int>, y: seq<real>, i: nat, runs: nat, last: nat, b: nat)
    requires Valid(s) && EntriesIn(s, |y|) && RunsSeen(s, y, i, runs, last) && i <= b == Filled(s)
    requires ZeroSlots(s, y, i, b)
    ensures RunsSeen(s, y, b + 1, runs, last)
  {
  }

  lemma RunsGap(s: seq<int>, y: seq<real>, i: nat, runs: nat, last: nat)
    requires Valid(s) && ColumnsIn(s, |y|) && RunsSeen(s, y, i, runs, last) && i >= Filled(s)
    ensures runs <= 1 <==> !HasGap(s, y)
  {
  }

  /** The active list has a zero value between two nonzero ones. */
  ghost predicate HasGap(s: seq<int>, y: seq<real>)
    requires Valid(s) && ColumnsIn(s, |y|)
  {
    exists i: nat, j: nat, k: nat :: i < j < k < Filled(s) && ActiveValue(s, y, i) != 0.0 && ActiveValue(s, y, j) == 0.0 && ActiveValue(s, y, k) != 0.0
  }
}
