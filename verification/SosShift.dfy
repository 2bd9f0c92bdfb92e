/** Renumbering the members of a special ordered set when columns are inserted or deleted (SOS_shift_col of
    lp_SOS.c). */
module SosShift {

  /** A member with its weight. */
  type Member = (int, real)

  // ------------------------------------------------------------------ what the operations do

  function Inserted(ps: seq<Member>, column: int, delta: nat): (r: seq<Member>)
    ensures |r| == |ps|
  {
    seq(|ps|, i requires 0 <= i < |ps| => if ps[i].0 >= column then (ps[i].0 + delta, ps[i].1) else ps[i])
  }

  /** Delete the columns column..column + d - 1. */
  function Deleted(ps: seq<Member>, column: int, d: nat): seq<Member> {
    if ps == [] then []
    else
      var (m, w) := ps[|ps| - 1];
      Deleted(ps[..|ps| - 1], column, d) +
      if column <= m < column + d then [] else [(if m > column then m - d else m, w)]
  }

  /** Number of columns kept among 1..k. */
  function Rank(active: seq<bool>, k: nat): nat
    requires k < |active|
  {
    if k == 0 then 0 else Rank(active, k - 1) + if active[k] then 1 else 0
  }

  ghost predicate MembersIn(ps: seq<Member>, n: int) {
    forall i :: 0 <= i < |ps| ==> 1 <= ps[i].0 < n
  }

  /** Keep the active columns and number them anew. */
  function Mapped(ps: seq<Member>, active: seq<bool>): seq<Member>
    requires MembersIn(ps, |active|)
  {
    if ps == [] then []
    else
      var (m, w) := ps[|ps| - 1];
      Mapped(ps[..|ps| - 1], active) + if active[m] then [(Rank(active, m), w)] else []
  }

  // ------------------------------------------------------------------ laws

  /** Deleting the columns that have just been inserted restores the members. */
  lemma {:induction false} DeleteInserted(ps: seq<Member>, column: int, delta: nat)
    ensures Deleted(Inserted(ps, column, delta), column, delta) == ps
  {
    if ps != [] {
      var l := |ps| - 1;
      DeleteInserted(ps[..l], column, delta);
      assert Inserted(ps, column, delta)[..l] == Inserted(ps[..l], column, delta);
      assert ps == ps[..l] + [ps[l]];
    }
  }

  /** What a deletion leaves of one member. */
  function OneLeft(p: Member, column: int, d: nat): (r: seq<Member>)
    ensures |r| <= 1
  {
    if column <= p.0 < column + d then [] else [(if p.0 > column then p.0 - d else p.0, p.1)]
  }

  lemma DeletedLast(ps: seq<Member>, column: int, d: nat)
    requires ps != []
    ensures Deleted(ps, column, d) == Deleted(ps[..|ps| - 1], column, d) + OneLeft(ps[|ps| - 1], column, d)
  {
  }

  lemma DeletedSingle(p: Member, column: int, d: nat)
    ensures Deleted([p], column, d) == OneLeft(p, column, d)
  {
    assert [p][..0] == [];
  }

  /** After a deletion exactly the members outside the deleted range are left, with their weights; those behind
      it have moved down by its length. */
  lemma {:induction false} DeletedHas(ps: seq<Member>, column: int, d: nat, m: int, w: real)
    ensures (m, w) in Deleted(ps, column, d) <==> if m < column then (m, w) in ps else (m + d, w) in ps
  {
    if ps != [] {
      var l := |ps| - 1;
      DeletedHas(ps[..l], column, d, m, w);
      DeletedLast(ps, column, d);
      hide Deleted;
      assert ps == ps[..l] + [ps[l]];
      var (m0, w0) := ps[l];
    }
  }

  /** Deleting a range of columns is deleting its columns one by one. */
  lemma {:induction false} RangeIsOneByOne(ps: seq<Member>, column: int, d: nat)
    ensures Deleted(ps, column, d + 1) == Deleted(Deleted(ps, column, 1), column, d)
  {
    if ps != [] {
      var l := |ps| - 1;
      RangeIsOneByOne(ps[..l], column, d);
      var qs := OneLeft(ps[l], column, 1);
      DeletedLast(ps, column, 1);
      DeletedLast(ps, column, d + 1);
      DeletedAppend(Deleted(ps[..l], column, 1), qs, column, d);
      if qs != [] {
        DeletedSingle(qs[0], column, d);
      }
      assert Deleted([], column, d) == [];
      hide Deleted;
    }
  }

  /** After an insertion exactly the same members are there, those from the column on moved up. */
  lemma InsertedHas(ps: seq<Member>, column: int, delta: nat, m: int, w: real)
    ensures (m, w) in Inserted(ps, column, delta) <==>
              (m < column && (m, w) in ps) || (m >= column + delta && (m - delta, w) in ps)
  {
    var rs := Inserted(ps, column, delta);
    if (m, w) in rs {
      var i :| 0 <= i < |rs| && rs[i] == (m, w);
      assert ps[i] in ps;
    }
    if m < column && (m, w) in ps {
      var i :| 0 <= i < |ps| && ps[i] == (m, w);
      assert rs[i] == (m, w);
    }
    if m >= column + delta && (m - delta, w) in ps {
      var i :| 0 <= i < |ps| && ps[i] == (m - delta, w);
      assert rs[i] == (m, w);
    }
  }

  /** Delete the inactive columns among 1..k one by one, the highest first. */
  function DeletedOneByOne(ps: seq<Member>, active: seq<bool>, k: nat): seq<Member>
    requires k < |active|
    decreases k
  {
    if k == 0 then ps else DeletedOneByOne(if active[k] then ps else Deleted(ps, k, 1), active, k - 1)
  }

  /** Number of inactive columns among k + 1..m. */
  function Gone(active: seq<bool>, k: nat, m: nat): nat
    requires m < |active|
  {
    if m <= k then 0 else Gone(active, k, m - 1) + if active[m] then 0 else 1
  }

  /** The members once the inactive columns above `k` are gone. */
  function DownTo(ps: seq<Member>, active: seq<bool>, k: nat): seq<Member>
    requires MembersIn(ps, |active|)
  {
    if ps == [] then [] else DownTo(ps[..|ps| - 1], active, k) + OneDown(ps[|ps| - 1], active, k)
  }

  function OneDown(p: Member, active: seq<bool>, k: nat): (r: seq<Member>)
    requires 1 <= p.0 < |active|
    ensures |r| <= 1
  {
    if p.0 > k && !active[p.0] then [] else [(p.0 - Gone(active, k, p.0), p.1)]
  }

  lemma OneDownStep(p: Member, active: seq<bool>, k: nat)
    requires 1 <= p.0 < |active| && 1 <= k < |active|
    ensures OneDown(p, active, k - 1) == if active[k] then OneDown(p, active, k) else Deleted(OneDown(p, active, k), k, 1)
  {
    var m := p.0;
    if m > k {
      GoneStep(active, k, m);
      if active[m] {
        GoneBound(active, k, m);
      }
    }
    if m == k {
      assert Gone(active, k - 1, k - 1) == 0;
      assert Gone(active, k - 1, k) == if active[k] then 0 else 1;
    }
    assert OneDown(p, active, k) == [] || OneDown(p, active, k)[..0] == [];
  }

  lemma DeletedAppend(ps: seq<Member>, qs: seq<Member>, column: int, d: nat)
    requires |qs| <= 1
    ensures Deleted(ps + qs, column, d) == Deleted(ps, column, d) + Deleted(qs, column, d)
  {
    if qs == [] {
      assert ps + qs == ps;
    } else {
      assert (ps + qs)[..|ps|] == ps && qs[..0] == [];
    }
  }

  lemma {:induction false} GoneStep(active: seq<bool>, k: nat, m: nat)
    requires 1 <= k < m < |active|
    ensures Gone(active, k - 1, m) == Gone(active, k, m) + if active[k] then 0 else 1
  {
    if m > k + 1 {
      GoneStep(active, k, m - 1);
    } else {
      assert Gone(active, k - 1, k - 1) == 0;
      assert Gone(active, k - 1, k) == if active[k] then 0 else 1;
    }
  }

  lemma {:induction false} GoneBound(active: seq<bool>, k: nat, m: nat)
    requires k < m < |active| && active[m]
    ensures m - Gone(active, k, m) > k
  {
    GoneLess(active, k, m - 1);
  }

  lemma {:induction false} GoneLess(active: seq<bool>, k: nat, m: nat)
    requires k <= m < |active|
    ensures Gone(active, k, m) <= m - k
  {
    if k < m {
      GoneLess(active, k, m - 1);
    }
  }

  lemma {:induction false} GoneRank(active: seq<bool>, m: nat)
    requires m < |active|
    ensures m - Gone(active, 0, m) == Rank(active, m)
  {
    if m > 0 {
      GoneRank(active, m - 1);
    }
  }

  lemma {:induction false} DownStep(ps: seq<Member>, active: seq<bool>, k: nat)
    requires MembersIn(ps, |active|) && 1 <= k < |active|
    ensures DownTo(ps, active, k - 1) == if active[k] then DownTo(ps, active, k) else Deleted(DownTo(ps, active, k), k, 1)
  {
    if ps != [] {
      var l := |ps| - 1;
      DownStep(ps[..l], active, k);
      OneDownStep(ps[l], active, k);
      DeletedAppend(DownTo(ps[..l], active, k), OneDown(ps[l], active, k), k, 1);
    }
  }

  lemma {:induction false} OneByOneIsDown(ps: seq<Member>, active: seq<bool>, k: nat)
    requires MembersIn(ps, |active|) && k < |active|
    ensures DeletedOneByOne(DownTo(ps, active, k), active, k) == DownTo(ps, active, 0)
  {
    if k > 0 {
      DownStep(ps, active, k);
      OneByOneIsDown(ps, active, k - 1);
    }
  }

  lemma OneDownEnds(p: Member, active: seq<bool>)
    requires 1 <= p.0 < |active|
    ensures OneDown(p, active, |active| - 1) == [p]
    ensures OneDown(p, active, 0) == if active[p.0] then [(Rank(active, p.0), p.1)] else []
  {
    GoneRank(active, p.0);
  }

  lemma {:induction false} DownAll(ps: seq<Member>, active: seq<bool>)
    requires MembersIn(ps, |active|) && |active| >= 1
    ensures DownTo(ps, active, |active| - 1) == ps
  {
    if ps != [] {
      var l := |ps| - 1;
      DownAll(ps[..l], active);
      OneDownEnds(ps[l], active);
      hide OneDown, Rank;
      assert ps == ps[..l] + [ps[l]];
    }
  }

  lemma {:induction false} DownNone(ps: seq<Member>, active: seq<bool>)
    requires MembersIn(ps, |active|)
    ensures DownTo(ps, active, 0) == Mapped(ps, active)
  {
    if ps != [] {
      DownNone(ps[..|ps| - 1], active);
      OneDownEnds(ps[|ps| - 1], active);
      hide OneDown, Rank;
    }
  }

  /** Deleting by link map is deleting the columns one by one from the highest down. */
  lemma MapIsOneByOne(ps: seq<Member>, active: seq<bool>)
    requires MembersIn(ps, |active|) && |active| >= 1
    ensures Mapped(ps, active) == DeletedOneByOne(ps, active, |active| - 1)
  {
    DownAll(ps, active);
    DownNone(ps, active);
    OneByOneIsDown(ps, active, |active| - 1);
  }

  // ------------------------------------------------------------------ in place

  /** Members 1..n of a packed list with their weights. */
  ghost function Block(list: seq<int>, weights: seq<real>, n: nat): (ps: seq<Member>)
    requires n < |list| && n < |weights|
    ensures |ps| == n && forall i :: 0 <= i < n ==> ps[i] == (list[i + 1], weights[i + 1])
  {
    if n == 0 then [] else Block(list, weights, n - 1) + [(list[n], weights[n])]
  }

  /** A packed list: member count, members, order, and room for the active columns. */
  ghost predicate Packed(list: seq<int>, weights: seq<real>) {
    |list| >= 2 && 0 <= list[0] <= |list| - 2 && list[0] < |weights|
  }

  /** `SOS_shift_col` for an insertion of `delta` columns. */
  method ShiftInsert(list: array<int>, weights: array<real>, column: int, delta: nat)
    requires Packed(list[..], weights[..])
    modifies list
    ensures list[0] == old(list[0]) && Packed(list[..], weights[..])
    ensures Block(list[..], weights[..], list[0]) == Inserted(Block(old(list[..]), weights[..], list[0]), column, delta)
    ensures forall q :: list[0] < q < list.Length ==> list[q] == old(list[q])
  {
    var n := list[0];
    var i := 1;
    while i <= n
      invariant 1 <= i <= n + 1 && list[0] == n
      invariant forall q :: 1 <= q < i ==> list[q] == if old(list[q]) >= column then old(list[q]) + delta else old(list[q])
      invariant forall q :: i <= q < list.Length ==> list[q] == old(list[q])
    {
      if list[i] >= column {
        list[i] := list[i] + delta;
      }
      i := i + 1;
    }
  }

  /** Progress of a deletion: members before `i` have been dealt with, the survivors are at 1..ii. */
  ghost predicate Shifting(list0: seq<int>, weights0: seq<real>, list: seq<int>, weights: seq<real>, done: seq<Member>, i: int, ii: int) {
    && |list| == |list0| && |weights| == |weights0| && 0 <= ii < i <= |list| && ii < |weights| && list[0] == list0[0]
    && Block(list, weights, ii) == done
    && (forall q :: ii < q < |list| ==> list[q] == list0[q])
    && (forall q :: ii < q < |weights| ==> weights[q] == weights0[q])
  }

  lemma ShiftedNext(list0: seq<int>, weights0: seq<real>, list: seq<int>, weights: seq<real>, done: seq<Member>, i: int, ii: int, nr: int)
    requires Shifting(list0, weights0, list, weights, done, i, ii) && 1 <= i < |list| && i < |weights|
    ensures Shifting(list0, weights0, list[ii + 1 := nr], weights[ii + 1 := weights[i]], done + [(nr, weights0[i])], i + 1, ii + 1)
  {
    var list', weights' := list[ii + 1 := nr], weights[ii + 1 := weights[i]];
    assert Block(list', weights', ii) == Block(list, weights, ii);
  }

  lemma StartShift(list: seq<int>, weights: seq<real>)
    requires Packed(list, weights)
    ensures Shifting(list, weights, list, weights, [], 1, 0)
    ensures |list| >= 2 && 0 <= list[0] <= |list| - 2 && list[0] < |weights|
  {
  }

  lemma NoneDeleted(column: int, d: nat)
    ensures Deleted([], column, d) == []
  {
  }

  lemma NoneMapped(active: seq<bool>)
    ensures MembersIn([], |active|) && Mapped([], active) == []
  {
  }

  /** Members have been dropped from the packed list `list0`: the order cell has moved behind the members
      that are left, and everything behind it is as it was. So the old order cell, or members that have not
      been overwritten, lie where the active list is now read. */
  ghost predicate Shrunk(list0: seq<int>, list: seq<int>) {
    && |list| == |list0| >= 2 && 0 <= list[0] <= list0[0] <= |list| - 2
    && list[list[0] + 1] == list0[list0[0] + 1]
    && forall q :: list[0] + 1 < q < |list| ==> list[q] == list0[q]
  }

  /** The active list of an unmarked set still reads as empty exactly if no member has been dropped. */
  lemma EmptyUnlessShrunk(list0: seq<int>, list: seq<int>)
    requires Shrunk(list0, list) && list0[0] + 2 < |list0| && list0[list0[0] + 1] != 0
    requires (forall q :: 1 <= q <= list0[0] ==> list0[q] != 0) && list0[list0[0] + 2] == 0
    ensures list[list[0] + 2] == 0 <==> list[0] == list0[0]
  {
  }

  /** `SOS_shift_col` for the deletion of `d` columns from `column` on. */
  method ShiftDelete(list: array<int>, weights: array<real>, column: int, d: nat)
    requires Packed(list[..], weights[..])
    modifies list, weights
    ensures Packed(list[..], weights[..])
    ensures Block(list[..], weights[..], list[0]) == Deleted(Block(old(list[..]), old(weights[..]), old(list[0])), column, d)
    ensures Shrunk(old(list[..]), list[..])
    ensures forall q :: list[0] < q < weights.Length ==> weights[q] == old(weights[q])
  {
    ghost var list0, weights0 := list[..], weights[..];
    var n := list[0];
    var nn := list[n + 1];
    ghost var ps := Block(list0, weights0, n);
    hide *;
    StartShift(list0, weights0);
    NoneDeleted(column, d);
    assert ps[..0] == [];
    var i, ii := 1, 0;
    while i <= n
      invariant 1 <= i <= n + 1
      invariant Shifting(list0, weights0, list[..], weights[..], Deleted(ps[..i - 1], column, d), i, ii)
    {
      ShiftingAt(list0, weights0, list[..], weights[..], Deleted(ps[..i - 1], column, d), i, ii, n);
      ii := DeleteOne(list, weights, column, d, list0, weights0, ps, i, ii);
      i := i + 1;
    }
    assert ps[..n] == ps;
    ShiftingEnd(list0, weights0, list[..], weights[..], Deleted(ps, column, d), n, ii);
    FinishShift(list, weights, n, nn, ii);
    NowPacked(list0, list[..], weights[..]);
  }

  method DeleteOne(list: array<int>, weights: array<real>, column: int, d: nat,
                   ghost list0: seq<int>, ghost weights0: seq<real>, ghost ps: seq<Member>, i: nat, ii: nat) returns (ii': nat)
    requires 1 <= i <= |ps| && i < list.Length && i < weights.Length && ps[i - 1] == (list[i], weights[i])
    requires Shifting(list0, weights0, list[..], weights[..], Deleted(ps[..i - 1], column, d), i, ii)
    modifies list, weights
    ensures Shifting(list0, weights0, list[..], weights[..], Deleted(ps[..i], column, d), i + 1, ii')
  {
    DeletedNext(ps, column, d, i);
    ii' := ii;
    var nr := list[i];
    if column <= nr < column + d {
      hide Block;
      return;
    }
    if nr > column {
      nr := nr - d;
    }
    ShiftedNext(list0, weights0, list[..], weights[..], Deleted(ps[..i - 1], column, d), i, ii, nr);
    hide *;
    ii' := ii + 1;
    list[ii'] := nr;
    weights[ii'] := weights[i];
  }

  lemma DeletedNext(ps: seq<Member>, column: int, d: nat, i: int)
    requires 1 <= i <= |ps|
    ensures var (m, w) := ps[i - 1];
            Deleted(ps[..i], column, d) == Deleted(ps[..i - 1], column, d) +
              if column <= m < column + d then [] else [(if m > column then m - d else m, w)]
  {
    assert ps[..i][..i - 1] == ps[..i - 1];
  }

  /** Update the count and the order cell. */
  method FinishShift(list: array<int>, weights: array<real>, n: nat, nn: int, ii: nat)
    requires n + 1 < list.Length && n < weights.Length && ii <= n == list[0] && list[n + 1] == nn
    modifies list
    ensures list[0] == ii && list[ii + 1] == nn
    ensures forall q :: ii + 1 < q < list.Length ==> list[q] == old(list[q])
    ensures Block(list[..], weights[..], ii) == Block(old(list[..]), weights[..], ii)
  {
    if ii < n {
      list[0] := ii;
      list[ii + 1] := nn;
    }
  }

  /** `SOS_shift_col` for a deletion by link map. */
  method ShiftMap(list: array<int>, weights: array<real>, active: seq<bool>)
    requires Packed(list[..], weights[..]) && MembersIn(Block(list[..], weights[..], list[0]), |active|)
    modifies list, weights
    ensures Packed(list[..], weights[..])
    ensures Block(list[..], weights[..], list[0]) == Mapped(Block(old(list[..]), old(weights[..]), old(list[0])), active)
    ensures Shrunk(old(list[..]), list[..])
    ensures forall q :: list[0] < q < weights.Length ==> weights[q] == old(weights[q])
  {
    ghost var list0, weights0 := list[..], weights[..];
    var n := list[0];
    var nn := list[n + 1];
    ghost var ps := Block(list0, weights0, n);
    hide *;
    var newidx := NewIndices(active);
    StartShift(list0, weights0);
    NoneMapped(active);
    assert ps[..0] == [];
    var i, ii := 1, 0;
    while i <= n
      invariant 1 <= i <= n + 1 && MembersIn(ps[..i - 1], |active|)
      invariant Shifting(list0, weights0, list[..], weights[..], Mapped(ps[..i - 1], active), i, ii)
    {
      ShiftingAt(list0, weights0, list[..], weights[..], Mapped(ps[..i - 1], active), i, ii, n);
      MapNext(ps, active, i);
      ii := MapOne(list, weights, newidx, active, list0, weights0, ps, i, ii);
      i := i + 1;
    }
    assert ps[..n] == ps;
    ShiftingEnd(list0, weights0, list[..], weights[..], Mapped(ps, active), n, ii);
    FinishShift(list, weights, n, nn, ii);
    NowPacked(list0, list[..], weights[..]);
  }

  lemma ShiftingAt(list0: seq<int>, weights0: seq<real>, list: seq<int>, weights: seq<real>, done: seq<Member>, i: nat, ii: int, n: nat)
    requires Shifting(list0, weights0, list, weights, done, i, ii) && 1 <= i <= n < |list0| && n < |weights0|
    ensures i < |list| && i < |weights| && |Block(list0, weights0, n)| == n && Block(list0, weights0, n)[i - 1] == (list[i], weights[i])
  {
  }

  lemma ShiftingEnd(list0: seq<int>, weights0: seq<real>, list: seq<int>, weights: seq<real>, done: seq<Member>, n: nat, ii: int)
    requires Shifting(list0, weights0, list, weights, done, n + 1, ii) && n + 1 < |list0| && n < |weights0|
    ensures |list| == |list0| && |weights| == |weights0| && 0 <= ii <= n && list[0] == list0[0] && list[n + 1] == list0[n + 1]
    ensures forall q :: ii < q < |list| ==> list[q] == list0[q]
    ensures forall q :: ii < q < |weights| ==> weights[q] == weights0[q]
    ensures Block(list, weights, ii) == done
  {
  }

  lemma NowPacked(list0: seq<int>, list: seq<int>, weights: seq<real>)
    requires |list| == |list0| >= 2 && 0 <= list[0] <= list0[0] <= |list| - 2 && list[0] < |weights|
    requires list[list[0] + 1] == list0[list0[0] + 1]
    requires forall q :: list[0] + 1 < q < |list| ==> list[q] == list0[q]
    ensures Packed(list, weights) && Shrunk(list0, list)
  {
  }

  lemma MapNext(ps: seq<Member>, active: seq<bool>, i: int)
    requires 1 <= i <= |ps| && MembersIn(ps, |active|)
    ensures MembersIn(ps[..i - 1], |active|) && MembersIn(ps[..i], |active|)
    ensures var (m, w) := ps[i - 1];
            Mapped(ps[..i], active) == Mapped(ps[..i - 1], active) + if active[m] then [(Rank(active, m), w)] else []
  {
    var qs := ps[..i];
    assert qs[..|qs| - 1] == ps[..i - 1] && qs[|qs| - 1] == ps[i - 1];
    assert MembersIn(qs, |active|);
    hide Rank, MembersIn;
  }

  method MapOne(list: array<int>, weights: array<real>, newidx: seq<int>, active: seq<bool>,
                ghost list0: seq<int>, ghost weights0: seq<real>, ghost ps: seq<Member>, i: nat, ii: nat) returns (ii': nat)
    requires 1 <= i <= |ps| && i < list.Length && i < weights.Length && ps[i - 1] == (list[i], weights[i])
    requires MembersIn(ps, |active|) && MembersIn(ps[..i - 1], |active|) && MembersIn(ps[..i], |active|)
    requires |newidx| == |active| && forall k :: 1 <= k < |active| && active[k] ==> newidx[k] == Rank(active, k)
    requires Shifting(list0, weights0, list[..], weights[..], Mapped(ps[..i - 1], active), i, ii)
    modifies list, weights
    ensures Shifting(list0, weights0, list[..], weights[..], Mapped(ps[..i], active), i + 1, ii')
  {
    MapNext(ps, active, i);
    ii' := ii;
    var nr := list[i];
    assert 1 <= nr < |active|;
    if !active[nr] {
      hide Block;
      return;
    }
    ShiftedNext(list0, weights0, list[..], weights[..], Mapped(ps[..i - 1], active), i, ii, newidx[nr]);
    hide *;
    ii' := ii + 1;
    list[ii'] := newidx[nr];
    weights[ii'] := weights[i];
  }

  /** The new numbers of the active columns. */
  method NewIndices(active: seq<bool>) returns (newidx: seq<int>)
    ensures |newidx| == |active| && forall k :: 1 <= k < |active| && active[k] ==> newidx[k] == Rank(active, k)
  {
    newidx := seq(|active|, _ => 0);
    var i, ii := 1, 0;
    while i < |active|
      invariant 1 <= i && (|active| > 0 ==> i <= |active| && ii == Rank(active, i - 1)) && |newidx| == |active|
      invariant forall k :: 1 <= k < i && k < |active| && active[k] ==> newidx[k] == Rank(active, k)
    {
      if active[i] {
        ii := ii + 1;
        newidx := newidx[i := ii];
      }
      i := i + 1;
    }
  }
}
