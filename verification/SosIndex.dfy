/** The column-to-sets index of lp_SOS.c (`SOS_member_updatemap`): a counting sort of the members of all sets. */
module SosIndex {

  /** The members 1..k of one packed set, paired with the set's number. */
  ghost function SetPairs(s: seq<int>, id: int, k: nat): (r: seq<(int, int)>)
    requires k < |s|
    ensures |r| == k
  {
    if k == 0 then [] else SetPairs(s, id, k - 1) + [(s[k], id)]
  }

  /** The entries 1..size of every set are columns in 1..columns. The code reads that many of them; it keeps
      `size` apart from the member count at the head of the list. */
  ghost predicate ValidLists(lists: seq<seq<int>>, sizes: seq<nat>, columns: nat) {
    |sizes| == |lists| && forall i :: 0 <= i < |lists| ==> ValidEntries(lists[i], sizes[i], columns)
  }

  ghost predicate ValidEntries(s: seq<int>, size: nat, columns: nat) {
    size < |s| && forall j :: 1 <= j <= size ==> 1 <= s[j] <= columns
  }

  /** The pairs of the first `i` sets, in the order in which the code visits them. */
  ghost function Pairs(lists: seq<seq<int>>, sizes: seq<nat>, columns: nat, i: nat): seq<(int, int)>
    requires ValidLists(lists, sizes, columns) && i <= |lists|
  {
    if i == 0 then [] else Pairs(lists, sizes, columns, i - 1) + SetPairs(lists[i - 1], i, sizes[i - 1])
  }

  /** The sets of the pairs that belong to column `v`, in order. */
  ghost function Sel(ps: seq<(int, int)>, v: int): seq<int> {
    if ps == [] then []
    else Sel(ps[..|ps| - 1], v) + if ps[|ps| - 1].0 == v then [ps[|ps| - 1].1] else []
  }

  lemma SelSnoc(ps: seq<(int, int)>, p: (int, int), v: int)
    ensures Sel(ps + [p], v) == Sel(ps, v) + if p.0 == v then [p.1] else []
  {
    assert (ps + [p])[..|ps|] == ps;
  }

  lemma {:induction false} SelPrefix(ps: seq<(int, int)>, qs: seq<(int, int)>, v: int)
    requires ps <= qs
    ensures Sel(ps, v) <= Sel(qs, v)
    decreases |qs|
  {
    if |ps| < |qs| {
      SelPrefix(ps, qs[..|qs| - 1], v);
    } else {
      assert ps == qs;
    }
  }

  /** Where column `v + 1` starts in the index. */
  ghost function Start(ps: seq<(int, int)>, v: nat): nat {
    if v == 0 then 0 else Start(ps, v - 1) + |Sel(ps, v)|
  }

  lemma {:induction false} StartMonotone(ps: seq<(int, int)>, u: nat, v: nat)
    requires u <= v
    ensures Start(ps, u) <= Start(ps, v)
  {
    if u < v {
      StartMonotone(ps, u, v - 1);
    }
  }

  // ------------------------------------------------------------------ what the index means

  lemma {:induction false} SelIn(ps: seq<(int, int)>, v: int, id: int)
    ensures id in Sel(ps, v) <==> (v, id) in ps
  {
    if ps != [] {
      SelIn(ps[..|ps| - 1], v, id);
      assert ps == ps[..|ps| - 1] + [ps[|ps| - 1]];
    }
  }

  /** `v` is among the entries 1..size. */
  ghost predicate Holds(s: seq<int>, size: nat, v: int) {
    size < |s| && exists j :: 1 <= j <= size && s[j] == v
  }

  lemma {:induction false} SetPairsIn(s: seq<int>, id: int, k: nat, p: (int, int))
    requires k < |s|
    ensures p in SetPairs(s, id, k) <==> p.1 == id && exists j :: 1 <= j <= k && s[j] == p.0
  {
    if k > 0 {
      SetPairsIn(s, id, k - 1, p);
    }
  }

  lemma {:induction false} PairsIn(lists: seq<seq<int>>, sizes: seq<nat>, columns: nat, i: nat, p: (int, int))
    requires ValidLists(lists, sizes, columns) && i <= |lists|
    ensures p in Pairs(lists, sizes, columns, i) <==>
            1 <= p.1 <= i && Holds(lists[p.1 - 1], sizes[p.1 - 1], p.0)
  {
    if i > 0 {
      PairsIn(lists, sizes, columns, i - 1, p);
      SetPairsIn(lists[i - 1], i, sizes[i - 1], p);
    }
  }

  /** The slice of a column lists exactly the sets that hold it among the entries that are read. */
  lemma SliceMeansMembership(lists: seq<seq<int>>, sizes: seq<nat>, columns: nat, v: int, id: int)
    requires ValidLists(lists, sizes, columns)
    ensures id in Sel(Pairs(lists, sizes, columns, |lists|), v) <==>
            1 <= id <= |lists| && Holds(lists[id - 1], sizes[id - 1], v)
  {
    SelIn(Pairs(lists, sizes, columns, |lists|), v, id);
    PairsIn(lists, sizes, columns, |lists|, (v, id));
  }

  /** How often `v` is among the entries 1..k. */
  ghost function Occurs(s: seq<int>, k: nat, v: int): nat
    requires k < |s|
  {
    if k == 0 then 0 else Occurs(s, k - 1, v) + if s[k] == v then 1 else 0
  }

  lemma {:induction false} OccursGrows(s: seq<int>, k: nat, n: nat, v: int)
    requires k <= n < |s|
    ensures Occurs(s, k, v) <= Occurs(s, n, v)
  {
    if k < n {
      OccursGrows(s, k, n - 1, v);
    }
  }

  lemma OccursMore(s: seq<int>, k: nat, n: nat)
    requires 1 <= k <= n < |s|
    ensures Occurs(s, k - 1, s[k]) < Occurs(s, n, s[k])
  {
    OccursGrows(s, k, n, s[k]);
  }

  /** How often `x` is in a list. */
  ghost function Times(xs: seq<int>, x: int): nat {
    multiset(xs)[x]
  }

  lemma TimesAppend(xs: seq<int>, ys: seq<int>, x: int)
    ensures Times(xs + ys, x) == Times(xs, x) + Times(ys, x)
  {
    assert multiset(xs + ys) == multiset(xs) + multiset(ys);
  }

  lemma {:induction false} SelAppend(ps: seq<(int, int)>, qs: seq<(int, int)>, v: int)
    ensures Sel(ps + qs, v) == Sel(ps, v) + Sel(qs, v)
  {
    assert Sel([], v) == [];
    hide Sel;
    if qs == [] {
      assert ps + qs == ps;
    } else {
      var l := |qs| - 1;
      SelAppend(ps, qs[..l], v);
      assert ps + qs == (ps + qs[..l]) + [qs[l]] && qs == qs[..l] + [qs[l]];
      SelSnoc(ps + qs[..l], qs[l], v);
      SelSnoc(qs[..l], qs[l], v);
    }
  }

  lemma {:induction false} SetCopies(s: seq<int>, id: int, k: nat, v: int, x: int)
    requires k < |s|
    ensures Times(Sel(SetPairs(s, id, k), v), x) == if x == id then Occurs(s, k, v) else 0
  {
    if k > 0 {
      SetCopies(s, id, k - 1, v, x);
      SelSnoc(SetPairs(s, id, k - 1), (s[k], id), v);
      TimesAppend(Sel(SetPairs(s, id, k - 1), v), if s[k] == v then [id] else [], x);
    }
  }

  lemma PairsAdd(lists: seq<seq<int>>, sizes: seq<nat>, columns: nat, i: nat)
    requires ValidLists(lists, sizes, columns) && 1 <= i <= |lists|
    ensures sizes[i - 1] < |lists[i - 1]|
    ensures Pairs(lists, sizes, columns, i) == Pairs(lists, sizes, columns, i - 1) + SetPairs(lists[i - 1], i, sizes[i - 1])
  {
    assert ValidEntries(lists[i - 1], sizes[i - 1], columns);
  }

  lemma NoCopies(lists: seq<seq<int>>, sizes: seq<nat>, columns: nat, v: int, x: int)
    requires ValidLists(lists, sizes, columns)
    ensures Times(Sel(Pairs(lists, sizes, columns, 0), v), x) == 0
  {
  }

  lemma SizesFit(lists: seq<seq<int>>, sizes: seq<nat>, columns: nat)
    requires ValidLists(lists, sizes, columns)
    ensures |sizes| == |lists| && forall i :: 0 <= i < |lists| ==> sizes[i] < |lists[i]|
  {
    forall i | 0 <= i < |lists| ensures sizes[i] < |lists[i]| {
      assert ValidEntries(lists[i], sizes[i], columns);
    }
  }

  lemma PairsCopiesNext(lists: seq<seq<int>>, sizes: seq<nat>, columns: nat, i: nat, v: int, x: int)
    requires ValidLists(lists, sizes, columns) && 1 <= i <= |lists| == |sizes| && sizes[i - 1] < |lists[i - 1]|
    ensures Times(Sel(Pairs(lists, sizes, columns, i), v), x)
         == Times(Sel(Pairs(lists, sizes, columns, i - 1), v), x) + if x == i then Occurs(lists[i - 1], sizes[i - 1], v) else 0
  {
    hide *;
    PairsAdd(lists, sizes, columns, i);
    var ps, qs := Pairs(lists, sizes, columns, i - 1), SetPairs(lists[i - 1], i, sizes[i - 1]);
    SetCopies(lists[i - 1], i, sizes[i - 1], v, x);
    SelAppend(ps, qs, v);
    TimesAppend(Sel(ps, v), Sel(qs, v), x);
  }

  /** A slice lists a set as often as the column is among the entries that are read of it. */
  lemma {:induction false} PairsCopies(lists: seq<seq<int>>, sizes: seq<nat>, columns: nat, i: nat, v: int, x: int)
    requires ValidLists(lists, sizes, columns) && i <= |lists|
    ensures Times(Sel(Pairs(lists, sizes, columns, i), v), x) == if 1 <= x <= i then Occurs(lists[x - 1], sizes[x - 1], v) else 0
  {
    hide *;
    if i == 0 {
      NoCopies(lists, sizes, columns, v, x);
    } else {
      SizesFit(lists, sizes, columns);
      PairsCopies(lists, sizes, columns, i - 1, v, x);
      PairsCopiesNext(lists, sizes, columns, i, v, x);
    }
  }

  /** The slice of column `v` lists every set as often as the column is a member of it. */
  ghost predicate SliceExact(slice: seq<int>, lists: seq<seq<int>>, v: int) {
    forall id :: 1 <= id <= |lists| ==> CopiesAre(slice, lists, v, id)
  }

  ghost predicate CopiesAre(slice: seq<int>, lists: seq<seq<int>>, v: int, id: int)
    requires 1 <= id <= |lists|
  {
    var s := lists[id - 1];
    0 < |s| && 0 <= s[0] < |s| && Times(slice, id) == Occurs(s, s[0], v)
  }

  ghost predicate SlicesExact(all: seq<(int, int)>, lists: seq<seq<int>>, columns: nat) {
    forall v :: 1 <= v <= columns ==> SliceExact(Sel(all, v), lists, v)
  }

  /** The members of all sets are columns. */
  ghost predicate ValidMembers(lists: seq<seq<int>>, columns: nat) {
    forall i :: 0 <= i < |lists| ==> |lists[i]| > 0 && 0 <= lists[i][0] && ValidEntries(lists[i], lists[i][0], columns)
  }

  ghost predicate SizesAreCounts(lists: seq<seq<int>>, sizes: seq<nat>) {
    |sizes| == |lists| && forall i :: 0 <= i < |lists| ==> |lists[i]| > 0 && sizes[i] == lists[i][0]
  }

  /** The slices are the member relation exactly if every size is the member count: a size that is too large
      adds what stands behind the members, one that is too small leaves members out. */
  lemma SizesExact(lists: seq<seq<int>>, sizes: seq<nat>, columns: nat)
    requires ValidLists(lists, sizes, columns) && ValidMembers(lists, columns)
    ensures SlicesExact(Pairs(lists, sizes, columns, |lists|), lists, columns) <==> SizesAreCounts(lists, sizes)
  {
    var all := Pairs(lists, sizes, columns, |lists|);
    hide Pairs, Sel, Times, Occurs;
    if SizesAreCounts(lists, sizes) {
      forall v | 1 <= v <= columns ensures SliceExact(Sel(all, v), lists, v) {
        forall id | 1 <= id <= |lists| ensures CopiesAre(Sel(all, v), lists, v, id) {
          assert ValidEntries(lists[id - 1], lists[id - 1][0], columns);
          PairsCopies(lists, sizes, columns, |lists|, v, id);
        }
      }
    }
    if SlicesExact(all, lists, columns) {
      forall i | 0 <= i < |lists| ensures sizes[i] == lists[i][0] {
        SizeExact(lists, sizes, columns, i);
      }
    }
  }

  lemma SizeExact(lists: seq<seq<int>>, sizes: seq<nat>, columns: nat, i: nat)
    requires ValidLists(lists, sizes, columns) && ValidMembers(lists, columns) && i < |lists|
    requires SlicesExact(Pairs(lists, sizes, columns, |lists|), lists, columns)
    ensures sizes[i] == lists[i][0]
  {
    var s, size, count := lists[i], sizes[i], lists[i][0];
    var all := Pairs(lists, sizes, columns, |lists|);
    assert ValidEntries(s, size, columns);
    if size != count {
      var k := if size < count then size + 1 else count + 1;
      var v := s[k];
      assert SliceExact(Sel(all, v), lists, v);
      assert CopiesAre(Sel(all, v), lists, v, i + 1);
      hide Sel, Pairs, ValidLists, SliceExact;
      PairsCopies(lists, sizes, columns, |lists|, v, i + 1);
      OccursMore(s, k, if size < count then count else size);
    }
  }

  ghost predicate Ascending(xs: seq<int>) {
    forall i, j :: 0 <= i < j < |xs| ==> xs[i] <= xs[j]
  }

  ghost predicate IdsAscending(ps: seq<(int, int)>) {
    forall a, b :: 0 <= a < b < |ps| ==> ps[a].1 <= ps[b].1
  }

  lemma {:induction false} PairsAscending(lists: seq<seq<int>>, sizes: seq<nat>, columns: nat, i: nat)
    requires ValidLists(lists, sizes, columns) && i <= |lists|
    ensures IdsAscending(Pairs(lists, sizes, columns, i))
    ensures forall a :: 0 <= a < |Pairs(lists, sizes, columns, i)| ==> Pairs(lists, sizes, columns, i)[a].1 <= i
  {
    if i > 0 {
      PairsAscending(lists, sizes, columns, i - 1);
      SetPairsId(lists[i - 1], i, sizes[i - 1]);
      var prev, cur := Pairs(lists, sizes, columns, i - 1), SetPairs(lists[i - 1], i, sizes[i - 1]);
      assert Pairs(lists, sizes, columns, i) == prev + cur;
      assert forall a :: 0 <= a < |prev| ==> (prev + cur)[a] == prev[a];
      assert forall a :: |prev| <= a < |prev + cur| ==> (prev + cur)[a] == cur[a - |prev|];
    }
  }

  lemma {:induction false} SetPairsId(s: seq<int>, id: int, k: nat)
    requires k < |s|
    ensures forall a :: 0 <= a < k ==> SetPairs(s, id, k)[a].1 == id
  {
    if k > 0 {
      SetPairsId(s, id, k - 1);
      assert forall a :: 0 <= a < k - 1 ==> SetPairs(s, id, k)[a] == SetPairs(s, id, k - 1)[a];
    }
  }

  lemma {:induction false} SelAscending(ps: seq<(int, int)>, v: int)
    requires IdsAscending(ps)
    ensures Ascending(Sel(ps, v))
    ensures forall x :: x in Sel(ps, v) && ps != [] ==> x <= ps[|ps| - 1].1
  {
    if ps != [] {
      var l := |ps| - 1;
      assert forall a :: 0 <= a < l ==> ps[..l][a] == ps[a];
      SelAscending(ps[..l], v);
      forall x | x in Sel(ps[..l], v) ensures x <= ps[l].1 {
        assert l > 0 && x <= ps[..l][l - 1].1;
      }
      assert forall q :: 0 <= q < |Sel(ps[..l], v)| ==> Sel(ps[..l], v)[q] in Sel(ps[..l], v);
    }
  }

  /** ... in ascending order. */
  lemma SliceAscending(lists: seq<seq<int>>, sizes: seq<nat>, columns: nat, v: int)
    requires ValidLists(lists, sizes, columns)
    ensures Ascending(Sel(Pairs(lists, sizes, columns, |lists|), v))
  {
    PairsAscending(lists, sizes, columns, |lists|);
    SelAscending(Pairs(lists, sizes, columns, |lists|), v);
  }

  ghost function Total(lists: seq<seq<int>>, sizes: seq<nat>, columns: nat, i: nat): nat
    requires ValidLists(lists, sizes, columns) && i <= |lists|
  {
    if i == 0 then 0 else Total(lists, sizes, columns, i - 1) + sizes[i - 1]
  }

  lemma {:induction false} PairsSize(lists: seq<seq<int>>, sizes: seq<nat>, columns: nat, i: nat)
    requires ValidLists(lists, sizes, columns) && i <= |lists|
    ensures |Pairs(lists, sizes, columns, i)| == Total(lists, sizes, columns, i)
    ensures forall a :: 0 <= a < |Pairs(lists, sizes, columns, i)| ==> 1 <= Pairs(lists, sizes, columns, i)[a].0 <= columns
  {
    if i > 0 {
      PairsSize(lists, sizes, columns, i - 1);
      SetPairsColumns(lists[i - 1], i, sizes[i - 1], columns);
    }
  }

  lemma {:induction false} SetPairsColumns(s: seq<int>, id: int, k: nat, columns: nat)
    requires k < |s| && forall j :: 1 <= j <= k ==> 1 <= s[j] <= columns
    ensures forall a :: 0 <= a < k ==> 1 <= SetPairs(s, id, k)[a].0 <= columns
  {
    if k > 0 {
      SetPairsColumns(s, id, k - 1, columns);
      assert forall a :: 0 <= a < k - 1 ==> SetPairs(s, id, k)[a] == SetPairs(s, id, k - 1)[a];
    }
  }

  /** The slices tile the index: it ends where the last column's slice ends, after all members of all sets. */
  lemma {:induction false} StartTotal(ps: seq<(int, int)>, columns: nat)
    requires forall a :: 0 <= a < |ps| ==> 1 <= ps[a].0 <= columns
    ensures Start(ps, columns) == |ps|
  {
    if ps == [] {
      StartEmpty(columns);
    } else {
      var l := |ps| - 1;
      assert forall a :: 0 <= a < l ==> ps[..l][a] == ps[a];
      StartTotal(ps[..l], columns);
      StartStep(ps, columns);
    }
  }

  lemma {:induction false} StartEmpty(v: nat)
    ensures Start([], v) == 0
  {
    if v > 0 {
      StartEmpty(v - 1);
    }
  }

  lemma {:induction false} StartStep(ps: seq<(int, int)>, v: nat)
    requires ps != []
    ensures Start(ps, v) == Start(ps[..|ps| - 1], v) + if 1 <= ps[|ps| - 1].0 <= v then 1 else 0
  {
    if v > 0 {
      StartStep(ps, v - 1);
    }
  }

  // ------------------------------------------------------------------ the algorithm

  ghost function UsedTo(ps: seq<(int, int)>, v: nat): nat {
    if v == 0 then 0 else UsedTo(ps, v - 1) + if Sel(ps, v) != [] then 1 else 0
  }

  /** The columns 1..v that are among the entries read of some set. */
  ghost function Held(lists: seq<seq<int>>, sizes: seq<nat>, v: nat): set<nat>
    requires |sizes| == |lists|
  {
    set u: nat | 1 <= u <= v && HeldBy(lists, sizes, u)
  }

  ghost predicate HeldBy(lists: seq<seq<int>>, sizes: seq<nat>, u: nat)
    requires |sizes| == |lists|
  {
    exists i :: 0 <= i < |lists| && Holds(lists[i], sizes[i], u)
  }

  ghost function Sliced(ps: seq<(int, int)>, v: nat): set<nat> {
    set u: nat | 1 <= u <= v && Sel(ps, u) != []
  }

  lemma {:induction false} UsedSize(ps: seq<(int, int)>, v: nat)
    ensures UsedTo(ps, v) == |Sliced(ps, v)|
  {
    if v == 0 {
      assert Sliced(ps, 0) == {};
    } else {
      UsedSize(ps, v - 1);
      hide Sel;
      assert Sliced(ps, v) == Sliced(ps, v - 1) + if Sel(ps, v) != [] then {v} else {};
    }
  }

  /** The number of columns with a slice is the number of columns that are held. */
  lemma UsedIsHeld(lists: seq<seq<int>>, sizes: seq<nat>, columns: nat, v: nat)
    requires ValidLists(lists, sizes, columns)
    ensures UsedTo(Pairs(lists, sizes, columns, |lists|), v) == |Held(lists, sizes, v)|
  {
    var ps := Pairs(lists, sizes, columns, |lists|);
    UsedSize(ps, v);
    forall u: nat ensures Sel(ps, u) != [] <==> HeldBy(lists, sizes, u) {
      SliceIfHeld(lists, sizes, columns, u);
    }
    hide HeldBy, Pairs, Sel, UsedTo, ValidLists;
    assert Sliced(ps, v) == Held(lists, sizes, v);
  }

  lemma SliceIfHeld(lists: seq<seq<int>>, sizes: seq<nat>, columns: nat, v: nat)
    requires ValidLists(lists, sizes, columns)
    ensures Sel(Pairs(lists, sizes, columns, |lists|), v) != [] <==> HeldBy(lists, sizes, v)
  {
    var slice := Sel(Pairs(lists, sizes, columns, |lists|), v);
    if slice != [] {
      SliceMeansMembership(lists, sizes, columns, v, slice[0]);
    }
    if HeldBy(lists, sizes, v) {
      var i :| 0 <= i < |lists| && Holds(lists[i], sizes[i], v);
      SliceMeansMembership(lists, sizes, columns, v, i + 1);
    }
  }

  /** `tally` counts the pairs seen so far. */
  ghost predicate Counted(tally: seq<int>, ps: seq<(int, int)>, columns: nat) {
    |tally| == columns + 1 && forall v :: 1 <= v <= columns ==> tally[v] == |Sel(ps, v)|
  }

  lemma NothingCounted(tally: seq<int>, lists: seq<seq<int>>, sizes: seq<nat>, columns: nat)
    requires |tally| == columns + 1 && forall v :: 0 <= v <= columns ==> tally[v] == 0
    requires ValidLists(lists, sizes, columns)
    ensures Counted(tally, Pairs(lists, sizes, columns, 0), columns)
  {
  }

  lemma CountNext(tally: seq<int>, ps: seq<(int, int)>, p: (int, int), columns: nat)
    requires Counted(tally, ps, columns) && 1 <= p.0 <= columns
    ensures |tally| == columns + 1 && Counted(tally[p.0 := tally[p.0] + 1], ps + [p], columns)
  {
    forall v | 1 <= v <= columns ensures tally[p.0 := tally[p.0] + 1][v] == |Sel(ps + [p], v)| {
      SelSnoc(ps, p, v);
    }
  }

  /** One more member of set `i` has been visited. */
  lemma PairsSnoc(lists: seq<seq<int>>, sizes: seq<nat>, columns: nat, i: nat, j: nat)
    requires ValidLists(lists, sizes, columns) && i < |lists| && 1 <= j <= sizes[i]
    ensures Pairs(lists, sizes, columns, i) + SetPairs(lists[i], i + 1, j - 1) + [(lists[i][j], i + 1)]
         == Pairs(lists, sizes, columns, i) + SetPairs(lists[i], i + 1, j)
  {
  }

  /** The pairs `ps` have been placed: each column's slice is filled up to `tally`. */
  ghost predicate Placed(tally: seq<int>, membership: seq<int>, all: seq<(int, int)>, ps: seq<(int, int)>, columns: nat) {
    && |tally| == columns + 1 && ps <= all && Start(all, columns) <= |membership|
    && (forall v :: 1 <= v <= columns ==> tally[v] == Start(all, v - 1) + |Sel(ps, v)|)
    && (forall v, q {:trigger Sel(ps, v)[q]} :: 1 <= v <= columns && 0 <= q < |Sel(ps, v)| && Start(all, v - 1) + q < |membership| ==>
          membership[Start(all, v - 1) + q] == Sel(ps, v)[q])
  }

  lemma PlaceNext(tally: seq<int>, membership: seq<int>, all: seq<(int, int)>, ps: seq<(int, int)>, p: (int, int), columns: nat)
    requires Placed(tally, membership, all, ps, columns) && ps + [p] <= all && 1 <= p.0 <= columns
    ensures 0 <= tally[p.0] < Start(all, columns)
    ensures Placed(tally[p.0 := tally[p.0] + 1], membership[tally[p.0] := p.1], all, ps + [p], columns)
  {
    var v0, k := p.0, tally[p.0];
    SelSnoc(ps, p, v0);
    SelPrefix(ps + [p], all, v0);
    StartMonotone(all, v0, columns);
    var m', t' := membership[k := p.1], tally[v0 := k + 1];
    forall v | 1 <= v <= columns ensures t'[v] == Start(all, v - 1) + |Sel(ps + [p], v)| {
      SelSnoc(ps, p, v);
    }
    forall v, q {:trigger Sel(ps + [p], v)[q]} | 1 <= v <= columns && 0 <= q < |Sel(ps + [p], v)| && Start(all, v - 1) + q < |m'|
      ensures m'[Start(all, v - 1) + q] == Sel(ps + [p], v)[q]
    {
      PlaceEntry(tally, membership, all, ps, p, columns, v, q);
    }
  }

  lemma PlaceEntry(tally: seq<int>, membership: seq<int>, all: seq<(int, int)>, ps: seq<(int, int)>, p: (int, int), columns: nat,
                   v: nat, q: nat)
    requires Placed(tally, membership, all, ps, columns) && ps + [p] <= all && 1 <= p.0 <= columns
    requires 0 <= tally[p.0] < |membership|
    requires 1 <= v <= columns && q < |Sel(ps + [p], v)| && Start(all, v - 1) + q < |membership|
    ensures membership[tally[p.0] := p.1][Start(all, v - 1) + q] == Sel(ps + [p], v)[q]
  {
    hide *;
    PlacedAt(tally, membership, all, ps, columns, p.0);
    SelSnoc(ps, p, v);
    if q < |Sel(ps, v)| {
      PlacedEntry(tally, membership, all, ps, columns, v, q);
      EntryApart(all, ps, p, v, q);
    }
  }

  lemma PlacedAt(tally: seq<int>, membership: seq<int>, all: seq<(int, int)>, ps: seq<(int, int)>, columns: nat, v: nat)
    requires Placed(tally, membership, all, ps, columns) && 1 <= v <= columns
    ensures v < |tally| && tally[v] == Start(all, v - 1) + |Sel(ps, v)|
  {
  }

  lemma PlacedEntry(tally: seq<int>, membership: seq<int>, all: seq<(int, int)>, ps: seq<(int, int)>, columns: nat, v: nat, q: nat)
    requires Placed(tally, membership, all, ps, columns) && 1 <= v <= columns && q < |Sel(ps, v)|
    requires Start(all, v - 1) + q < |membership|
    ensures membership[Start(all, v - 1) + q] == Sel(ps, v)[q]
  {
  }

  /** The places already filled are not where the next pair goes. */
  lemma EntryApart(all: seq<(int, int)>, ps: seq<(int, int)>, p: (int, int), v: nat, q: nat)
    requires ps + [p] <= all && 1 <= p.0 && 1 <= v && q < |Sel(ps, v)|
    ensures Start(all, v - 1) + q != Start(all, p.0 - 1) + |Sel(ps, p.0)|
  {
    var v0 := p.0;
    SelSnoc(ps, p, v0);
    SelPrefix(ps + [p], all, v0);
    SelPrefix(ps, all, v);
    if v < v0 {
      StartMonotone(all, v, v0 - 1);
    } else if v > v0 {
      StartMonotone(all, v0, v - 1);
    }
    hide Sel;
  }

  lemma PairsNext(lists: seq<seq<int>>, sizes: seq<nat>, columns: nat, i: nat)
    requires ValidLists(lists, sizes, columns) && i < |lists|
    ensures Pairs(lists, sizes, columns, i + 1) == Pairs(lists, sizes, columns, i) + SetPairs(lists[i], i + 1, sizes[i])
  {
  }

  lemma {:induction false} PairsGrow(lists: seq<seq<int>>, sizes: seq<nat>, columns: nat, i: nat, k: nat)
    requires ValidLists(lists, sizes, columns) && i <= k <= |lists|
    ensures Pairs(lists, sizes, columns, i) <= Pairs(lists, sizes, columns, k)
  {
    if i < k {
      PairsGrow(lists, sizes, columns, i, k - 1);
    }
  }

  lemma {:induction false} SetPairsGrow(s: seq<int>, id: int, j: nat, k: nat)
    requires j <= k < |s|
    ensures SetPairs(s, id, j) <= SetPairs(s, id, k)
  {
    if j < k {
      SetPairsGrow(s, id, j, k - 1);
    }
  }

  lemma PairsPrefix(lists: seq<seq<int>>, sizes: seq<nat>, columns: nat, i: nat, j: nat)
    requires ValidLists(lists, sizes, columns) && i < |lists| && 1 <= j <= sizes[i]
    ensures Pairs(lists, sizes, columns, i) + SetPairs(lists[i], i + 1, j) <= Pairs(lists, sizes, columns, |lists|)
  {
    PairsGrow(lists, sizes, columns, i + 1, |lists|);
    SetPairsGrow(lists[i], i + 1, j, sizes[i]);
  }

  /** The finished index: the slice of every column is its selection, and the slices tile the index. */
  ghost predicate Maps(pos: seq<int>, membership: seq<int>, ps: seq<(int, int)>, columns: nat) {
    && |pos| == columns + 1 && pos[columns] <= |membership|
    && (forall v :: 0 <= v <= columns ==> pos[v] == Start(ps, v))
    && forall v :: 1 <= v <= columns ==> SliceIs(pos, membership, ps, v)
  }

  ghost predicate SliceIs(pos: seq<int>, membership: seq<int>, ps: seq<(int, int)>, v: int) {
    1 <= v < |pos| && 0 <= pos[v - 1] <= pos[v] <= |membership| && membership[pos[v - 1]..pos[v]] == Sel(ps, v)
  }

  /** Every slice of the map lists every set as often as its column is a member of it. */
  ghost predicate MapExact(pos: seq<int>, membership: seq<int>, lists: seq<seq<int>>, columns: nat) {
    forall v :: 1 <= v <= columns ==> MapExactAt(pos, membership, lists, v)
  }

  ghost predicate MapExactAt(pos: seq<int>, membership: seq<int>, lists: seq<seq<int>>, v: int) {
    1 <= v < |pos| && 0 <= pos[v - 1] <= pos[v] <= |membership| && SliceExact(membership[pos[v - 1]..pos[v]], lists, v)
  }

  /** The finished map is the member relation exactly if the sizes are the member counts. */
  lemma MapsExact(pos: seq<int>, membership: seq<int>, lists: seq<seq<int>>, sizes: seq<nat>, columns: nat)
    requires ValidLists(lists, sizes, columns) && ValidMembers(lists, columns)
    requires Maps(pos, membership, Pairs(lists, sizes, columns, |lists|), columns)
    ensures MapExact(pos, membership, lists, columns) <==> SizesAreCounts(lists, sizes)
  {
    var all := Pairs(lists, sizes, columns, |lists|);
    forall v | 1 <= v <= columns ensures MapExactAt(pos, membership, lists, v) <==> SliceExact(Sel(all, v), lists, v) {
      assert SliceIs(pos, membership, all, v);
    }
    SizesExact(lists, sizes, columns);
    hide Pairs, Maps, SliceExact, Sel;
  }

  lemma SizesAreValid(lists: seq<seq<int>>, sizes: seq<nat>, columns: nat)
    requires ValidMembers(lists, columns) && SizesAreCounts(lists, sizes)
    ensures ValidLists(lists, sizes, columns)
  {
  }

  ghost predicate StartsTo(pos: seq<int>, ps: seq<(int, int)>, k: int) {
    forall v :: 0 <= v <= k && v < |pos| ==> pos[v] == Start(ps, v)
  }

  lemma AllStarts(lists: seq<seq<int>>, sizes: seq<nat>, columns: nat, pos: seq<int>)
    requires ValidLists(lists, sizes, columns) && |pos| == columns + 1 && StartsTo(pos, Pairs(lists, sizes, columns, |lists|), columns)
    ensures pos[columns] == Start(Pairs(lists, sizes, columns, |lists|), columns) == |Pairs(lists, sizes, columns, |lists|)|
  {
    PairsSize(lists, sizes, columns, |lists|);
    StartTotal(Pairs(lists, sizes, columns, |lists|), columns);
  }

  lemma NothingPlaced(tally: seq<int>, pos: seq<int>, membership: seq<int>, all: seq<(int, int)>, columns: nat)
    requires |tally| == |pos| == columns + 1 && Start(all, columns) <= |membership|
    requires StartsTo(pos, all, columns)
    requires forall v :: 1 <= v <= columns ==> tally[v] == pos[v - 1]
    ensures Placed(tally, membership, all, [], columns)
  {
  }

  lemma AllPlaced(tally: seq<int>, pos: seq<int>, membership: seq<int>, all: seq<(int, int)>, columns: nat)
    requires Placed(tally, membership, all, all, columns) && |pos| == columns + 1
    requires StartsTo(pos, all, columns)
    ensures Maps(pos, membership, all, columns)
  {
    forall v | 1 <= v <= columns ensures SliceIs(pos, membership, all, v) {
      StartMonotone(all, v, columns);
      SlicePlaced(tally, pos, membership, all, columns, v);
    }
  }

  lemma SlicePlaced(tally: seq<int>, pos: seq<int>, membership: seq<int>, all: seq<(int, int)>, columns: nat, v: nat)
    requires Placed(tally, membership, all, all, columns) && |pos| == columns + 1 && 1 <= v <= columns
    requires pos[v - 1] == Start(all, v - 1) && pos[v] == Start(all, v) == Start(all, v - 1) + |Sel(all, v)| <= |membership|
    ensures SliceIs(pos, membership, all, v)
  {
    var slice := membership[pos[v - 1]..pos[v]];
    forall q | 0 <= q < |slice| ensures slice[q] == Sel(all, v)[q] {
      assert membership[Start(all, v - 1) + q] == Sel(all, v)[q];
    }
    hide Placed;
    assert slice == Sel(all, v);
  }
}
