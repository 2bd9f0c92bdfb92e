/** The hash table for row and column names (lp_Hash.c): bucket chains and an insertion list over the same
    elements. Elements are kept in one sequence and refer to each other by position; -1 is the null pointer. */
module HashTables {
  import opened HashNames

  datatype Elem = Elem(name: Name, index: int, next: int, nextelem: int)

  /** Entry `i` of a list of elements, or null. */
  function At(ids: seq<nat>, i: int): int {
    if 0 <= i < |ids| then ids[i] else -1
  }

  ghost predicate Distinct(ids: seq<nat>, n: nat) {
    && (forall i :: 0 <= i < |ids| ==> ids[i] < n)
    && (forall i, j :: 0 <= i < j < |ids| ==> ids[i] != ids[j])
  }

  function Names(nodes: seq<Elem>, ids: seq<nat>): (r: seq<Name>)
    ensures |r| == |ids|
  {
    seq(|ids|, i requires 0 <= i < |ids| => if ids[i] < |nodes| then nodes[ids[i]].name else [])
  }

  /** Names and indices of the elements. */
  function Entries(nodes: seq<Elem>, ids: seq<nat>): (r: seq<(Name, int)>)
    ensures |r| == |ids|
  {
    seq(|ids|, i requires 0 <= i < |ids| => if ids[i] < |nodes| then (nodes[ids[i]].name, nodes[ids[i]].index) else ([], 0))
  }

  /** The insertion list holds `ids`: each element is linked to the one inserted after it. */
  ghost predicate IsList(nodes: seq<Elem>, ids: seq<nat>, first: int) {
    && Distinct(ids, |nodes|) && first == At(ids, 0)
    && forall i :: 0 <= i < |ids| ==> nodes[ids[i]].nextelem == At(ids, i + 1)
  }

  /** Each bucket starts at the latest element with its hash value, and each element is followed by the
      latest one before it with the same hash value. */
  ghost predicate AreChains(nodes: seq<Elem>, ids: seq<nat>, table: seq<int>) {
    && |table| > 0 && Distinct(ids, |nodes|)
    && (forall b: nat :: b < |table| ==> BucketOk(ids, Names(nodes, ids), table[b], |table|, b))
    && (forall i: nat :: i < |ids| ==> NextOk(ids, Names(nodes, ids), nodes[ids[i]].next, |table|, i))
  }

  ghost predicate BucketOk(ids: seq<nat>, names: seq<Name>, head: int, size: nat, b: nat)
    requires size > 0
  {
    head == At(ids, Latest(names, size, b, |names|))
  }

  ghost predicate NextOk(ids: seq<nat>, names: seq<Name>, next: int, size: nat, i: nat)
    requires size > 0 && i < |names|
  {
    next == At(ids, Latest(names, size, Hash(names[i], size), i))
  }

  /** `create_hash_table`: the first listed prime above the wanted size, or the largest one. */
  method GoodSize(wanted: int) returns (size: int)
    ensures 0 < size && (wanted < 9999991 ==> size > wanted)
  {
    var primes := [29, 229, 883, 1671, 2791, 4801, 8629, 10007, 15289, 25303, 34843, 65269, 99709, 129403, 147673, 166669,
                   201403, 222163, 242729, 261431, 303491, 320237, 402761, 501131, 602309, 701507, 800999, 900551, 1000619,
                   1100837, 1200359, 1300021, 1400017, 1500007, 1750009, 2000003, 2500009, 3000017, 4000037, 5000011, 6000011,
                   7000003, 8000009, 9000011, 9999991];
    var least := if wanted < 5000 then 5000 else wanted;
    var i := 0;
    assert |primes| == 45 && primes[44] == 9999991;
    while i < 44 && primes[i] <= least
      invariant 0 <= i <= 44
    {
      i := i + 1;
    }
    size := primes[i];
  }

  /** `hashval`: the accumulator never reaches 2^28. */
  method HashVal(s: Name, size: nat) returns (h: nat)
    requires size > 0
    ensures h == Hash(s, size)
  {
    var result := 0;
    var i := 0;
    while i < |s|
      invariant 0 <= i <= |s| && result == HashFold(s[..i]) && 0 <= result < HIGH
    {
      assert s[..i + 1][..i] == s[..i];
      result := FoldTop((result * 16 + s[i]) % WORD);
      i := i + 1;
    }
    assert s[..|s|] == s;
    h := result % size;
  }

  // ------------------------------------------------------------------ adding an element

  lemma AppendBucket(ids: seq<nat>, names: seq<Name>, head: int, size: nat, h: nat, name: Name, b: nat)
    requires size > 0 && |ids| == |names| && BucketOk(ids, names, head, size, b)
    ensures BucketOk(ids + [h], names + [name], if Hash(name, size) == b then h else head, size, b)
  {
    LatestPrefix(names, [name], size, b, |names|);
    hide Hash;
  }

  lemma AppendNext(ids: seq<nat>, names: seq<Name>, next: int, size: nat, h: nat, name: Name, i: nat)
    requires size > 0 && |ids| == |names| && i <= |ids|
    requires if i < |ids| then NextOk(ids, names, next, size, i) else BucketOk(ids, names, next, size, Hash(name, size))
    ensures NextOk(ids + [h], names + [name], next, size, i)
  {
    var ns := names + [name];
    LatestPrefix(names, [name], size, Hash(ns[i], size), i);
    hide Hash;
  }

  /** The elements after `e` has been added at the end of the list. */
  ghost predicate Extends(nodes: seq<Elem>, ids: seq<nat>, nodes': seq<Elem>, e: Elem) {
    && |nodes'| == |nodes| + 1 && nodes'[|nodes|] == e
    && forall k :: 0 <= k < |nodes| ==>
         nodes'[k] == if k == At(ids, |ids| - 1) then nodes[k].(nextelem := |nodes|) else nodes[k]
  }

  lemma AppendedNames(nodes: seq<Elem>, ids: seq<nat>, nodes': seq<Elem>, e: Elem)
    requires Distinct(ids, |nodes|) && Extends(nodes, ids, nodes', e)
    ensures Distinct(ids + [|nodes|], |nodes'|) && Names(nodes', ids + [|nodes|]) == Names(nodes, ids) + [e.name]
  {
    var ids' := ids + [|nodes|];
    forall i | 0 <= i < |ids'| ensures ids'[i] < |nodes'| && nodes'[ids'[i]].name == (Names(nodes, ids) + [e.name])[i] {
    }
  }

  lemma AppendedList(nodes: seq<Elem>, ids: seq<nat>, first: int, nodes': seq<Elem>, e: Elem)
    requires IsList(nodes, ids, first) && Extends(nodes, ids, nodes', e) && e.nextelem == -1
    ensures IsList(nodes', ids + [|nodes|], if ids == [] then |nodes| else first)
  {
    AppendedNames(nodes, ids, nodes', e);
    hide Names;
    var ids' := ids + [|nodes|];
    forall i | 0 <= i < |ids'| ensures nodes'[ids'[i]].nextelem == At(ids', i + 1) {
    }
  }

  lemma AppendedChains(nodes: seq<Elem>, ids: seq<nat>, table: seq<int>, nodes': seq<Elem>, e: Elem)
    requires AreChains(nodes, ids, table) && Extends(nodes, ids, nodes', e)
    requires e.next == table[Hash(e.name, |table|)]
    ensures AreChains(nodes', ids + [|nodes|], table[Hash(e.name, |table|) := |nodes|])
  {
    hide Hash, BucketOk, NextOk, Names;
    var h, size, b := |nodes|, |table|, Hash(e.name, |table|);
    var ids', table' := ids + [h], table[b := h];
    var names := Names(nodes, ids);
    var names' := names + [e.name];
    AppendedNames(nodes, ids, nodes', e);
    forall c: nat | c < size ensures BucketOk(ids', names', table'[c], size, c) {
      AppendBucket(ids, names, table[c], size, h, e.name, c);
    }
    forall i: nat | i < |ids'| ensures NextOk(ids', names', nodes'[ids'[i]].next, size, i) {
      AppendNext(ids, names, nodes'[ids'[i]].next, size, h, e.name, i);
    }
  }

  /** A table in good order that holds `n` elements. */
  ghost predicate InOrder(nodes: seq<Elem>, ids: seq<nat>, table: seq<int>, first: int, last: int, n: int) {
    && IsList(nodes, ids, first) && AreChains(nodes, ids, table) && NoRepeat(Names(nodes, ids))
    && last == At(ids, |ids| - 1) && n == |ids|
  }

  ghost predicate Added(nodes: seq<Elem>, ids: seq<nat>, name: Name, index: int, nodes': seq<Elem>, ids': seq<nat>, h: int) {
    && h == |nodes| == |nodes'| - 1 && ids' == ids + [h] && nodes'[h].name == name && nodes'[h].index == index
    && forall k :: 0 <= k < |nodes| ==> nodes'[k].name == nodes[k].name && nodes'[k].index == nodes[k].index
  }

  /** Linking a new element keeps the table in order. */
  lemma AppendInOrder(nodes: seq<Elem>, ids: seq<nat>, table: seq<int>, first: int, last: int, n: int, nodes': seq<Elem>, e: Elem)
    requires |table| > 0 && -1 <= last < |nodes| && InOrder(nodes, ids, table, first, last, n) && e.name !in Names(nodes, ids)
    requires e.next == table[Hash(e.name, |table|)] && e.nextelem == -1
    requires nodes' == LinkLast(nodes + [e], last, |nodes|)
    ensures InOrder(nodes', ids + [|nodes|], table[Hash(e.name, |table|) := |nodes|], if first == -1 then |nodes| else first, |nodes|, n + 1)
    ensures Added(nodes, ids, e.name, e.index, nodes', ids + [|nodes|], |nodes|)
    ensures Names(nodes', ids + [|nodes|]) == Names(nodes, ids) + [e.name]
  {
    AppendExtends(nodes, ids, first, last, nodes', e);
    hide *;
    AppendedNames(nodes, ids, nodes', e);
    AppendedList(nodes, ids, first, nodes', e);
    AppendedChains(nodes, ids, table, nodes', e);
    PutTogether(nodes, ids, table, first, last, n, nodes', e);
  }

  /** The nodes after `h` has been linked behind the last one. */
  function LinkLast(nodes: seq<Elem>, last: int, h: int): seq<Elem>
    requires last < |nodes|
  {
    if last < 0 then nodes else nodes[last := nodes[last].(nextelem := h)]
  }

  lemma LinkLastIs(nodes: seq<Elem>, last: int, h: int)
    requires last < |nodes|
    ensures LinkLast(nodes, last, h) == if last < 0 then nodes else nodes[last := nodes[last].(nextelem := h)]
  {
  }

  lemma AppendExtends(nodes: seq<Elem>, ids: seq<nat>, first: int, last: int, nodes': seq<Elem>, e: Elem)
    requires IsList(nodes, ids, first) && last == At(ids, |ids| - 1) && -1 <= last < |nodes|
    requires nodes' == LinkLast(nodes + [e], last, |nodes|)
    ensures Extends(nodes, ids, nodes', e) && (first == -1 <==> ids == [])
  {
  }

  lemma PutTogether(nodes: seq<Elem>, ids: seq<nat>, table: seq<int>, first: int, last: int, n: int, nodes': seq<Elem>, e: Elem)
    requires |table| > 0 && InOrder(nodes, ids, table, first, last, n) && e.name !in Names(nodes, ids) && Extends(nodes, ids, nodes', e)
    requires Distinct(ids + [|nodes|], |nodes'|) && Names(nodes', ids + [|nodes|]) == Names(nodes, ids) + [e.name]
    requires IsList(nodes', ids + [|nodes|], if ids == [] then |nodes| else first)
    requires AreChains(nodes', ids + [|nodes|], table[Hash(e.name, |table|) := |nodes|])
    ensures InOrder(nodes', ids + [|nodes|], table[Hash(e.name, |table|) := |nodes|], if ids == [] then |nodes| else first, |nodes|, n + 1)
    ensures Added(nodes, ids, e.name, e.index, nodes', ids + [|nodes|], |nodes|)
  {
    hide Hash, Names, IsList, AreChains;
    NoRepeatSnoc(Names(nodes, ids), e.name);
  }

  lemma NoRepeatSnoc(ns: seq<Name>, name: Name)
    requires NoRepeat(ns) && name !in ns
    ensures NoRepeat(ns + [name])
  {
    var ns' := ns + [name];
    forall i, j | 0 <= i < j < |ns'| ensures ns'[i] != ns'[j] {
      assert ns[i] in ns;
    }
  }

  lemma HeadAt(nodes: seq<Elem>, ids: seq<nat>, table: seq<int>, b: nat)
    requires AreChains(nodes, ids, table) && b < |table|
    ensures table[b] == At(ids, Latest(Names(nodes, ids), |table|, b, |ids|))
  {
    assert BucketOk(ids, Names(nodes, ids), table[b], |table|, b);
  }

  lemma NextAt(nodes: seq<Elem>, ids: seq<nat>, table: seq<int>, k: nat)
    requires AreChains(nodes, ids, table) && k < |ids|
    ensures |table| > 0 && 0 <= At(ids, k) < |nodes|
    ensures nodes[At(ids, k)].next == At(ids, Latest(Names(nodes, ids), |table|, Hash(Names(nodes, ids)[k], |table|), k))
  {
    assert NextOk(ids, Names(nodes, ids), nodes[ids[k]].next, |table|, k);
  }

  lemma EntryAt(nodes: seq<Elem>, ids: seq<nat>, k: int)
    requires Distinct(ids, |nodes|) && -1 <= k < |ids|
    ensures At(ids, k) == -1 <==> k == -1
    ensures k >= 0 ==> At(ids, k) in ids && 0 <= At(ids, k) < |nodes| && nodes[At(ids, k)].name == Names(nodes, ids)[k]
  {
  }

  // ------------------------------------------------------------------ dropping an element

  function Removed(ids: seq<nat>, p: nat): seq<nat>
    requires p < |ids|
  {
    ids[..p] + ids[p + 1..]
  }

  /** The element before `p` in its bucket: position `i`, or -1 if `p` is the head. */
  ghost predicate Before(names: seq<Name>, size: nat, p: nat, i: int)
    requires size > 0 && p < |names|
  {
    var b := Hash(names[p], size);
    if i == -1 then Latest(names, size, b, |names|) == p
    else p < i < |names| && Hash(names[i], size) == b && Latest(names, size, b, i) == p
  }

  lemma AtShift(ids: seq<nat>, p: nat, l: int)
    requires p < |ids| && -1 <= l < |ids| && l != p
    ensures At(Removed(ids, p), Shift(l, p)) == At(ids, l)
  {
  }

  lemma DropBucket(ids: seq<nat>, names: seq<Name>, head: int, size: nat, p: nat, i: int, next: int, b: nat)
    requires size > 0 && |ids| == |names| && p < |ids| && Before(names, size, p, i)
    requires BucketOk(ids, names, head, size, b) && NextOk(ids, names, next, size, p)
    ensures BucketOk(Removed(ids, p), Without(names, p), if i == -1 && b == Hash(names[p], size) then next else head, size, b)
  {
    hide Hash;
    var l := Latest(names, size, b, |names|);
    LatestWithout(names, size, b, p, |names|);
    if l != p {
      AtShift(ids, p, l);
    } else {
      AtBelow(ids, p, Latest(names, size, b, p));
    }
  }

  /** `o` is the old position of the element that is now at `Shift(o, p)`. */
  lemma DropNext(ids: seq<nat>, names: seq<Name>, size: nat, p: nat, i: int, next: int, o: nat, onext: int)
    requires size > 0 && |ids| == |names| && p < |ids| && Before(names, size, p, i) && o < |ids| && o != p
    requires NextOk(ids, names, onext, size, o) && NextOk(ids, names, next, size, p)
    ensures 0 <= Shift(o, p) < |names| - 1 && Without(names, p)[Shift(o, p)] == names[o]
    ensures NextOk(Removed(ids, p), Without(names, p), if o == i then next else onext, size, Shift(o, p))
  {
    hide *;
    var b := Hash(names[o], size);
    var l := Latest(names, size, b, o);
    NextIs(ids, names, onext, size, o);
    NextIs(ids, names, next, size, p);
    WithoutAt(names, p, o);
    if o < p {
      LatestBefore(names, size, b, p, o);
      AtShift(ids, p, l);
      ShiftSmall(l, p);
      BeforeRange(names, size, p, i);
    } else {
      LatestWithout(names, size, b, p, o);
      if l != p {
        AtShift(ids, p, l);
        NotPredecessor(names, size, p, i, o);
      } else {
        OnlyPredecessor(names, size, p, i, o);
        AtBelow(ids, p, Latest(names, size, b, p));
      }
    }
    NextOkIs(Removed(ids, p), Without(names, p), if o == i then next else onext, size, Shift(o, p));
  }

  lemma NextIs(ids: seq<nat>, names: seq<Name>, next: int, size: nat, i: nat)
    requires size > 0 && i < |names| && NextOk(ids, names, next, size, i)
    ensures next == At(ids, Latest(names, size, Hash(names[i], size), i))
  {
    hide Hash, Latest;
  }

  lemma NextOkIs(ids: seq<nat>, names: seq<Name>, next: int, size: nat, i: nat)
    requires size > 0 && i < |names| && next == At(ids, Latest(names, size, Hash(names[i], size), i))
    ensures NextOk(ids, names, next, size, i)
  {
    hide Hash, Latest;
  }

  lemma WithoutAt(names: seq<Name>, p: nat, o: nat)
    requires p < |names| && o < |names| && o != p
    ensures |Without(names, p)| == |names| - 1 && 0 <= Shift(o, p) < |names| - 1 && Without(names, p)[Shift(o, p)] == names[o]
    ensures Shift(o, p) == if o < p then o else o - 1
  {
  }

  lemma ShiftSmall(l: int, p: nat)
    ensures l < p ==> Shift(l, p) == l
  {
  }

  /** An element that is not followed by `p` is not the one before it. */
  lemma NotPredecessor(names: seq<Name>, size: nat, p: nat, i: int, o: nat)
    requires size > 0 && p < |names| && o < |names| && Before(names, size, p, i)
    requires Latest(names, size, Hash(names[o], size), o) != p
    ensures o != i
  {
    hide Hash, Latest;
  }

  lemma AtBelow(ids: seq<nat>, p: nat, l: int)
    requires l < p < |ids|
    ensures At(Removed(ids, p), l) == At(ids, l)
  {
  }

  /** Only the element before `p` in its bucket is followed by `p`. */
  lemma OnlyPredecessor(names: seq<Name>, size: nat, p: nat, i: int, o: nat)
    requires size > 0 && p < o < |names| && Before(names, size, p, i) && Latest(names, size, Hash(names[o], size), o) == p
    ensures o == i
  {
    hide Hash;
  }

  /** Old position of the entry that is at `q` after the removal of entry `p`. */
  function Unshift(q: int, p: nat): int {
    if q < p then q else q + 1
  }

  lemma RemovedEntries(ids: seq<nat>, p: nat, n: nat)
    requires p < |ids| && Distinct(ids, n)
    ensures Distinct(Removed(ids, p), n) && |Removed(ids, p)| == |ids| - 1
    ensures forall q :: 0 <= q < |ids| - 1 ==> Removed(ids, p)[q] < n
    ensures forall q :: 0 <= q < |ids| - 1 ==> Removed(ids, p)[q] == ids[Unshift(q, p)]
  {
  }

  lemma RemovedNames(nodes: seq<Elem>, ids: seq<nat>, p: nat, nodes': seq<Elem>)
    requires p < |ids| && Distinct(ids, |nodes|) && |nodes'| == |nodes|
    requires forall k :: 0 <= k < |nodes| ==> nodes'[k].name == nodes[k].name
    ensures Names(nodes', Removed(ids, p)) == Without(Names(nodes, ids), p)
  {
    RemovedEntries(ids, p, |nodes|);
    var ns, ws := Names(nodes', Removed(ids, p)), Without(Names(nodes, ids), p);
    forall q | 0 <= q < |ns| ensures ns[q] == ws[q] {
      assert ws[q] == Names(nodes, ids)[Unshift(q, p)];
    }
  }

  /** Unlinking entry `p` from its bucket. */
  lemma DropChains(nodes: seq<Elem>, ids: seq<nat>, table: seq<int>, p: nat, i: int, nodes': seq<Elem>, table': seq<int>)
    requires AreChains(nodes, ids, table) && p < |ids| && Before(Names(nodes, ids), |table|, p, i) && |nodes'| == |nodes|
    requires forall k :: 0 <= k < |nodes| ==> nodes'[k].name == nodes[k].name
    requires forall k :: 0 <= k < |nodes| ==> nodes'[k].next == if i >= 0 && k == At(ids, i) then nodes[ids[p]].next else nodes[k].next
    requires table' == if i >= 0 then table else table[Hash(Names(nodes, ids)[p], |table|) := nodes[ids[p]].next]
    ensures AreChains(nodes', Removed(ids, p), table')
  {
    hide *;
    ChainParts(nodes, ids, table);
    BeforeRange(Names(nodes, ids), |table|, p, i);
    RemovedNames(nodes, ids, p, nodes');
    RemovedEntries(ids, p, |nodes|);
    var ids', names' := Removed(ids, p), Without(Names(nodes, ids), p);
    forall b: nat | b < |table| ensures BucketOk(ids', names', table'[b], |table|, b) {
      DropBucket(ids, Names(nodes, ids), table[b], |table|, p, i, nodes[ids[p]].next, b);
    }
    forall q: nat | q < |ids'| ensures NextOk(ids', names', nodes'[ids'[q]].next, |table|, q) {
      DropChainNext(nodes, ids, table, p, i, nodes', q);
    }
    ChainsAre(nodes', ids', table');
  }

  lemma ChainParts(nodes: seq<Elem>, ids: seq<nat>, table: seq<int>)
    requires AreChains(nodes, ids, table)
    ensures |table| > 0 && Distinct(ids, |nodes|) && (forall i :: 0 <= i < |ids| ==> ids[i] < |nodes|)
    ensures forall b: nat :: b < |table| ==> BucketOk(ids, Names(nodes, ids), table[b], |table|, b)
    ensures forall i: nat :: i < |ids| ==> NextOk(ids, Names(nodes, ids), nodes[ids[i]].next, |table|, i)
  {
  }

  lemma ChainsAre(nodes: seq<Elem>, ids: seq<nat>, table: seq<int>)
    requires |table| > 0 && Distinct(ids, |nodes|) && (forall i :: 0 <= i < |ids| ==> ids[i] < |nodes|)
    requires forall b: nat :: b < |table| ==> BucketOk(ids, Names(nodes, ids), table[b], |table|, b)
    requires forall i: nat :: i < |ids| ==> NextOk(ids, Names(nodes, ids), nodes[ids[i]].next, |table|, i)
    ensures AreChains(nodes, ids, table)
  {
    hide Names, BucketOk, NextOk;
  }

  lemma DropChainNext(nodes: seq<Elem>, ids: seq<nat>, table: seq<int>, p: nat, i: int, nodes': seq<Elem>, q: nat)
    requires AreChains(nodes, ids, table) && p < |ids| && Before(Names(nodes, ids), |table|, p, i) && |nodes'| == |nodes|
    requires forall k :: 0 <= k < |nodes| ==> nodes'[k].next == if i >= 0 && k == At(ids, i) then nodes[ids[p]].next else nodes[k].next
    requires q < |ids| - 1
    ensures Removed(ids, p)[q] < |nodes'| && |Without(Names(nodes, ids), p)| == |ids| - 1
    ensures NextOk(Removed(ids, p), Without(Names(nodes, ids), p), nodes'[Removed(ids, p)[q]].next, |table|, q)
  {
    var o := Unshift(q, p);
    var names, next, onext := Names(nodes, ids), nodes[ids[p]].next, nodes[ids[o]].next;
    assert NextOk(ids, names, next, |table|, p) && NextOk(ids, names, onext, |table|, o);
    ChangedNext(nodes, ids, p, i, nodes', o);
    RemovedEntries(ids, p, |nodes|);
    BeforeRange(names, |table|, p, i);
    hide *;
    DropNext(ids, names, |table|, p, i, next, o, onext);
    ShiftUnshift(q, p);
  }

  lemma ShiftUnshift(q: nat, p: nat)
    ensures Unshift(q, p) != p && Shift(Unshift(q, p), p) == q
  {
  }

  lemma ChangedNext(nodes: seq<Elem>, ids: seq<nat>, p: nat, i: int, nodes': seq<Elem>, o: nat)
    requires Distinct(ids, |nodes|) && p < |ids| && -1 <= i < |ids| && |nodes'| == |nodes| && o < |ids|
    requires forall k :: 0 <= k < |nodes| ==> nodes'[k].next == if i >= 0 && k == At(ids, i) then nodes[ids[p]].next else nodes[k].next
    ensures nodes'[ids[o]].next == if o == i then nodes[ids[p]].next else nodes[ids[o]].next
  {
    assert i >= 0 && o != i ==> ids[o] != ids[i];
  }

  lemma BeforeRange(names: seq<Name>, size: nat, p: nat, i: int)
    requires size > 0 && p < |names| && Before(names, size, p, i)
    ensures i == -1 || p < i < |names|
  {
  }

  /** Unlinking entry `p` from the insertion list. */
  lemma DropList(nodes: seq<Elem>, ids: seq<nat>, first: int, p: nat, nodes': seq<Elem>)
    requires IsList(nodes, ids, first) && p < |ids| && |nodes'| == |nodes|
    requires forall k :: 0 <= k < |nodes| ==>
               nodes'[k].nextelem == if p > 0 && k == ids[p - 1] then nodes[ids[p]].nextelem else nodes[k].nextelem
    ensures IsList(nodes', Removed(ids, p), if p > 0 then first else nodes[ids[p]].nextelem)
  {
    var ids' := Removed(ids, p);
    RemovedEntries(ids, p, |nodes|);
    assert At(ids', 0) == if p > 0 then first else nodes[ids[p]].nextelem;
    forall q | 0 <= q < |ids'| ensures nodes'[ids'[q]].nextelem == At(ids', q + 1) {
      var o := Unshift(q, p);
      assert nodes[ids[o]].nextelem == At(ids, o + 1);
      assert q + 1 < |ids'| ==> At(ids', q + 1) == ids[Unshift(q + 1, p)];
      assert nodes[ids[p]].nextelem == At(ids, p + 1);
      hide IsList, Removed;
      if o + 1 == p {
        assert ids[o] == ids[p - 1];
      } else {
        assert p > 0 ==> ids[o] != ids[p - 1];
      }
    }
  }

  class HashTable {
    const table: array<int>
    const size: nat
    const base: int
    var nodes: seq<Elem>
    var count: int
    var first: int
    var last: int
    /** The elements in the order of insertion. */
    ghost var ids: seq<nat>

    ghost predicate Linked()
      reads this, table
    {
      table.Length == size && IsList(nodes, ids, first) && AreChains(nodes, ids, table[..])
    }

    ghost function Keys(): (r: seq<Name>)
      reads this
    {
      Names(nodes, ids)
    }

    ghost predicate Valid()
      reads this, table
    {
      table.Length == size && InOrder(nodes, ids, table[..], first, last, count - (base - 1))
    }

    constructor (wanted: int, base: int)
      ensures Valid() && ids == [] && nodes == [] && fresh(table) && this.base == base
      ensures wanted < 9999991 ==> size > wanted
    {
      var n := GoodSize(wanted);
      size := n;
      this.base := base;
      count := base - 1;
      first, last := -1, -1;
      nodes, ids := [], [];
      table := new int[n](_ => -1);
    }

    /** `findhash`. */
    method Find(name: Name) returns (h: int, ghost k: int)
      requires Linked()
      ensures h == -1 <==> name !in Keys()
      ensures -1 <= k < |ids| && h == At(ids, k) && (k >= 0 ==> Keys()[k] == name)
      ensures h != -1 ==> h in ids && 0 <= h < |nodes| && nodes[h].name == name
    {
      hide *;
      LinkedShape();
      var b := HashVal(name, size);
      ghost var names := Keys();
      HeadAt(nodes, ids, table[..], b);
      h := table[b];
      k := Latest(names, size, b, |names|);
      EntryAt(nodes, ids, k);
      while h != -1 && nodes[h].name != name
        invariant -1 <= k < |ids| == |names| && h == At(ids, k)
        invariant h == -1 <==> k == -1
        invariant k >= 0 ==> h in ids && 0 <= h < |nodes| && nodes[h].name == names[k] && Hash(names[k], size) == b
        invariant forall j :: k < j < |names| ==> names[j] != name
        decreases k
      {
        NextAt(nodes, ids, table[..], k);
        h := nodes[h].next;
        k := Latest(names, size, b, k);
        EntryAt(nodes, ids, k);
      }
    }

    lemma LinkedShape()
      requires Linked()
      ensures size > 0 && table.Length == size && Distinct(ids, |nodes|) && AreChains(nodes, ids, table[..])
      ensures Keys() == Names(nodes, ids)
    {
    }

    /** `puthash`: add a name unless it is already there, and keep the list of elements by index. */
    method Put(name: Name, index: int, list: array?<int>) returns (h: int)
      requires Valid() && (list != null ==> list != table && 0 <= index < list.Length)
      modifies this, table, list
      ensures Valid()
      ensures name in old(Keys()) ==> ids == old(ids) && nodes == old(nodes) && h in ids && nodes[h].name == name
      ensures name !in old(Keys()) ==> Added(old(nodes), old(ids), name, index, nodes, ids, h) && Keys() == old(Keys()) + [name]
      ensures list != null ==> list[..] == old(list[..])[index := if name in old(Keys()) then -1 else h]
    {
      hide *;
      var isNew;
      h, isNew := Insert(name, index);
      if list != null {
        list[index] := -1;
        if isNew {
          list[index] := h;
        }
      }
    }

    /** Find a name, or add it. */
    method Insert(name: Name, index: int) returns (h: int, isNew: bool)
      requires Valid()
      modifies this, table
      ensures Valid() && (isNew <==> name !in old(Keys()))
      ensures !isNew ==> ids == old(ids) && nodes == old(nodes) && h in ids && nodes[h].name == name
      ensures isNew ==> Added(old(nodes), old(ids), name, index, nodes, ids, h) && Keys() == old(Keys()) + [name]
    {
      hide *;
      Shape();
      ghost var k;
      h, k := Find(name);
      isNew := h == -1;
      if isNew {
        h := Append(name, index);
      }
    }

    /** Add an element in front of its bucket and at the end of the insertion list. */
    method Append(name: Name, index: int) returns (h: int)
      requires Valid() && name !in Keys()
      modifies this, table
      ensures Valid() && Added(old(nodes), old(ids), name, index, nodes, ids, h) && Keys() == old(Keys()) + [name]
    {
      hide *;
      Shape();
      ghost var nodes0, ids0, table0, first0, last0 := nodes, ids, table[..], first, last;
      var b := HashVal(name, size);
      h := |nodes|;
      count := count + 1;
      ghost var e := Elem(name, index, table[b], -1);
      nodes := nodes + [Elem(name, index, table[b], -1)];
      table[b] := h;
      if first == -1 {
        first := h;
      }
      assert table[..] == table0[b := h];
      LinkLastIs(nodes, last, h);
      if last != -1 {
        nodes := nodes[last := nodes[last].(nextelem := h)];
      }
      last := h;
      ids := ids + [h];
      assert nodes == LinkLast(nodes0 + [e], last0, h);
      AppendInOrder(nodes0, ids0, table0, first0, last0, count - base, nodes, e);
      NowValid();
    }

    lemma Shape()
      requires Valid()
      ensures Linked() && size > 0 && table.Length == size && -1 <= last < |nodes| && -1 <= first < |nodes|
      ensures InOrder(nodes, ids, table[..], first, last, count - (base - 1)) && Keys() == Names(nodes, ids)
      ensures Distinct(ids, |nodes|) && IsList(nodes, ids, first) && AreChains(nodes, ids, table[..])
      ensures last == At(ids, |ids| - 1) && count == base - 1 + |ids| && NoRepeat(Keys())
    {
    }

    lemma NowValid()
      requires table.Length == size && InOrder(nodes, ids, table[..], first, last, count - (base - 1))
      ensures Valid() && Distinct(ids, |nodes|) && Keys() == Names(nodes, ids)
    {
    }

    /** `drophash`: unlink the element with this name from its bucket and from the insertion list. `last` is
        only reset when the list becomes empty. */
    method Drop(name: Name, list: array?<int>) returns (ghost p: int)
      requires Valid() && (list != null ==> list != table && forall i :: i in ids ==> 0 <= nodes[i].index < list.Length)
      modifies this, table, list
      ensures -1 <= p < |old(ids)| && (p == -1 <==> name !in old(Keys()))
      ensures p == -1 ==> Valid() && ids == old(ids) && nodes == old(nodes) && (list != null ==> list[..] == old(list[..]))
      ensures p >= 0 ==> old(Keys())[p] == name && Linked() && ids == Removed(old(ids), p) && Keys() == Without(old(Keys()), p)
      ensures p >= 0 ==> count == base - 1 + |ids| && NoRepeat(Keys())
      ensures p >= 0 ==> last == (if ids == [] then -1 else old(last)) && (Valid() <==> p < |old(ids)| - 1 || ids == [])
      ensures p >= 0 && list != null ==> Cleared(old(list[..]), list[..], old(nodes), old(ids)[p])
    {
      hide *;
      Shape();
      var hp;
      hp, p := Find(name);
      EntryAt(nodes, ids, p);
      AtIs(ids, p);
      if hp == -1 {
        return;
      }
      ghost var nodes0, ids0, last0, names0 := nodes, ids, last, Keys();
      var index := nodes[hp].index;
      UnlinkBucket(hp, p);
      ListKept(nodes0, nodes, ids, first);
      ghost var nodes1 := nodes;
      UnlinkList(hp, p);
      ChainsKept(nodes1, nodes, Removed(ids, p), table[..]);
      if list != null {
        list[index] := -1;
      }
      count := count - 1;
      NamesKept(nodes0, nodes1, nodes);
      RemovedNames(nodes0, ids, p, nodes);
      ids := Removed(ids, p);
      DroppedFacts(names0, ids0, p, |nodes0|, last0);
      NowLinked();
      FirstNull(nodes, ids, first);
      if list != null {
        ClearedIs(old(list[..]), list[..], nodes0, hp);
      }
    }

    lemma NowLinked()
      requires table.Length == size && IsList(nodes, ids, first) && AreChains(nodes, ids, table[..])
      ensures Linked() && Keys() == Names(nodes, ids)
      ensures Valid() <==> NoRepeat(Keys()) && last == At(ids, |ids| - 1) && count == base - 1 + |ids|
    {
    }

    /** Unlink element `hp`, entry `p`, from its bucket. */
    method UnlinkBucket(hp: int, ghost p: nat)
      requires Linked() && p < |ids| && hp == ids[p]
      modifies this`nodes, table
      ensures SameExceptNext(old(nodes), nodes)
      ensures AreChains(nodes, Removed(ids, p), table[..])
    {
      hide *;
      LinkedShape();
      ghost var nodes0, table0, names := nodes, table[..], Names(nodes, ids);
      EntryAt(nodes, ids, p);
      AtIs(ids, p);
      var b := HashVal(nodes[hp].name, size);
      var hp1, hp2 := table[b], -1;
      ghost var j, i := Latest(names, size, b, |names|), -1;
      HeadAt(nodes, ids, table[..], b);
      LatestAtLeast(names, size, p, |names|);
      AtIs(ids, -1);
      while hp1 != -1 && hp1 != hp
        invariant nodes == nodes0 && table[..] == table0
        invariant p <= j < |ids| && hp1 == At(ids, j) && -1 <= i < |ids| && hp2 == At(ids, i)
        invariant if i == -1 then j == Latest(names, size, b, |names|) else i > j && Hash(names[i], size) == b && j == Latest(names, size, b, i)
        decreases j
      {
        NextAt(nodes, ids, table[..], j);
        SamePlace(ids, |nodes|, p, j);
        LatestAtLeast(names, size, p, j);
        hp2, i := hp1, j;
        hp1 := nodes[hp1].next;
        j := Latest(names, size, b, j);
      }
      SamePlace(ids, |nodes|, p, j);
      EntryAt(nodes, ids, i);
      BeforeIs(names, size, p, i);
      if hp2 != -1 {
        nodes := nodes[hp2 := nodes[hp2].(next := nodes[hp].next)];
      } else {
        table[b] := nodes[hp].next;
      }
      NextChanged(nodes0, hp2, nodes0[hp].next, nodes);
      DropChains(nodes0, ids, table0, p, i, nodes, table[..]);
    }

    /** Unlink element `hp`, entry `p`, from the insertion list. */
    method UnlinkList(hp: int, ghost p: nat)
      requires IsList(nodes, ids, first) && p < |ids| && hp == ids[p]
      modifies this`nodes, this`first, this`last
      ensures SameExceptNextElem(old(nodes), nodes)
      ensures IsList(nodes, Removed(ids, p), first)
      ensures last == if first == -1 then -1 else old(last)
    {
      ghost var nodes0, first0 := nodes, first;
      var hp1, hp2 := first, -1;
      ghost var j := 0;
      while hp1 != -1 && hp1 != hp
        invariant 0 <= j <= p && hp1 == At(ids, j) && hp2 == At(ids, j - 1)
        decreases p - j
      {
        hp2 := hp1;
        hp1 := nodes[hp1].nextelem;
        j := j + 1;
      }
      assert j == p;
      hide IsList, Removed;
      if hp2 != -1 {
        nodes := nodes[hp2 := nodes[hp2].(nextelem := nodes[hp].nextelem)];
      } else {
        first := nodes[hp].nextelem;
        if first == -1 {
          last := -1;
        }
      }
      DropList(nodes0, ids, first0, p, nodes);
    }
  }

  lemma ListKept(nodes: seq<Elem>, nodes': seq<Elem>, ids: seq<nat>, first: int)
    requires IsList(nodes, ids, first) && SameExceptNext(nodes, nodes')
    ensures IsList(nodes', ids, first)
  {
  }

  lemma NamesKept(nodes: seq<Elem>, nodes1: seq<Elem>, nodes2: seq<Elem>)
    requires SameExceptNext(nodes, nodes1) && SameExceptNextElem(nodes1, nodes2)
    ensures |nodes2| == |nodes| && forall k :: 0 <= k < |nodes| ==> nodes2[k].name == nodes[k].name && nodes2[k].index == nodes[k].index
  {
  }

  lemma ChainsKept(nodes: seq<Elem>, nodes': seq<Elem>, ids: seq<nat>, table: seq<int>)
    requires AreChains(nodes, ids, table) && SameExceptNextElem(nodes, nodes')
    ensures AreChains(nodes', ids, table)
  {
    assert Names(nodes', ids) == Names(nodes, ids);
    hide Names, Hash, BucketOk, NextOk;
  }

  /** What remains after the removal of entry `p`, and when `last` is still right. */
  lemma DroppedFacts(names: seq<Name>, ids: seq<nat>, p: nat, n: nat, last: int)
    requires NoRepeat(names) && |names| == |ids| && p < |ids| && Distinct(ids, n) && last == At(ids, |ids| - 1)
    ensures NoRepeat(Without(names, p)) && |Removed(ids, p)| == |ids| - 1
    ensures At(Removed(ids, p), |ids| - 2) == (if Removed(ids, p) == [] then -1 else last) <==> p < |ids| - 1 || Removed(ids, p) == []
  {
    var ws := Without(names, p);
    forall i, j | 0 <= i < j < |ws| ensures ws[i] != ws[j] {
      assert ws[i] == names[Unshift(i, p)] && ws[j] == names[Unshift(j, p)];
    }
    RemovedEntries(ids, p, n);
  }

  /** The entry of element `h` in the list of elements by index has been cleared. */
  ghost predicate Cleared(list: seq<int>, list': seq<int>, nodes: seq<Elem>, h: nat) {
    h < |nodes| && 0 <= nodes[h].index < |list| && list' == list[nodes[h].index := -1]
  }

  lemma ClearedIs(list: seq<int>, list': seq<int>, nodes: seq<Elem>, h: int)
    requires 0 <= h < |nodes| && 0 <= nodes[h].index < |list| && list' == list[nodes[h].index := -1]
    ensures Cleared(list, list', nodes, h)
  {
  }

  lemma FirstNull(nodes: seq<Elem>, ids: seq<nat>, first: int)
    requires IsList(nodes, ids, first)
    ensures first == -1 <==> ids == []
  {
  }

  ghost predicate SameExceptNext(nodes: seq<Elem>, nodes': seq<Elem>) {
    |nodes'| == |nodes| && forall k :: 0 <= k < |nodes| ==> nodes'[k] == nodes[k].(next := nodes'[k].next)
  }

  ghost predicate SameExceptNextElem(nodes: seq<Elem>, nodes': seq<Elem>) {
    |nodes'| == |nodes| && forall k :: 0 <= k < |nodes| ==> nodes'[k] == nodes[k].(nextelem := nodes'[k].nextelem)
  }

  lemma NextChanged(nodes: seq<Elem>, h: int, next: int, nodes': seq<Elem>)
    requires -1 <= h < |nodes| && nodes' == if h == -1 then nodes else nodes[h := nodes[h].(next := next)]
    ensures SameExceptNext(nodes, nodes')
    ensures forall k :: 0 <= k < |nodes| ==> nodes'[k].name == nodes[k].name
    ensures forall k :: 0 <= k < |nodes| ==> nodes'[k].next == if k == h then next else nodes[k].next
  {
  }

  lemma LatestAtLeast(names: seq<Name>, size: nat, p: nat, n: nat)
    requires size > 0 && p < |names| && n <= |names|
    ensures p < n ==> Latest(names, size, Hash(names[p], size), n) >= p
  {
  }

  lemma AtIs(ids: seq<nat>, p: int)
    ensures 0 <= p < |ids| ==> At(ids, p) == ids[p]
    ensures !(0 <= p < |ids|) ==> At(ids, p) == -1
  {
  }

  lemma SamePlace(ids: seq<nat>, n: nat, p: nat, j: int)
    requires Distinct(ids, n) && p < |ids| && -1 <= j < |ids|
    ensures At(ids, j) == ids[p] <==> j == p
    ensures At(ids, j) == -1 <==> j == -1
  {
  }

  lemma BeforeIs(names: seq<Name>, size: nat, p: nat, i: int)
    requires size > 0 && p < |names|
    requires if i == -1 then Latest(names, size, Hash(names[p], size), |names|) == p
             else p < i < |names| && Hash(names[i], size) == Hash(names[p], size) && Latest(names, size, Hash(names[p], size), i) == p
    ensures Before(names, size, p, i)
  {
  }

  // ------------------------------------------------------------------ copying and renaming

  /** `copy_hash_table`: put all elements of the insertion list into a new table. */
  method Copy(ht: HashTable, list: array?<int>, wanted: int) returns (copy: HashTable)
    requires IsList(ht.nodes, ht.ids, ht.first)
    requires list != null ==> list != ht.table && IndicesIn(Entries(ht.nodes, ht.ids), list.Length)
    modifies list
    ensures fresh(copy) && fresh(copy.table) && copy.Valid() && copy.base == ht.base
    ensures Copied(copy.nodes, copy.ids, Entries(ht.nodes, ht.ids))
    ensures list != null ==> FollowedBy(list, old(list[..]), Entries(ht.nodes, ht.ids))
  {
    hide *;
    var newsize := if wanted < ht.size then ht.size else wanted;
    copy := new HashTable(newsize, ht.base);
    ghost var nodes, ids, es := ht.nodes, ht.ids, Entries(ht.nodes, ht.ids);
    ghost var list0: seq<int> := if list == null then [] else list[..];
    StartCopy(nodes, ids, ht.first, list, list0);
    var elem := ht.first;
    ghost var k := 0;
    while elem != -1
      invariant 0 <= k <= |ids| && elem == At(ids, k) && copy.Valid()
      invariant Copied(copy.nodes, copy.ids, es[..k]) && FollowedBy(list, list0, es[..k])
      decreases |ids| - k
    {
      ListAt(nodes, ids, ht.first, k);
      EntriesAt(nodes, ids, k);
      PrefixSnoc(es, k);
      CopyOne(copy, ht.nodes[elem].name, ht.nodes[elem].index, list, es[..k], list0, es);
      elem := ht.nodes[elem].nextelem;
      k := k + 1;
    }
    CopyDone(nodes, ids, ht.first, k, copy.nodes, copy.ids, list, list0);
  }

  /** The list of elements by index, as the entries `es` have left it. */
  ghost predicate FollowedBy(list: array?<int>, list0: seq<int>, es: seq<(Name, int)>)
    reads list
  {
    list != null ==> list.Length == |list0| && IndicesIn(es, |list0|) && list[..] == ListAfter(list0, es)
  }

  lemma StartCopy(nodes: seq<Elem>, ids: seq<nat>, first: int, list: array?<int>, list0: seq<int>)
    requires IsList(nodes, ids, first) && (list != null ==> list0 == list[..])
    ensures first == At(ids, 0) && |Entries(nodes, ids)| == |ids| && FollowedBy(list, list0, Entries(nodes, ids)[..0])
    ensures Copied([], [], Entries(nodes, ids)[..0])
  {
    assert Entries(nodes, ids)[..0] == [];
  }

  lemma PrefixSnoc(es: seq<(Name, int)>, k: nat)
    requires k < |es|
    ensures es[..k + 1] == es[..k] + [es[k]] && es[..k + 1] <= es
  {
  }

  lemma ListAt(nodes: seq<Elem>, ids: seq<nat>, first: int, k: nat)
    requires IsList(nodes, ids, first) && k <= |ids| && At(ids, k) != -1
    ensures k < |ids| && At(ids, k) == ids[k] < |nodes| && nodes[ids[k]].nextelem == At(ids, k + 1)
  {
  }

  lemma EntriesAt(nodes: seq<Elem>, ids: seq<nat>, k: nat)
    requires k < |ids| && ids[k] < |nodes|
    ensures Entries(nodes, ids)[k] == (nodes[ids[k]].name, nodes[ids[k]].index)
  {
  }

  lemma CopyDone(nodes: seq<Elem>, ids: seq<nat>, first: int, k: nat, nodes': seq<Elem>, ids': seq<nat>, list: array?<int>, list0: seq<int>)
    requires IsList(nodes, ids, first) && k <= |ids| && At(ids, k) == -1
    requires Copied(nodes', ids', Entries(nodes, ids)[..k]) && FollowedBy(list, list0, Entries(nodes, ids)[..k])
    ensures Copied(nodes', ids', Entries(nodes, ids)) && FollowedBy(list, list0, Entries(nodes, ids))
  {
    assert k == |ids|;
    assert Entries(nodes, ids)[..k] == Entries(nodes, ids);
  }

  ghost predicate InSequence(ids: seq<nat>) {
    forall i :: 0 <= i < |ids| ==> ids[i] == i
  }

  ghost predicate IndicesIn(es: seq<(Name, int)>, n: int) {
    forall i :: 0 <= i < |es| ==> 0 <= es[i].1 < n
  }

  /** The table holds exactly the given entries, without repeated names, numbered from 0. */
  ghost predicate Copied(nodes: seq<Elem>, ids: seq<nat>, es: seq<(Name, int)>) {
    InSequence(ids) && |nodes| == |ids| && Entries(nodes, ids) == Dedup(es)
  }

  method CopyOne(copy: HashTable, name: Name, index: int, list: array?<int>, ghost es: seq<(Name, int)>, ghost list0: seq<int>, ghost all: seq<(Name, int)>)
    requires copy.Valid() && Copied(copy.nodes, copy.ids, es) && FollowedBy(list, list0, es)
    requires es + [(name, index)] <= all && (list != null ==> list != copy.table && IndicesIn(all, list.Length))
    modifies copy, copy.table, list
    ensures copy.Valid() && Copied(copy.nodes, copy.ids, es + [(name, index)]) && FollowedBy(list, list0, es + [(name, index)])
  {
    hide *;
    ghost var nodes0, ids0 := copy.nodes, copy.ids;
    copy.Shape();
    KeysOccur(nodes0, ids0, es, name);
    if list != null {
      IndexIn(es, (name, index), all, list.Length);
    }
    ghost var before: seq<int> := if list == null then [] else list[..];
    FollowedIs(list, list0, es);
    var h := copy.Put(name, index, list);
    if Occurs(Dedup(es), name) {
      CopiedAgain(nodes0, ids0, es, (name, index));
    } else {
      CopiedNew(nodes0, ids0, es, name, index, copy.nodes, copy.ids, h);
    }
    FollowedNext(list, list0, es, (name, index), before);
  }

  lemma FollowedIs(list: array?<int>, list0: seq<int>, es: seq<(Name, int)>)
    requires FollowedBy(list, list0, es)
    ensures list != null ==> list.Length == |list0| && IndicesIn(es, |list0|) && list[..] == ListAfter(list0, es)
  {
  }

  lemma IndexIn(es: seq<(Name, int)>, e: (Name, int), all: seq<(Name, int)>, n: int)
    requires es + [e] <= all && IndicesIn(all, n)
    ensures 0 <= e.1 < n
  {
    assert all[|es|] == e;
  }

  lemma FollowedNext(list: array?<int>, list0: seq<int>, es: seq<(Name, int)>, e: (Name, int), before: seq<int>)
    requires list != null ==> |before| == |list0| && IndicesIn(es, |list0|) && before == ListAfter(list0, es) && 0 <= e.1 < |list0|
    requires list != null ==> list[..] == before[e.1 := if Occurs(Dedup(es), e.0) then -1 else |Dedup(es)|]
    ensures FollowedBy(list, list0, es + [e])
  {
    if list != null {
      ListAfterSnoc(list0, es, e);
    }
  }

  lemma KeysOccur(nodes: seq<Elem>, ids: seq<nat>, es: seq<(Name, int)>, name: Name)
    requires Copied(nodes, ids, es)
    ensures name in Names(nodes, ids) <==> Occurs(Dedup(es), name)
  {
    var ds, ns := Dedup(es), Names(nodes, ids);
    assert forall i :: 0 <= i < |ids| ==> Entries(nodes, ids)[i].0 == ns[i];
    hide Dedup, Names, Entries;
    if name in ns {
      var i :| 0 <= i < |ns| && ns[i] == name;
      assert ds[i].0 == name;
    }
    if Occurs(ds, name) {
      var i :| 0 <= i < |ds| && ds[i].0 == name;
      assert ns[i] == name;
    }
  }

  lemma CopiedAgain(nodes: seq<Elem>, ids: seq<nat>, es: seq<(Name, int)>, e: (Name, int))
    requires Copied(nodes, ids, es) && Occurs(Dedup(es), e.0)
    ensures Copied(nodes, ids, es + [e])
  {
    assert (es + [e])[..|es|] == es;
  }

  lemma CopiedNew(nodes: seq<Elem>, ids: seq<nat>, es: seq<(Name, int)>, name: Name, index: int, nodes': seq<Elem>, ids': seq<nat>, h: int)
    requires Copied(nodes, ids, es) && !Occurs(Dedup(es), name) && Added(nodes, ids, name, index, nodes', ids', h)
    ensures Copied(nodes', ids', es + [(name, index)]) && h == |Dedup(es)|
  {
    var e := (name, index);
    assert (es + [e])[..|es|] == es;
    assert Dedup(es + [e]) == Dedup(es) + [e];
    hide Dedup;
    assert Entries(nodes', ids') == Entries(nodes, ids) + [e];
  }

  lemma ListAfterSnoc(list: seq<int>, es: seq<(Name, int)>, e: (Name, int))
    requires IndicesIn(es, |list|) && 0 <= e.1 < |list|
    ensures IndicesIn(es + [e], |list|)
    ensures ListAfter(list, es + [e]) == ListAfter(list, es)[e.1 := if Occurs(Dedup(es), e.0) then -1 else |Dedup(es)|]
  {
    assert (es + [e])[..|es|] == es;
  }

  /** A copy of a table without repeated names has the same entries in the same order. */
  lemma CopyPreserves(nodes: seq<Elem>, ids: seq<nat>, nodes': seq<Elem>, ids': seq<nat>)
    requires Copied(nodes', ids', Entries(nodes, ids)) && NoRepeat(Names(nodes, ids)) && Distinct(ids, |nodes|)
    ensures Entries(nodes', ids') == Entries(nodes, ids)
  {
    assert NamesOf(Entries(nodes, ids)) == Names(nodes, ids);
    DedupSame(Entries(nodes, ids));
  }

  /** The list of elements by index leads to every element, and from nowhere else. */
  ghost predicate Follows(list: seq<int>, nodes: seq<Elem>, ids: seq<nat>) {
    && Distinct(ids, |nodes|)
    && (forall k :: 0 <= k < |ids| ==> 0 <= nodes[ids[k]].index < |list| && list[nodes[ids[k]].index] == ids[k])
    && (forall v :: 0 <= v < |list| && list[v] != -1 ==> exists k :: 0 <= k < |ids| && list[v] == ids[k] && nodes[ids[k]].index == v)
  }

  /** The entries after the element with index `v` has been renamed. */
  function Renamed(es: seq<(Name, int)>, v: int, name: Name): (r: seq<(Name, int)>)
    ensures |r| == |es|
  {
    seq(|es|, i requires 0 <= i < |es| => if es[i].1 == v then (name, v) else es[i])
  }

  /** `rename_var`: add a name for index `v`, or change the name in place and build the table anew. */
  method RenameVar(v: int, newName: Name, list: array<int>, ht: HashTable) returns (newitem: bool, newht: HashTable)
    requires ht.Valid() && list != ht.table && 0 <= v < list.Length && Follows(list[..], ht.nodes, ht.ids)
    modifies ht, ht.table, list
    ensures newht.Valid() && (newitem <==> old(list[v]) == -1)
    ensures newitem ==> newht == ht
    ensures newitem && newName !in old(ht.Keys()) ==> ht.Keys() == old(ht.Keys()) + [newName] && Follows(list[..], ht.nodes, ht.ids)
    ensures newitem && newName in old(ht.Keys()) ==> ht.Keys() == old(ht.Keys()) && list[..] == old(list[..])
    ensures !newitem ==> Entries(newht.nodes, newht.ids) == Dedup(Renamed(old(Entries(ht.nodes, ht.ids)), v, newName))
    ensures !newitem && FreshName(old(Entries(ht.nodes, ht.ids)), v, newName) ==>
              Entries(newht.nodes, newht.ids) == Renamed(old(Entries(ht.nodes, ht.ids)), v, newName) && Follows(list[..], newht.nodes, newht.ids)
  {
    hide *;
    newht := ht;
    var hp := list[v];
    newitem := hp == -1;
    ghost var nodes, ids, list0, es := ht.nodes, ht.ids, list[..], Entries(ht.nodes, ht.ids);
    ht.Shape();
    if newitem {
      var h := ht.Put(newName, v, list);
      ht.Shape();
      if newName !in Names(nodes, ids) {
        FollowsAdded(list0, nodes, ids, v, newName, ht.nodes, ht.ids, h);
      }
    } else {
      ghost var k := FollowsPlace(list0, nodes, ids, v);
      if ht.nodes[hp].name != newName {
        ht.nodes := ht.nodes[hp := ht.nodes[hp].(name := newName)];
        RenamedInPlace(list0, nodes, ids, ht.first, v, k, newName);
        newht := Copy(ht, list, ht.size);
        newht.Shape();
        CopiedIs(newht.nodes, newht.ids, Entries(ht.nodes, ids));
        if FreshName(es, v, newName) {
          FollowsCopied(list0, nodes, ids, v, newName, newht.nodes, newht.ids, list);
        }
      } else {
        NothingRenamed(list0, nodes, ids, v, k, newName);
      }
    }
  }

  /** No other element has this name. */
  ghost predicate FreshName(es: seq<(Name, int)>, v: int, name: Name) {
    forall i :: 0 <= i < |es| && es[i].1 != v ==> es[i].0 != name
  }

  lemma FollowsAdded(list: seq<int>, nodes: seq<Elem>, ids: seq<nat>, v: int, name: Name, nodes': seq<Elem>, ids': seq<nat>, h: int)
    requires Follows(list, nodes, ids) && 0 <= v < |list| && list[v] == -1 && Added(nodes, ids, name, v, nodes', ids', h)
    ensures Follows(list[v := h], nodes', ids')
  {
    var list' := list[v := h];
    forall k | 0 <= k < |ids'| ensures 0 <= nodes'[ids'[k]].index < |list| && list'[nodes'[ids'[k]].index] == ids'[k] {
      if k < |ids| {
        assert ids'[k] == ids[k];
      }
    }
    forall u | 0 <= u < |list| && list'[u] != -1 ensures exists k :: 0 <= k < |ids'| && list'[u] == ids'[k] && nodes'[ids'[k]].index == u {
      if u == v {
        assert ids'[|ids|] == h;
      } else {
        var k :| 0 <= k < |ids| && list[u] == ids[k] && nodes[ids[k]].index == u;
        assert ids'[k] == ids[k];
      }
    }
  }

  lemma FollowsPlace(list: seq<int>, nodes: seq<Elem>, ids: seq<nat>, v: int) returns (k: nat)
    requires Follows(list, nodes, ids) && 0 <= v < |list| && list[v] != -1
    ensures k < |ids| && list[v] == ids[k] < |nodes| && nodes[ids[k]].index == v
  {
    k :| 0 <= k < |ids| && list[v] == ids[k] && nodes[ids[k]].index == v;
  }

  /** Entries with the same index are the same entry. */
  lemma IndicesDiffer(list: seq<int>, nodes: seq<Elem>, ids: seq<nat>)
    requires Follows(list, nodes, ids)
    ensures IndicesIn(Entries(nodes, ids), |list|)
    ensures forall j, k :: 0 <= j < k < |ids| ==> Entries(nodes, ids)[j].1 != Entries(nodes, ids)[k].1
  {
    forall j, k | 0 <= j < k < |ids| ensures Entries(nodes, ids)[j].1 != Entries(nodes, ids)[k].1 {
      assert list[nodes[ids[j]].index] == ids[j] && list[nodes[ids[k]].index] == ids[k];
    }
  }

  lemma RenamedInPlace(list: seq<int>, nodes: seq<Elem>, ids: seq<nat>, first: int, v: int, k: nat, name: Name)
    requires Follows(list, nodes, ids) && IsList(nodes, ids, first) && k < |ids| && ids[k] < |nodes| && nodes[ids[k]].index == v
    ensures var nodes' := nodes[ids[k] := nodes[ids[k]].(name := name)];
            IsList(nodes', ids, first) && Entries(nodes', ids) == Renamed(Entries(nodes, ids), v, name) && IndicesIn(Entries(nodes', ids), |list|)
  {
    IndicesDiffer(list, nodes, ids);
    var nodes' := nodes[ids[k] := nodes[ids[k]].(name := name)];
    var es, fs := Entries(nodes', ids), Renamed(Entries(nodes, ids), v, name);
    forall i | 0 <= i < |ids| ensures es[i] == fs[i] {
      if i < k {
        assert Entries(nodes, ids)[i].1 != Entries(nodes, ids)[k].1;
      } else if i > k {
        assert Entries(nodes, ids)[k].1 != Entries(nodes, ids)[i].1;
      }
    }
  }

  lemma NothingRenamed(list: seq<int>, nodes: seq<Elem>, ids: seq<nat>, v: int, k: nat, name: Name)
    requires Follows(list, nodes, ids) && NoRepeat(Names(nodes, ids)) && k < |ids| && ids[k] < |nodes|
    requires nodes[ids[k]].index == v && nodes[ids[k]].name == name
    ensures Renamed(Entries(nodes, ids), v, name) == Entries(nodes, ids) == Dedup(Entries(nodes, ids))
  {
    IndicesDiffer(list, nodes, ids);
    var es := Entries(nodes, ids);
    forall i | 0 <= i < |ids| ensures Renamed(es, v, name)[i] == es[i] {
      assert es[k].1 == v && es[k].0 == name;
      if i != k {
        assert i < k || k < i;
      }
    }
    assert NamesOf(es) == Names(nodes, ids);
    DedupSame(es);
  }

  lemma RenamedFresh(es: seq<(Name, int)>, v: int, name: Name)
    requires NoRepeat(NamesOf(es)) && FreshName(es, v, name) && forall j, k :: 0 <= j < k < |es| ==> es[j].1 != es[k].1
    ensures NoRepeat(NamesOf(Renamed(es, v, name)))
  {
    var ns, ms := NamesOf(es), NamesOf(Renamed(es, v, name));
    forall i, j | 0 <= i < j < |ms| ensures ms[i] != ms[j] {
      assert ns[i] == es[i].0 && ns[j] == es[j].0;
    }
  }

  /** After a rename to a fresh name the list of elements by index follows the new table. */
  lemma FollowsCopied(list: seq<int>, nodes: seq<Elem>, ids: seq<nat>, v: int, name: Name,
                      nodes': seq<Elem>, ids': seq<nat>, list': array<int>)
    requires Follows(list, nodes, ids) && NoRepeat(Names(nodes, ids)) && FreshName(Entries(nodes, ids), v, name)
    requires Copied(nodes', ids', Renamed(Entries(nodes, ids), v, name)) && FollowedBy(list', list, Renamed(Entries(nodes, ids), v, name))
    ensures Entries(nodes', ids') == Renamed(Entries(nodes, ids), v, name) && Follows(list'[..], nodes', ids')
  {
    var es := Entries(nodes, ids);
    var fs := Renamed(es, v, name);
    IndicesDiffer(list, nodes, ids);
    assert NamesOf(es) == Names(nodes, ids);
    RenamedIndices(es, v, name);
    hide *;
    RenamedFresh(es, v, name);
    DedupSame(fs);
    CopiedIs(nodes', ids', fs);
    FollowedIs(list', list, fs);
    RenamedList(list, list'[..], nodes, ids, fs);
    CopiedFollows(list'[..], nodes', ids', fs);
  }

  lemma RenamedIndices(es: seq<(Name, int)>, v: int, name: Name)
    ensures |Renamed(es, v, name)| == |es| && forall i :: 0 <= i < |es| ==> Renamed(es, v, name)[i].1 == es[i].1
  {
  }

  lemma RenamedList(list: seq<int>, list': seq<int>, nodes: seq<Elem>, ids: seq<nat>, fs: seq<(Name, int)>)
    requires Follows(list, nodes, ids) && |fs| == |ids| && IndicesIn(fs, |list|) && list' == ListAfter(list, fs)
    requires forall i :: 0 <= i < |fs| ==> fs[i].1 == Entries(nodes, ids)[i].1
    requires NoRepeat(NamesOf(fs)) && forall j, k :: 0 <= j < k < |fs| ==> fs[j].1 != fs[k].1
    ensures |list'| == |list| && forall i :: 0 <= i < |fs| ==> list'[fs[i].1] == i
    ensures forall u :: 0 <= u < |list| && (forall i :: 0 <= i < |fs| ==> fs[i].1 != u) ==> list'[u] == -1
  {
    hide Follows, Entries, Dedup, NamesOf;
    forall u | 0 <= u < |list| && forall i :: 0 <= i < |fs| ==> fs[i].1 != u ensures list'[u] == -1 {
      ListElsewhere(list, fs, u);
      NotListed(list, nodes, ids, u);
    }
    assert fs[..|fs|] == fs;
    forall i | 0 <= i < |fs| ensures list'[fs[i].1] == i {
      ListFollows(list, fs, |fs|, i);
    }
  }

  lemma NotListed(list: seq<int>, nodes: seq<Elem>, ids: seq<nat>, u: int)
    requires Follows(list, nodes, ids) && 0 <= u < |list| && forall i :: 0 <= i < |ids| ==> Entries(nodes, ids)[i].1 != u
    ensures list[u] == -1
  {
    forall k | 0 <= k < |ids| ensures nodes[ids[k]].index != u {
      assert Entries(nodes, ids)[k].1 == nodes[ids[k]].index;
    }
  }

  lemma CopiedIs(nodes: seq<Elem>, ids: seq<nat>, es: seq<(Name, int)>)
    requires Copied(nodes, ids, es)
    ensures Entries(nodes, ids) == Dedup(es) && InSequence(ids) && |nodes| == |ids|
  {
  }

  lemma CopiedFollows(list: seq<int>, nodes: seq<Elem>, ids: seq<nat>, fs: seq<(Name, int)>)
    requires InSequence(ids) && |nodes| == |ids| && Entries(nodes, ids) == fs && IndicesIn(fs, |list|)
    requires forall i :: 0 <= i < |fs| ==> list[fs[i].1] == i
    requires forall u :: 0 <= u < |list| && (forall i :: 0 <= i < |fs| ==> fs[i].1 != u) ==> list[u] == -1
    ensures Follows(list, nodes, ids)
  {
    forall k | 0 <= k < |ids| ensures 0 <= nodes[ids[k]].index < |list| && list[nodes[ids[k]].index] == ids[k] {
      assert fs[k].1 == nodes[ids[k]].index;
    }
    forall u | 0 <= u < |list| && list[u] != -1 ensures exists k :: 0 <= k < |ids| && list[u] == ids[k] && nodes[ids[k]].index == u {
      var i :| 0 <= i < |fs| && fs[i].1 == u;
      assert list[u] == i == ids[i] && nodes[ids[i]].index == u;
    }
  }
}
