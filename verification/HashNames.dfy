/** Names, their hash values, and hash chains as values (lp_Hash.c). */
module HashNames {

  /** A name: the codes of its characters; a plain char may be signed. */
  type Name = seq<int>

  // ------------------------------------------------------------------ the hash value

  const WORD: int := 0x1_0000_0000
  const HIGH: int := 0x1000_0000

  /** Exclusive or of two 4-bit numbers. */
  function Xor4(a: int, b: int): (r: int)
    requires 0 <= a < 16 && 0 <= b < 16
    ensures 0 <= r < 16
  {
    ((a as bv4) ^ (b as bv4)) as int
  }

  /** One character: shift by 4 bits, add, and fold the top 4 bits into bits 4 to 7, in 32-bit arithmetic. */
  function HashStep(result: int, c: int): (r: int)
    requires 0 <= result < WORD
    ensures 0 <= r < HIGH
  {
    FoldTop((result * 16 + c) % WORD)
  }

  /** Exclusive-or the top 4 of 32 bits into bits 4 to 7, and clear them. */
  function FoldTop(v: int): (r: int)
    requires 0 <= v < WORD
    ensures 0 <= r < HIGH
  {
    var top, low := v / HIGH, v % HIGH;
    assert low / 256 <= 0xF_FFFF && 0 <= top < 16;
    if top == 0 then low else low / 256 * 256 + Xor4(low / 16 % 16, top) * 16 + low % 16
  }

  function HashFold(s: Name): (r: int)
    ensures 0 <= r < HIGH
  {
    if s == [] then 0 else HashStep(HashFold(s[..|s| - 1]), s[|s| - 1])
  }

  /** The characters as digits of base 16. */
  function Digits(s: Name): int {
    if s == [] then 0 else Digits(s[..|s| - 1]) * 16 + s[|s| - 1]
  }

  /** As long as nothing reaches the top 4 bits, the value is the number that the characters are the digits of. */
  lemma {:induction false} HashShort(s: Name)
    requires (forall i :: 0 <= i < |s| ==> s[i] >= 0) && Digits(s) < HIGH
    ensures HashFold(s) == Digits(s) >= 0
  {
    if s != [] {
      var p := s[..|s| - 1];
      DigitsPositive(p);
      HashShort(p);
      StepNone(Digits(p), s[|s| - 1]);
      hide HashStep, FoldTop;
    }
  }

  lemma StepNone(d: int, c: int)
    requires 0 <= d && 0 <= c && d * 16 + c < HIGH
    ensures d < HIGH && HashStep(d, c) == d * 16 + c
  {
    hide Xor4;
  }

  lemma {:induction false} DigitsPositive(s: Name)
    requires forall i :: 0 <= i < |s| ==> s[i] >= 0
    ensures Digits(s) >= 0
  {
    if s != [] {
      DigitsPositive(s[..|s| - 1]);
    }
  }

  lemma Xor4Twice(a: int, b: int)
    requires 0 <= a < 16 && 0 <= b < 16
    ensures Xor4(Xor4(a, b), b) == a && Xor4(a, b) == Xor4(b, a) && Xor4(a, 0) == a
  {
    var x, y := a as bv4, b as bv4;
    assert (x ^ y) ^ y == x && x ^ y == y ^ x;
  }

  /** Folding the top 4 bits changes the bits 4 to 7 only, and these by the top bits: fold again with the same
      bits on top, and the number below them is back. */
  lemma FoldIs(v: int)
    requires 0 <= v < WORD
    ensures FoldTop(v) % 16 == v % HIGH % 16 && FoldTop(v) / 256 == v % HIGH / 256
    ensures FoldTop(v) / 16 % 16 == Xor4(v % HIGH / 16 % 16, v / HIGH)
    ensures FoldTop(v / HIGH * HIGH + FoldTop(v)) == v % HIGH
  {
    var top, low := v / HIGH, v % HIGH;
    hide FoldTop, Xor4;
    FoldParts(top, low);
    FoldParts(top, FoldTop(v));
    Xor4Twice(low / 16 % 16, top);
    Nibbles(low);
  }

  lemma FoldParts(top: int, low: int)
    requires 0 <= top < 16 && 0 <= low < HIGH
    ensures FoldTop(top * HIGH + low) == low / 256 * 256 + Xor4(low / 16 % 16, top) * 16 + low % 16
    ensures FoldTop(top * HIGH + low) % 16 == low % 16 && FoldTop(top * HIGH + low) / 256 == low / 256
    ensures FoldTop(top * HIGH + low) / 16 % 16 == Xor4(low / 16 % 16, top)
  {
    var v := top * HIGH + low;
    assert v / HIGH == top && v % HIGH == low;
    var x := Xor4(low / 16 % 16, top);
    Xor4Twice(low / 16 % 16, top);
    Nibbles(low);
    hide Xor4;
    assert FoldTop(v) == low / 256 * 256 + x * 16 + low % 16;
    hide *;
    FromNibbles(low / 256, x, low % 16);
  }

  lemma Nibbles(low: int)
    requires low >= 0
    ensures low == low / 256 * 256 + low / 16 % 16 * 16 + low % 16
    ensures 0 <= low / 16 % 16 < 16 && 0 <= low % 16 < 16 && low / 256 >= 0
  {
  }

  lemma FromNibbles(a: int, b: int, c: int)
    requires a >= 0 && 0 <= b < 16 && 0 <= c < 16
    ensures var v := a * 256 + b * 16 + c; v % 16 == c && v / 256 == a && v / 16 % 16 == b
  {
    var v := a * 256 + b * 16 + c;
    assert v / 16 == a * 16 + b;
  }

  function Hash(s: Name, size: nat): (h: nat)
    requires size > 0
    ensures h < size
  {
    HashFold(s) % size
  }

  // ------------------------------------------------------------------ chains

  /** The latest of the first `n` names that falls in bucket `b`, or -1. */
  function Latest(names: seq<Name>, size: nat, b: nat, n: nat): (i: int)
    requires size > 0 && n <= |names|
    ensures -1 <= i < n
    ensures i >= 0 ==> Hash(names[i], size) == b
    ensures forall j :: i < j < n ==> Hash(names[j], size) != b
  {
    if n == 0 then -1 else if Hash(names[n - 1], size) == b then n - 1 else Latest(names, size, b, n - 1)
  }

  lemma {:induction false} LatestPrefix(names: seq<Name>, more: seq<Name>, size: nat, b: nat, n: nat)
    requires size > 0 && n <= |names|
    ensures Latest(names + more, size, b, n) == Latest(names, size, b, n)
  {
    if n > 0 {
      LatestPrefix(names, more, size, b, n - 1);
    }
  }

  function Without(names: seq<Name>, p: nat): seq<Name>
    requires p < |names|
  {
    names[..p] + names[p + 1..]
  }

  /** What becomes of position `i` when the entry at `p` is removed. */
  function Shift(i: int, p: nat): int {
    if i > p then i - 1 else i
  }

  /** The latest entry of a bucket after the removal of entry `p`. */
  lemma {:induction false} LatestWithout(names: seq<Name>, size: nat, b: nat, p: nat, n: nat)
    requires size > 0 && p < n <= |names|
    ensures var l := Latest(names, size, b, n);
            Latest(Without(names, p), size, b, n - 1) == if l == p then Latest(names, size, b, p) else Shift(l, p)
  {
    var ws := Without(names, p);
    if n == p + 1 {
      LatestBefore(names, size, b, p, p);
    } else {
      LatestWithout(names, size, b, p, n - 1);
      assert ws[n - 2] == names[n - 1];
    }
  }

  lemma {:induction false} LatestBefore(names: seq<Name>, size: nat, b: nat, p: nat, n: nat)
    requires size > 0 && n <= p < |names|
    ensures Latest(Without(names, p), size, b, n) == Latest(names, size, b, n)
  {
    if n > 0 {
      LatestBefore(names, size, b, p, n - 1);
      assert Without(names, p)[n - 1] == names[n - 1];
    }
  }

  ghost predicate NoRepeat(names: seq<Name>) {
    forall i, j :: 0 <= i < j < |names| ==> names[i] != names[j]
  }

  /** Entries in the order given, without those whose name occurred before. */
  function Dedup(entries: seq<(Name, int)>): (r: seq<(Name, int)>) {
    if entries == [] then []
    else
      var r := Dedup(entries[..|entries| - 1]);
      var e := entries[|entries| - 1];
      if Occurs(r, e.0) then r else r + [e]
  }

  predicate Occurs(entries: seq<(Name, int)>, name: Name) {
    exists i :: 0 <= i < |entries| && entries[i].0 == name
  }

  function NamesOf(entries: seq<(Name, int)>): (r: seq<Name>)
    ensures |r| == |entries|
  {
    seq(|entries|, i requires 0 <= i < |entries| => entries[i].0)
  }

  lemma NoRepeatPrefix(entries: seq<(Name, int)>)
    requires entries != [] && NoRepeat(NamesOf(entries))
    ensures NoRepeat(NamesOf(entries[..|entries| - 1])) && !Occurs(entries[..|entries| - 1], entries[|entries| - 1].0)
  {
    var l := |entries| - 1;
    var ns, ms := NamesOf(entries), NamesOf(entries[..l]);
    assert forall i :: 0 <= i < l ==> ms[i] == ns[i] == entries[i].0;
    assert ns[l] == entries[l].0;
    hide NamesOf;
    forall i | 0 <= i < l ensures entries[..l][i].0 != entries[l].0 {
      assert ns[i] != ns[l];
    }
  }

  /** Entries with different names are all kept. */
  lemma {:induction false} DedupSame(entries: seq<(Name, int)>)
    requires NoRepeat(NamesOf(entries))
    ensures Dedup(entries) == entries
  {
    if entries != [] {
      var l := |entries| - 1;
      NoRepeatPrefix(entries);
      DedupSame(entries[..l]);
      hide NamesOf, NoRepeat, Occurs;
      assert entries == entries[..l] + [entries[l]];
    }
  }

  lemma {:induction false} DedupNoRepeat(entries: seq<(Name, int)>)
    ensures NoRepeat(NamesOf(Dedup(entries)))
    ensures forall name :: Occurs(Dedup(entries), name) <==> Occurs(entries, name)
  {
    if entries != [] {
      var l := |entries| - 1;
      DedupNoRepeat(entries[..l]);
      var r := Dedup(entries[..l]);
      forall name ensures Occurs(Dedup(entries), name) <==> Occurs(entries, name) {
        OccursSnoc(r, entries[l], name);
        OccursSnoc(entries[..l], entries[l], name);
        assert entries == entries[..l] + [entries[l]];
      }
      if !Occurs(r, entries[l].0) {
        var ns := NamesOf(r + [entries[l]]);
        forall i, j | 0 <= i < j < |ns| ensures ns[i] != ns[j] {
          assert NamesOf(r)[i] == ns[i];
          if j < |r| {
            assert NamesOf(r)[j] == ns[j];
          }
        }
      }
    }
  }

  lemma OccursSnoc(es: seq<(Name, int)>, e: (Name, int), name: Name)
    ensures Occurs(es + [e], name) <==> Occurs(es, name) || e.0 == name
  {
    if Occurs(es, name) {
      var i :| 0 <= i < |es| && es[i].0 == name;
      assert (es + [e])[i].0 == name;
    }
    if e.0 == name {
      assert (es + [e])[|es|].0 == name;
    }
  }

  /** The list of elements by index after the entries have been put into an empty table one after the
      other: a new element gets the next number, a repeated name clears its index. */
  function ListAfter(list: seq<int>, entries: seq<(Name, int)>): (r: seq<int>)
    requires forall i :: 0 <= i < |entries| ==> 0 <= entries[i].1 < |list|
    ensures |r| == |list|
  {
    if entries == [] then list
    else
      var l := |entries| - 1;
      ListAfter(list, entries[..l])[entries[l].1 := if Occurs(Dedup(entries[..l]), entries[l].0) then -1 else |Dedup(entries[..l])|]
  }

  /** With different names and different indices, the index of entry `i` leads to element `i`. */
  lemma {:induction false} ListFollows(list: seq<int>, entries: seq<(Name, int)>, n: nat, i: nat)
    requires forall k :: 0 <= k < |entries| ==> 0 <= entries[k].1 < |list|
    requires NoRepeat(NamesOf(entries)) && forall j, k :: 0 <= j < k < |entries| ==> entries[j].1 != entries[k].1
    requires i < n <= |entries|
    ensures ListAfter(list, entries[..n])[entries[i].1] == i
  {
    var l := n - 1;
    assert entries[..n][..l] == entries[..l] && entries[..n][l] == entries[l];
    NamesPrefix(entries, n);
    NamesPrefix(entries, l);
    DedupSame(entries[..l]);
    NoRepeatPrefix(entries[..n]);
    hide NamesOf, NoRepeat, Occurs, Dedup;
    if i < l {
      ListFollows(list, entries, l, i);
    }
  }

  lemma NamesPrefix(entries: seq<(Name, int)>, n: nat)
    requires n <= |entries| && NoRepeat(NamesOf(entries))
    ensures NoRepeat(NamesOf(entries[..n]))
  {
    var ns, ms := NamesOf(entries), NamesOf(entries[..n]);
    assert forall i :: 0 <= i < n ==> ms[i] == ns[i];
    hide NamesOf;
  }

  /** Indices that no entry has keep what they had. */
  lemma {:induction false} ListElsewhere(list: seq<int>, entries: seq<(Name, int)>, k: int)
    requires forall i :: 0 <= i < |entries| ==> 0 <= entries[i].1 < |list|
    requires 0 <= k < |list| && forall i :: 0 <= i < |entries| ==> entries[i].1 != k
    ensures ListAfter(list, entries)[k] == list[k]
  {
    if entries != [] {
      ListElsewhere(list, entries[..|entries| - 1], k);
    }
  }
}
