/** Saved forms of a basis: signed index vectors (set_basis, get_basis), the records of a basis file
    (MPS_writeBAS, MPS_readBAS) and the vector that guess_basis completes. */
module BasisFiles {
  import opened Bases
  import opened Numbers

  // ------------------------------------------------------------------ set_basis and get_basis

  /** `set_basis` can use the first `n` entries: all are in range, and the basic ones differ. */
  ghost predicate Acceptable(bas: seq<int>, rows: nat, sum: nat, n: nat) {
    && n < |bas|
    && (forall i :: 1 <= i <= n ==> 1 <= Abs(bas[i]) <= sum)
    && (forall i, j :: 1 <= i < j <= rows && j <= n ==> Abs(bas[i]) != Abs(bas[j]))
  }

  /** What `set_basis` loads: the basic indices without sign, and at its upper bound exactly what a
      nonbasic entry lists with a positive sign. */
  ghost predicate Loaded(bas: seq<int>, vb: seq<int>, isl: seq<bool>, rows: nat, sum: nat, n: nat) {
    && rows <= n < |bas| && rows < |vb| && sum < |isl|
    && (forall i :: 1 <= i <= rows ==> vb[i] == Abs(bas[i]))
    && (forall k :: 1 <= k <= sum ==> (isl[k] <==> k !in bas[rows + 1..n + 1]))
  }

  /** The loop of `set_basis` has dealt with the entries before `i`. */
  ghost predicate Loading(bas: seq<int>, vb: seq<int>, isb: seq<bool>, isl: seq<bool>, rows: nat, sum: nat, i: nat) {
    && 1 <= i <= |bas| && rows < |vb| && sum < |isb| && sum < |isl|
    && (forall q :: 1 <= q < i ==> 1 <= Abs(bas[q]) <= sum)
    && (forall q :: 1 <= q < i && q <= rows ==> vb[q] == Abs(bas[q]))
    && (forall k :: 1 <= k <= sum ==> (isb[k] <==> k in vb[1..if i <= rows then i else rows + 1]))
    && (forall k :: 1 <= k <= sum ==> (isl[k] <==> !UpperBefore(bas, rows, i, k)))
  }

  ghost predicate UpperBefore(bas: seq<int>, rows: nat, i: nat, k: int)
    requires i <= |bas|
  {
    rows + 1 <= i && k in bas[rows + 1..i]
  }

  lemma LoadNext(bas: seq<int>, vb: seq<int>, isb: seq<bool>, isl: seq<bool>, rows: nat, sum: nat, i: nat)
    requires Loading(bas, vb, isb, isl, rows, sum, i) && i < |bas| && 1 <= Abs(bas[i]) <= sum
    ensures i <= rows ==> Loading(bas, vb[i := Abs(bas[i])], isb[Abs(bas[i]) := true], isl, rows, sum, i + 1)
    ensures i > rows ==> Loading(bas, vb, isb, if bas[i] > 0 then isl[bas[i] := false] else isl, rows, sum, i + 1)
  {
    if i <= rows {
      LoadBasic(bas, vb, isb, isl, rows, sum, i);
    } else {
      LoadNonbasic(bas, vb, isb, isl, rows, sum, i);
    }
  }

  lemma LoadBasic(bas: seq<int>, vb: seq<int>, isb: seq<bool>, isl: seq<bool>, rows: nat, sum: nat, i: nat)
    requires Loading(bas, vb, isb, isl, rows, sum, i) && i < |bas| && 1 <= Abs(bas[i]) <= sum && i <= rows
    ensures Loading(bas, vb[i := Abs(bas[i])], isb[Abs(bas[i]) := true], isl, rows, sum, i + 1)
  {
    var k := Abs(bas[i]);
    var vb' := vb[i := k];
    assert vb'[1..i + 1] == vb[1..i] + [k];
  }

  lemma LoadNonbasic(bas: seq<int>, vb: seq<int>, isb: seq<bool>, isl: seq<bool>, rows: nat, sum: nat, i: nat)
    requires Loading(bas, vb, isb, isl, rows, sum, i) && i < |bas| && 1 <= Abs(bas[i]) <= sum && i > rows
    ensures Loading(bas, vb, isb, if bas[i] > 0 then isl[bas[i] := false] else isl, rows, sum, i + 1)
  {
    assert bas[rows + 1..i + 1] == bas[rows + 1..i] + [bas[i]];
  }

  lemma LoadDone(bas: seq<int>, vb: seq<int>, isb: seq<bool>, isl: seq<bool>, rows: nat, sum: nat, n: nat)
    requires rows <= n && Loading(bas, vb, isb, isl, rows, sum, n + 1) && n + 1 <= |bas|
    ensures Loaded(bas, vb, isl, rows, sum, n) && IsImage(vb, isb, rows, sum)
    ensures Acceptable(bas, rows, sum, n) <==> IsBasis(vb, isb, rows, sum)
  {
    if Distinct(vb, rows) {
      forall i, j | 1 <= i < j <= rows && j <= n ensures Abs(bas[i]) != Abs(bas[j]) {
        assert vb[i] != vb[j];
      }
    }
  }

  lemma NotAcceptable(bas: seq<int>, rows: nat, sum: nat, n: nat, i: nat)
    requires 1 <= i <= n < |bas| && !(1 <= Abs(bas[i]) <= sum)
    ensures !Acceptable(bas, rows, sum, n)
  {
  }

  /** Position 0 of the basic vector is only a marker. */
  lemma MarkerIsFree(bas: seq<int>, vb: seq<int>, vb': seq<int>, isb: seq<bool>, isl: seq<bool>, rows: nat, sum: nat, n: nat)
    requires IsBasis(vb, isb, rows, sum) && Loaded(bas, vb, isl, rows, sum, n)
    requires |vb'| == |vb| && vb'[1..] == vb[1..]
    ensures IsBasis(vb', isb, rows, sum) && Loaded(bas, vb', isl, rows, sum, n)
  {
    assert forall i :: 1 <= i <= rows ==> vb'[i] == vb'[1..][i - 1] == vb[1..][i - 1] == vb[i];
    assert vb'[1..rows + 1] == vb[1..rows + 1];
  }

  function Signed(isl: seq<bool>, k: int): int
    requires 0 <= k < |isl|
  {
    if isl[k] then -k else k
  }

  /** The nonbasic indices among 1..k, ascending, with their bound as a sign. */
  function NonbasicTo(isb: seq<bool>, isl: seq<bool>, k: nat): (r: seq<int>)
    requires k < |isb| && k < |isl|
    ensures |r| == k - CountTo(isb, k)
  {
    if k == 0 then [] else NonbasicTo(isb, isl, k - 1) + if isb[k] then [] else [Signed(isl, k)]
  }

  lemma {:induction false} NonbasicIn(isb: seq<bool>, isl: seq<bool>, k: nat, x: int)
    requires k < |isb| && k < |isl|
    ensures x in NonbasicTo(isb, isl, k) <==> 1 <= Abs(x) <= k && !isb[Abs(x)] && x == Signed(isl, Abs(x))
  {
    if k > 0 {
      NonbasicIn(isb, isl, k - 1, x);
    }
  }

  /** The nonbasic indices below `k` have been saved in positions rows + 1..i - 1. */
  ghost predicate Saving(bas: seq<int>, bas0: seq<int>, isb: seq<bool>, isl: seq<bool>, rows: nat, sum: nat, i: int, k: int) {
    && |bas| == |bas0| > sum && sum < |isb| && sum < |isl| && 1 <= k <= sum + 1 && CountTo(isb, sum) == rows <= sum
    && i == rows + 1 + |NonbasicTo(isb, isl, k - 1)| && i <= sum + 1
    && bas[rows + 1..i] == NonbasicTo(isb, isl, k - 1)
    && (forall q :: 0 <= q <= rows ==> bas[q] == bas0[q])
  }

  lemma StartSaving(bas: seq<int>, vb: seq<int>, isb: seq<bool>, isl: seq<bool>, rows: nat, sum: nat)
    requires IsBasis(vb, isb, rows, sum) && rows <= sum < |bas| && sum < |isl|
    ensures Saving(bas, bas, isb, isl, rows, sum, rows + 1, 1)
  {
    CountIsRows(vb, isb, rows, sum);
  }

  /** Once all places are filled there is no nonbasic index left. */
  lemma SavingDone(bas: seq<int>, bas0: seq<int>, isb: seq<bool>, isl: seq<bool>, rows: nat, sum: nat, i: int, k: int)
    requires Saving(bas, bas0, isb, isl, rows, sum, i, k) && (k > sum || i > sum)
    ensures forall q :: 0 <= q <= rows ==> bas[q] == bas0[q]
    ensures bas[rows + 1..sum + 1] == NonbasicTo(isb, isl, sum)
  {
    NonbasicGrow(isb, isl, k - 1, sum);
  }

  lemma {:induction false} NonbasicGrow(isb: seq<bool>, isl: seq<bool>, j: nat, k: nat)
    requires j <= k < |isb| && k < |isl|
    ensures NonbasicTo(isb, isl, j) <= NonbasicTo(isb, isl, k)
  {
    if j < k {
      NonbasicGrow(isb, isl, j, k - 1);
    }
  }

  /** What `get_basis` returns. */
  ghost predicate Saved(bas: seq<int>, vb: seq<int>, isb: seq<bool>, isl: seq<bool>, rows: nat, sum: nat) {
    && rows <= sum < |bas| && rows < |vb| && sum < |isb| && sum < |isl| && InRange(vb, rows, sum)
    && (forall i :: 1 <= i <= rows ==> bas[i] == Signed(isl, vb[i]))
    && bas[rows + 1..sum + 1] == NonbasicTo(isb, isl, sum)
  }

  /** `set_basis` accepts what `get_basis` saved from a valid basis, and loads the same basis ... */
  lemma SavedIsAcceptable(bas: seq<int>, vb: seq<int>, isb: seq<bool>, isl: seq<bool>, rows: nat, sum: nat)
    requires IsBasis(vb, isb, rows, sum) && Saved(bas, vb, isb, isl, rows, sum)
    ensures Acceptable(bas, rows, sum, sum)
  {
    forall i | 1 <= i <= sum ensures 1 <= Abs(bas[i]) <= sum {
      if i > rows {
        assert bas[i] == bas[rows + 1..sum + 1][i - rows - 1];
        NonbasicIn(isb, isl, sum, bas[i]);
      }
    }
    forall i, j | 1 <= i < j <= rows ensures Abs(bas[i]) != Abs(bas[j]) {
      assert vb[i] != vb[j];
    }
  }

  /** ... except that basic variables at their upper bound are loaded at the lower one. */
  lemma SetOfGet(bas: seq<int>, vb: seq<int>, isb: seq<bool>, isl: seq<bool>,
                 vb': seq<int>, isb': seq<bool>, isl': seq<bool>, rows: nat, sum: nat)
    requires IsBasis(vb, isb, rows, sum) && Saved(bas, vb, isb, isl, rows, sum)
    requires Loaded(bas, vb', isl', rows, sum, sum) && IsBasis(vb', isb', rows, sum)
    ensures forall i :: 1 <= i <= rows ==> vb'[i] == vb[i]
    ensures forall k :: 1 <= k <= sum ==> isb'[k] == isb[k]
    ensures forall k :: 1 <= k <= sum ==> (isl'[k] <==> isb[k] || isl[k])
    ensures (forall k :: 1 <= k <= sum ==> isl'[k] == isl[k]) <==> forall k :: 1 <= k <= sum && isb[k] ==> isl[k]
  {
    assert forall i :: 1 <= i <= rows ==> bas[i] == Signed(isl, vb[i]);
    assert vb'[1..rows + 1] == vb[1..rows + 1];
    forall k | 1 <= k <= sum ensures isl'[k] <==> isb[k] || isl[k] {
      NonbasicIn(isb, isl, sum, k);
    }
  }

  /** What is saved, in plain terms: the basic indices in their order and the nonbasic ones behind them, negated
      exactly if they are at their lower bound. */
  lemma SavedMeans(bas: seq<int>, vb: seq<int>, isb: seq<bool>, isl: seq<bool>, rows: nat, sum: nat)
    requires Saved(bas, vb, isb, isl, rows, sum)
    ensures forall i :: 1 <= i <= rows ==> Abs(bas[i]) == vb[i] && (bas[i] < 0 <==> isl[vb[i]])
    ensures forall i :: rows < i <= sum ==> 1 <= Abs(bas[i]) <= sum && !isb[Abs(bas[i])] && (bas[i] < 0 <==> isl[Abs(bas[i])])
    ensures forall k :: 1 <= k <= sum && !isb[k] ==> (if isl[k] then -k else k) in bas[rows + 1..sum + 1]
  {
    var ns := bas[rows + 1..sum + 1];
    forall i | rows < i <= sum ensures 1 <= Abs(bas[i]) <= sum && !isb[Abs(bas[i])] && (bas[i] < 0 <==> isl[Abs(bas[i])]) {
      assert bas[i] == ns[i - rows - 1] && ns[i - rows - 1] in ns;
      NonbasicIn(isb, isl, sum, bas[i]);
    }
    forall k | 1 <= k <= sum && !isb[k] ensures (if isl[k] then -k else k) in ns {
      NonbasicIn(isb, isl, sum, if isl[k] then -k else k);
    }
  }

  // ------------------------------------------------------------------ basis files

  /** A line of a basis file: a basic structural paired with a nonbasic index, a nonbasic index alone, the
      end mark, or something that cannot be read. */
  datatype Line = Pair(lower: bool, basic: int, nonbasic: int) | Single(slower: bool, index: int) | EndData | Bad

  /** Basic structurals in rows + 1..k, ascending. */
  function BasicCols(isb: seq<bool>, rows: nat, k: nat): seq<int>
    requires k < |isb|
  {
    if k <= rows then [] else BasicCols(isb, rows, k - 1) + if isb[k] then [k] else []
  }

  /** Nonbasic indices that are written: slacks, and structurals at their upper bound. */
  function ToWrite(isb: seq<bool>, isl: seq<bool>, rows: nat, k: nat): seq<int>
    requires k < |isb| && k < |isl|
  {
    if k == 0 then [] else ToWrite(isb, isl, rows, k - 1) + if !isb[k] && (k <= rows || !isl[k]) then [k] else []
  }

  /** Line `q` of the file written for these lists. */
  function LineOf(bs: seq<int>, ns: seq<int>, isl: seq<bool>, q: nat): Line
    requires q < |ns| && 0 <= ns[q] < |isl|
  {
    if q < |bs| then Pair(isl[ns[q]], bs[q], ns[q]) else Single(isl[ns[q]], ns[q])
  }

  lemma {:induction false} BasicColsIn(isb: seq<bool>, rows: nat, k: nat, x: int)
    requires k < |isb|
    ensures x in BasicCols(isb, rows, k) <==> rows < x <= k && isb[x]
  {
    if k > rows {
      BasicColsIn(isb, rows, k - 1, x);
    }
  }

  lemma {:induction false} ToWriteIn(isb: seq<bool>, isl: seq<bool>, rows: nat, k: nat, x: int)
    requires k < |isb| && k < |isl|
    ensures x in ToWrite(isb, isl, rows, k) <==> 1 <= x <= k && !isb[x] && (x <= rows || !isl[x])
  {
    if k > 0 {
      ToWriteIn(isb, isl, rows, k - 1, x);
    }
  }

  lemma {:induction false} BasicColsSize(isb: seq<bool>, rows: nat, k: nat)
    requires rows <= k < |isb|
    ensures |BasicCols(isb, rows, k)| == CountTo(isb, k) - CountTo(isb, rows)
  {
    if k > rows {
      BasicColsSize(isb, rows, k - 1);
    }
  }

  lemma {:induction false} SlacksToWrite(isb: seq<bool>, isl: seq<bool>, rows: nat, k: nat)
    requires k < |isb| && k < |isl|
    ensures k <= rows ==> |ToWrite(isb, isl, rows, k)| == k - CountTo(isb, k)
    ensures k >= rows ==> |ToWrite(isb, isl, rows, k)| >= rows - CountTo(isb, rows)
  {
    if k > 0 {
      SlacksToWrite(isb, isl, rows, k - 1);
    }
  }

  /** There are enough nonbasic indices for every basic structural to be written. */
  lemma NoneDropped(vb: seq<int>, isb: seq<bool>, isl: seq<bool>, rows: nat, sum: nat)
    requires IsBasis(vb, isb, rows, sum) && rows <= sum < |isl|
    ensures |BasicCols(isb, rows, sum)| <= |ToWrite(isb, isl, rows, sum)|
  {
    CountIsRows(vb, isb, rows, sum);
    BasicColsSize(isb, rows, sum);
    SlacksToWrite(isb, isl, rows, sum);
  }

  /** The file that `MPS_writeBAS` writes. */
  function Written(isb: seq<bool>, isl: seq<bool>, rows: nat, sum: nat): (lines: seq<Line>)
    requires sum < |isb| && sum < |isl|
    ensures |lines| == |ToWrite(isb, isl, rows, sum)| + 1
  {
    var bs, ns := BasicCols(isb, rows, sum), ToWrite(isb, isl, rows, sum);
    seq(|ns|, q requires 0 <= q < |ns| && |ns| == |ToWrite(isb, isl, rows, sum)| && ns == ToWrite(isb, isl, rows, sum) && sum < |isl| =>
      ToWriteEntry(isb, isl, rows, sum, q);
      LineOf(bs, ns, isl, q)) + [EndData]
  }

  lemma ToWriteEntry(isb: seq<bool>, isl: seq<bool>, rows: nat, k: nat, q: nat)
    requires k < |isb| && k < |isl| && q < |ToWrite(isb, isl, rows, k)|
    ensures 1 <= ToWrite(isb, isl, rows, k)[q] <= k
  {
    ToWriteIn(isb, isl, rows, k, ToWrite(isb, isl, rows, k)[q]);
  }

  predicate IsEntry(l: Line, sum: nat) {
    match l
    case Pair(_, b, n) => 1 <= b <= sum && 1 <= n <= sum
    case Single(_, n) => 1 <= n <= sum
    case _ => false
  }

  /** Number of lines before the end mark or the first unreadable one. */
  function Entries(lines: seq<Line>): (m: nat)
    ensures m <= |lines| && forall q :: 0 <= q < m ==> lines[q].Pair? || lines[q].Single?
    ensures m < |lines| ==> !lines[m].Pair? && !lines[m].Single?
  {
    if lines == [] || lines[0].EndData? || lines[0].Bad? then 0 else 1 + Entries(lines[1..])
  }

  /** Flags and bounds after the first `m` lines have been applied. */
  function FlagsAfter(isb: seq<bool>, lines: seq<Line>, m: nat, sum: nat): (r: seq<bool>)
    requires m <= |lines| && sum < |isb| && forall q :: 0 <= q < m ==> IsEntry(lines[q], sum)
    ensures |r| == |isb|
  {
    if m == 0 then isb
    else
      SetFlags(FlagsAfter(isb, lines, m - 1, sum), lines[m - 1], sum)
  }

  /** One line: the first index becomes basic, the other one nonbasic. */
  function SetFlags(isb: seq<bool>, l: Line, sum: nat): (r: seq<bool>)
    requires sum < |isb| && IsEntry(l, sum)
    ensures |r| == |isb|
  {
    if l.Pair? then isb[l.basic := true][l.nonbasic := false] else isb[l.index := false]
  }

  function SetBound(isl: seq<bool>, l: Line, sum: nat): (r: seq<bool>)
    requires sum < |isl| && IsEntry(l, sum)
    ensures |r| == |isl|
  {
    if l.Pair? then isl[l.nonbasic := l.lower] else isl[l.index := l.slower]
  }

  function BoundsAfter(isl: seq<bool>, lines: seq<Line>, m: nat, sum: nat): (r: seq<bool>)
    requires m <= |lines| && sum < |isl| && forall q :: 0 <= q < m ==> IsEntry(lines[q], sum)
    ensures |r| == |isl|
  {
    if m == 0 then isl
    else
      SetBound(BoundsAfter(isl, lines, m - 1, sum), lines[m - 1], sum)
  }

  /** What `default_basis` makes of the flags and bounds. */
  function DefaultFlags(isb: seq<bool>, rows: nat, sum: nat): (r: seq<bool>)
    ensures |r| == |isb|
  {
    seq(|isb|, k requires 0 <= k < |isb| => if 1 <= k <= sum then k <= rows else isb[k])
  }

  function DefaultBounds(isl: seq<bool>, sum: nat): (r: seq<bool>)
    ensures |r| == |isl|
  {
    seq(|isl|, k requires 0 <= k < |isl| => k <= sum || isl[k])
  }

  lemma WrittenLines(isb: seq<bool>, isl: seq<bool>, rows: nat, sum: nat)
    requires sum < |isb| && sum < |isl|
    ensures var lines, ns := Written(isb, isl, rows, sum), ToWrite(isb, isl, rows, sum);
            forall q :: 0 <= q < |ns| ==> 1 <= ns[q] <= sum && lines[q] == LineOf(BasicCols(isb, rows, sum), ns, isl, q) && IsEntry(lines[q], sum)
  {
    var bs, ns := BasicCols(isb, rows, sum), ToWrite(isb, isl, rows, sum);
    forall q | 0 <= q < |ns| ensures 1 <= ns[q] <= sum && IsEntry(LineOf(bs, ns, isl, q), sum) {
      ToWriteEntry(isb, isl, rows, sum, q);
      if q < |bs| {
        BasicColsIn(isb, rows, sum, bs[q]);
      }
    }
  }

  /** The nonbasic index that a line speaks of. */
  function Subject(l: Line): int {
    match l
    case Pair(_, _, n) => n
    case Single(_, n) => n
    case _ => 0
  }

  /** What the lines of a written file say: a basic structural, if any is left, and the bound that the nonbasic
      index is at. */
  lemma LinesMean(isb: seq<bool>, isl: seq<bool>, rows: nat, sum: nat, q: nat)
    requires rows <= sum < |isb| && sum < |isl| && q + 1 < |Written(isb, isl, rows, sum)|
    ensures var l := Written(isb, isl, rows, sum)[q];
            match l
            case Pair(lower, b, n) => rows < b <= sum && isb[b] && 1 <= n <= sum && !isb[n] && lower == isl[n] && (n <= rows || !isl[n])
            case Single(lower, n) => 1 <= n <= sum && !isb[n] && lower == isl[n] && (n <= rows || !isl[n])
            case _ => false
  {
    var bs, ns := BasicCols(isb, rows, sum), ToWrite(isb, isl, rows, sum);
    WrittenLines(isb, isl, rows, sum);
    ToWriteIn(isb, isl, rows, sum, ns[q]);
    if q < |bs| {
      BasicColsIn(isb, rows, sum, bs[q]);
    }
  }

  /** Every nonbasic slack, and every structural at its upper bound, has its line. */
  lemma LineFor(isb: seq<bool>, isl: seq<bool>, rows: nat, sum: nat, n: nat) returns (q: nat)
    requires rows <= sum < |isb| && sum < |isl| && 1 <= n <= sum && !isb[n] && (n <= rows || !isl[n])
    ensures q + 1 < |Written(isb, isl, rows, sum)| && Subject(Written(isb, isl, rows, sum)[q]) == n
  {
    var ns := ToWrite(isb, isl, rows, sum);
    ToWriteIn(isb, isl, rows, sum, n);
    q :| 0 <= q < |ns| && ns[q] == n;
    WrittenLines(isb, isl, rows, sum);
  }

  /** Lines that hold the lists `bs` and `ns`. */
  ghost predicate Hold(lines: seq<Line>, bs: seq<int>, ns: seq<int>, isl: seq<bool>, sum: nat) {
    |ns| <= |lines| && forall q :: 0 <= q < |ns| ==> 0 <= ns[q] < |isl| && lines[q] == LineOf(bs, ns, isl, q) && IsEntry(lines[q], sum)
  }

  /** After `m` lines the first m of `ns` are nonbasic and the first m of `bs` basic. */
  lemma {:induction false} FlagsRead(isb0: seq<bool>, lines: seq<Line>, bs: seq<int>, ns: seq<int>, isl: seq<bool>, sum: nat, m: nat, j: int)
    requires Hold(lines, bs, ns, isl, sum) && m <= |ns| && 1 <= j <= sum < |isb0|
    requires forall b :: b in bs ==> b !in ns
    ensures FlagsAfter(isb0, lines, m, sum)[j] <==>
            j !in ns[..m] && (isb0[j] || j in bs[..if m <= |bs| then m else |bs|])
  {
    if m > 0 {
      FlagsRead(isb0, lines, bs, ns, isl, sum, m - 1, j);
      assert ns[..m] == ns[..m - 1] + [ns[m - 1]];
      assert lines[m - 1] == LineOf(bs, ns, isl, m - 1);
      if m <= |bs| {
        assert bs[..m] == bs[..m - 1] + [bs[m - 1]];
        assert bs[m - 1] in bs;
      }
    }
  }

  lemma {:induction false} BoundsRead(isl0: seq<bool>, lines: seq<Line>, bs: seq<int>, ns: seq<int>, isl: seq<bool>, sum: nat, m: nat, j: int)
    requires Hold(lines, bs, ns, isl, sum) && m <= |ns| && 1 <= j <= sum < |isl0| && j < |isl| && isl0[j]
    ensures BoundsAfter(isl0, lines, m, sum)[j] <==> j !in ns[..m] || isl[j]
  {
    if m > 0 {
      BoundsRead(isl0, lines, bs, ns, isl, sum, m - 1, j);
      assert ns[..m] == ns[..m - 1] + [ns[m - 1]];
      assert lines[m - 1] == LineOf(bs, ns, isl, m - 1);
    }
  }

  lemma {:induction false} EntriesAre(lines: seq<Line>, m: nat)
    requires m < |lines| && lines[m].EndData? && forall q :: 0 <= q < m ==> lines[q].Pair? || lines[q].Single?
    ensures Entries(lines) == m
  {
    if m > 0 {
      forall q | 0 <= q < m - 1 ensures lines[1..][q].Pair? || lines[1..][q].Single? {
        assert lines[1..][q] == lines[q + 1];
      }
      EntriesAre(lines[1..], m - 1);
    }
  }

  /** Round trip: reading the file that was written for a valid basis restores which indices are basic, and
      the bounds of all nonbasic ones; basic ones come back at their lower bound. */
  lemma FileRoundTrip(isb0: seq<bool>, isl0: seq<bool>, vb: seq<int>, isb: seq<bool>, isl: seq<bool>, rows: nat, sum: nat)
    requires sum < |isb0| && sum < |isl0| && IsBasis(vb, isb, rows, sum) && rows <= sum < |isl|
    ensures var lines := Written(isb, isl, rows, sum);
            var m := Entries(lines);
            && m == |lines| - 1 && lines[m] == EndData && (forall q :: 0 <= q < m ==> IsEntry(lines[q], sum))
            && (forall j :: 1 <= j <= sum ==> FlagsAfter(DefaultFlags(isb0, rows, sum), lines, m, sum)[j] == isb[j])
            && (forall j :: 1 <= j <= sum ==> (BoundsAfter(DefaultBounds(isl0, sum), lines, m, sum)[j] <==> isb[j] || isl[j]))
            && ((forall j :: 1 <= j <= sum ==> BoundsAfter(DefaultBounds(isl0, sum), lines, m, sum)[j] == isl[j]) <==>
                forall j :: 1 <= j <= sum && isb[j] ==> isl[j])
  {
    var lines, bs, ns := Written(isb, isl, rows, sum), BasicCols(isb, rows, sum), ToWrite(isb, isl, rows, sum);
    var m := |ns|;
    WrittenLines(isb, isl, rows, sum);
    NoneDropped(vb, isb, isl, rows, sum);
    forall b | b in bs ensures b !in ns {
      BasicColsIn(isb, rows, sum, b);
      ToWriteIn(isb, isl, rows, sum, b);
    }
    assert ns[..m] == ns && bs[..|bs|] == bs;
    EntriesAre(lines, m);
    forall j | 1 <= j <= sum
      ensures FlagsAfter(DefaultFlags(isb0, rows, sum), lines, m, sum)[j] == isb[j]
      ensures BoundsAfter(DefaultBounds(isl0, sum), lines, m, sum)[j] <==> isb[j] || isl[j]
    {
      FlagsRead(DefaultFlags(isb0, rows, sum), lines, bs, ns, isl, sum, m, j);
      BoundsRead(DefaultBounds(isl0, sum), lines, bs, ns, isl, sum, m, j);
      BasicColsIn(isb, rows, sum, j);
      ToWriteIn(isb, isl, rows, sum, j);
    }
  }

  /** The basic vector refilled in ascending order is a basis with the same flags. */
  lemma AscendingBasis(vb: seq<int>, isb: seq<bool>, vb': seq<int>, isb': seq<bool>, rows: nat, sum: nat)
    requires IsBasis(vb, isb, rows, sum) && sum < |isb'| && forall j :: 1 <= j <= sum ==> isb'[j] == isb[j]
    requires |BasicCols(isb', 0, sum)| < |vb'| && vb'[1..|BasicCols(isb', 0, sum)| + 1] == BasicCols(isb', 0, sum)
    ensures IsBasis(vb', isb', rows, sum) && |BasicCols(isb', 0, sum)| == rows
    ensures forall i, j :: 1 <= i < j <= rows ==> vb'[i] < vb'[j]
  {
    var xs := BasicCols(isb', 0, sum);
    CountIsRows(vb, isb, rows, sum);
    CountSame(isb, isb', sum);
    BasicColsSize(isb', 0, sum);
    BasicColsAscend(isb', 0, sum);
    assert forall i :: 1 <= i <= rows ==> vb'[i] == xs[i - 1];
    forall i | 1 <= i <= rows ensures 1 <= vb'[i] <= sum {
      BasicColsIn(isb', 0, sum, xs[i - 1]);
    }
    forall k | 1 <= k <= sum ensures isb'[k] <==> k in vb'[1..rows + 1] {
      BasicColsIn(isb', 0, sum, k);
    }
  }

  lemma {:induction false} CountSame(isb: seq<bool>, isb': seq<bool>, k: nat)
    requires k < |isb| && k < |isb'| && forall j :: 1 <= j <= k ==> isb'[j] == isb[j]
    ensures CountTo(isb', k) == CountTo(isb, k)
  {
    if k > 0 {
      CountSame(isb, isb', k - 1);
    }
  }

  lemma {:induction false} BasicColsAscend(isb: seq<bool>, rows: nat, k: nat)
    requires k < |isb|
    ensures forall i, j :: 0 <= i < j < |BasicCols(isb, rows, k)| ==> BasicCols(isb, rows, k)[i] < BasicCols(isb, rows, k)[j]
  {
    if k > rows {
      BasicColsAscend(isb, rows, k - 1);
      var prev := BasicCols(isb, rows, k - 1);
      forall x | x in prev ensures x < k {
        BasicColsIn(isb, rows, k - 1, x);
      }
      assert forall i :: 0 <= i < |prev| ==> prev[i] in prev;
    }
  }

  // ------------------------------------------------------------------ the two cursors of the writer

  /** The cursor over basic structurals moves to the next one, or past the end. */
  ghost predicate BasicStep(isb: seq<bool>, rows: nat, sum: nat, ib: nat, ib': nat) {
    && sum < |isb| && ib < ib'
    && BasicCols(isb, rows, Min(ib', sum)) == BasicCols(isb, rows, Min(ib, sum)) + if ib' <= sum then [ib'] else []
  }

  ghost predicate NonbasicStep(isb: seq<bool>, isl: seq<bool>, rows: nat, sum: nat, i: nat, i': nat) {
    && sum < |isb| && sum < |isl| && i < i'
    && ToWrite(isb, isl, rows, Min(i', sum)) == ToWrite(isb, isl, rows, Min(i, sum)) + if i' <= sum then [i'] else []
  }

  /** After `r` rounds: a cursor that is not past the end has found `r` items. */
  ghost predicate Writing(lines: seq<Line>, isb: seq<bool>, isl: seq<bool>, rows: nat, sum: nat, ib: nat, i: nat, r: nat) {
    && rows <= sum < |isb| && sum < |isl| && rows <= ib
    && (if ib <= sum then |BasicCols(isb, rows, ib)| == r else |BasicCols(isb, rows, sum)| <= r)
    && (if i <= sum then |ToWrite(isb, isl, rows, i)| == r else |ToWrite(isb, isl, rows, sum)| <= r)
    && |lines| == |ToWrite(isb, isl, rows, Min(i, sum))|
    && LinesAre(lines, BasicCols(isb, rows, sum), ToWrite(isb, isl, rows, sum), isl)
  }

  ghost predicate LinesAre(lines: seq<Line>, bs: seq<int>, ns: seq<int>, isl: seq<bool>) {
    |lines| <= |ns| && forall q :: 0 <= q < |lines| ==> 0 <= ns[q] < |isl| && lines[q] == LineOf(bs, ns, isl, q)
  }

  lemma {:induction false} BasicColsGrow(isb: seq<bool>, rows: nat, j: nat, k: nat)
    requires j <= k < |isb|
    ensures BasicCols(isb, rows, j) <= BasicCols(isb, rows, k)
  {
    if j < k {
      BasicColsGrow(isb, rows, j, k - 1);
    }
  }

  lemma {:induction false} ToWriteGrow(isb: seq<bool>, isl: seq<bool>, rows: nat, j: nat, k: nat)
    requires j <= k < |isb| && k < |isl|
    ensures ToWrite(isb, isl, rows, j) <= ToWrite(isb, isl, rows, k)
  {
    if j < k {
      ToWriteGrow(isb, isl, rows, j, k - 1);
    }
  }

  lemma StartWriting(isb: seq<bool>, isl: seq<bool>, rows: nat, sum: nat)
    requires rows <= sum < |isb| && sum < |isl|
    ensures Writing([], isb, isl, rows, sum, rows, 0, 0)
  {
  }

  lemma WriteNext(lines: seq<Line>, isb: seq<bool>, isl: seq<bool>, rows: nat, sum: nat, ib: nat, i: nat, r: nat, ib': nat, i': nat)
    requires Writing(lines, isb, isl, rows, sum, ib, i, r)
    requires BasicStep(isb, rows, sum, ib, ib') && NonbasicStep(isb, isl, rows, sum, i, i')
    ensures var next := if i' > sum then [] else if ib' <= sum then [Pair(isl[i'], ib', i')] else [Single(isl[i'], i')];
            Writing(lines + next, isb, isl, rows, sum, ib', i', r + 1)
  {
    var bs, ns := BasicCols(isb, rows, sum), ToWrite(isb, isl, rows, sum);
    FoundBasic(isb, rows, sum, ib, ib', r);
    FoundNonbasic(isb, isl, rows, sum, i, i', r);
    hide BasicCols, ToWrite, LinesAre, BasicStep, NonbasicStep;
    if i' <= sum {
      LinesNext(lines, bs, ns, isl, i', ib', ib' <= sum);
    } else {
      assert lines + [] == lines;
    }
  }

  lemma FoundBasic(isb: seq<bool>, rows: nat, sum: nat, ib: nat, ib': nat, r: nat)
    requires rows <= sum < |isb| && rows <= ib && BasicStep(isb, rows, sum, ib, ib')
    requires if ib <= sum then |BasicCols(isb, rows, ib)| == r else |BasicCols(isb, rows, sum)| <= r
    ensures if ib' <= sum then |BasicCols(isb, rows, ib')| == r + 1 else |BasicCols(isb, rows, sum)| <= r
    ensures ib' <= sum ==> r < |BasicCols(isb, rows, sum)| && BasicCols(isb, rows, sum)[r] == ib'
  {
    BasicColsGrow(isb, rows, Min(ib', sum), sum);
    hide BasicCols;
  }

  lemma FoundNonbasic(isb: seq<bool>, isl: seq<bool>, rows: nat, sum: nat, i: nat, i': nat, r: nat)
    requires sum < |isb| && sum < |isl| && NonbasicStep(isb, isl, rows, sum, i, i')
    requires if i <= sum then |ToWrite(isb, isl, rows, i)| == r else |ToWrite(isb, isl, rows, sum)| <= r
    ensures if i' <= sum then |ToWrite(isb, isl, rows, i')| == r + 1 else |ToWrite(isb, isl, rows, sum)| <= r
    ensures i' <= sum ==> i <= sum && r < |ToWrite(isb, isl, rows, sum)| && ToWrite(isb, isl, rows, sum)[r] == i'
    ensures i' > sum ==> ToWrite(isb, isl, rows, Min(i', sum)) == ToWrite(isb, isl, rows, Min(i, sum))
  {
    ToWriteGrow(isb, isl, rows, Min(i', sum), sum);
    hide ToWrite;
  }

  lemma LinesNext(lines: seq<Line>, bs: seq<int>, ns: seq<int>, isl: seq<bool>, n: nat, b: nat, paired: bool)
    requires LinesAre(lines, bs, ns, isl) && |lines| < |ns| && ns[|lines|] == n < |isl|
    requires if paired then |lines| < |bs| && bs[|lines|] == b else |bs| <= |lines|
    ensures LinesAre(lines + [if paired then Pair(isl[n], b, n) else Single(isl[n], n)], bs, ns, isl)
  {
  }

  lemma WritingDone(lines: seq<Line>, isb: seq<bool>, isl: seq<bool>, rows: nat, sum: nat, ib: nat, i: nat, r: nat)
    requires Writing(lines, isb, isl, rows, sum, ib, i, r) && i >= sum
    ensures lines + [EndData] == Written(isb, isl, rows, sum)
  {
    WrittenLines(isb, isl, rows, sum);
  }
}
