/** Run-length encoding of a line of modules, and the penalties that depend on it. */
module RunLengths {
  import opened Bytes

  /** Whether run number `k` of an encoding is dark; the first run is light. */
  predicate IsDark(k: int) {
    k % 2 == 1
  }

  /** The encoding of a line with one more module. */
  function NextRuns(r: seq<nat>, b: bool): (r': seq<nat>)
    requires r != []
    ensures r' != []
  {
    var k := |r| - 1;
    if b == IsDark(k) then r[k := r[k] + 1] else r + [1]
  }

  /** The lengths of the maximal runs of one color; the first run is light and may be empty. */
  function Runs(s: seq<bool>): (r: seq<nat>)
    ensures r != []
  {
    if s == [] then [0] else NextRuns(Runs(s[..|s| - 1]), s[|s| - 1])
  }

  /** The line with the given run lengths. */
  function Expand(r: seq<nat>): seq<bool> {
    if r == [] then []
    else
      var k := |r| - 1;
      Expand(r[..k]) + Repeat(IsDark(k), r[k])
  }

  /** Only the first run may be empty. */
  ghost predicate IsEncoding(r: seq<nat>) {
    r != [] && forall k | 1 <= k < |r| :: r[k] > 0
  }

  lemma RunsSnoc(s: seq<bool>, b: bool)
    ensures Runs(s + [b]) == NextRuns(Runs(s), b)
  {
    assert (s + [b])[..|s|] == s;
  }

  lemma ExpandSnoc(r: seq<nat>, n: nat)
    ensures Expand(r + [n]) == Expand(r) + Repeat(IsDark(|r|), n)
  {
    assert (r + [n])[..|r|] == r;
  }

  lemma ExpandNext(r: seq<nat>, b: bool)
    requires r != []
    ensures Expand(NextRuns(r, b)) == Expand(r) + [b]
  {
    hide Expand, Repeat, IsDark;
    var k := |r| - 1;
    if b == IsDark(k) {
      assert r == r[..k] + [r[k]];
      assert r[k := r[k] + 1] == r[..k] + [r[k] + 1];
      ExpandSnoc(r[..k], r[k]);
      ExpandSnoc(r[..k], r[k] + 1);
      RepeatMore(b, r[k]);
    } else {
      ExpandSnoc(r, 1);
      RepeatOnce(b);
      DarkAlternates(k);
    }
  }

  lemma DarkAlternates(k: nat)
    ensures IsDark(k + 1) == !IsDark(k)
  {
  }

  lemma RepeatMore(b: bool, n: nat)
    ensures Repeat(b, n + 1) == Repeat(b, n) + [b]
  {
  }

  lemma NextIsEncoding(r: seq<nat>, b: bool)
    requires IsEncoding(r)
    ensures IsEncoding(NextRuns(r, b))
  {
  }

  lemma RepeatOnce(b: bool)
    ensures Repeat(b, 1) == [b]
  {
    assert Repeat(b, 0) == [];
  }

  /** `Runs` is the run-length encoding: it encodes the line ... */
  lemma {:induction false} RunsEncode(s: seq<bool>)
    ensures IsEncoding(Runs(s)) && Expand(Runs(s)) == s
  {
    hide NextRuns, IsEncoding, Expand;
    if s == [] {
      EncodingOfEmpty();
    } else {
      RunsEncode(s[..|s| - 1]);
      ExpandNext(Runs(s[..|s| - 1]), s[|s| - 1]);
      NextIsEncoding(Runs(s[..|s| - 1]), s[|s| - 1]);
    }
  }

  lemma EncodingOfEmpty()
    ensures IsEncoding([0]) && Expand([0]) == []
  {
    assert [0][..0] == [];
  }

  /** ... and it is the only encoding. */
  lemma {:induction false} EncodingUnique(r: seq<nat>)
    requires IsEncoding(r)
    ensures Runs(Expand(r)) == r
    decreases |r|, r[|r| - 1]
  {
    hide Expand, Runs, NextRuns, IsDark;
    var k := |r| - 1;
    if r[k] == 0 {
      assert r == [0];
      EncodingOfEmpty();
      assert Runs([]) == [0] by { RunsOfEmpty(); }
    } else {
      var r' := if k > 0 && r[k] == 1 then r[..k] else r[k := r[k] - 1];
      EncodingUnique(r');
      PreviousRuns(r);
      ExpandNext(r', IsDark(k));
      RunsSnoc(Expand(r'), IsDark(k));
    }
  }

  lemma RunsOfEmpty()
    ensures Runs([]) == [0]
  {
  }

  lemma PreviousRuns(r: seq<nat>)
    requires IsEncoding(r) && r[|r| - 1] > 0
    ensures var k := |r| - 1;
      NextRuns(if k > 0 && r[k] == 1 then r[..k] else r[k := r[k] - 1], IsDark(k)) == r
  {
  }

  function LongerFirst(r: seq<nat>, n: nat): (r': seq<nat>)
    requires r != []
    ensures |r'| == |r|
  {
    r[0 := r[0] + n]
  }

  lemma NextOfLongerFirst(r: seq<nat>, n: nat, b: bool)
    requires r != []
    ensures NextRuns(LongerFirst(r, n), b) == LongerFirst(NextRuns(r, b), n)
  {
  }

  /** Light modules before the line lengthen its first run. */
  lemma {:induction false} RunsAfterLight(n: nat, s: seq<bool>)
    ensures Runs(Zeros(n) + s) == LongerFirst(Runs(s), n)
    decreases n + |s|
  {
    hide NextRuns, LongerFirst;
    if s != [] {
      var m := |s| - 1;
      RunsAfterLight(n, s[..m]);
      assert Zeros(n) + s == (Zeros(n) + s[..m]) + [s[m]];
      RunsSnoc(Zeros(n) + s[..m], s[m]);
      NextOfLongerFirst(Runs(s[..m]), n, s[m]);
    } else if n > 0 {
      RunsAfterLight(n - 1, []);
      assert Zeros(n) + [] == (Zeros(n - 1) + []) + [false];
      RunsSnoc(Zeros(n - 1) + [], false);
      NextOfLight(n);
    } else {
      NextOfLight(0);
    }
  }

  lemma NextOfLight(n: nat)
    ensures LongerFirst([0], n) == [n]
    ensures n > 0 ==> NextRuns(LongerFirst([0], n - 1), false) == [n]
  {
  }

  function LongerLast(r: seq<nat>, n: nat): (r': seq<nat>)
    requires r != []
    ensures r' != []
  {
    if IsDark(|r| - 1) then r + [n] else r[|r| - 1 := r[|r| - 1] + n]
  }

  lemma NextOfLongerLast(r: seq<nat>, n: nat)
    requires r != []
    ensures NextRuns(r, false) == LongerLast(r, 1)
    ensures n > 0 ==> NextRuns(LongerLast(r, n), false) == LongerLast(r, n + 1)
  {
  }

  /** Light modules after the line lengthen its last run or add one. */
  lemma {:induction false} RunsBeforeLight(s: seq<bool>, n: nat)
    requires n > 0
    ensures Runs(s + Zeros(n)) == LongerLast(Runs(s), n)
  {
    hide Runs, NextRuns, LongerLast, Repeat;
    LightSnoc(s, n - 1);
    RunsSnoc(s + Zeros(n - 1), false);
    if n > 1 {
      RunsBeforeLight(s, n - 1);
    }
    NextOfLongerLast(Runs(s), n - 1);
  }

  lemma LightSnoc(s: seq<bool>, n: nat)
    ensures s + Zeros(n + 1) == (s + Zeros(n)) + [false]
    ensures s + Zeros(0) == s
  {
  }

  // ----- penalties

  /** The penalty of one run of modules of the same color. */
  function RunPoints(length: nat): nat {
    if length >= 5 then length - 2 else 0
  }

  function RunScore(r: seq<nat>): nat {
    if r == [] then 0 else RunScore(r[..|r| - 1]) + RunPoints(r[|r| - 1])
  }

  lemma RunScoreLast(r: seq<nat>, v: nat)
    requires r != []
    ensures RunScore(r[|r| - 1 := v]) == RunScore(r) - RunPoints(r[|r| - 1]) + RunPoints(v)
    ensures RunScore(r + [v]) == RunScore(r) + RunPoints(v)
  {
    assert r[|r| - 1 := v][..|r| - 1] == r[..|r| - 1];
    assert (r + [v])[..|r|] == r;
  }

  /** Runs i-5 to i-1 have the proportions 1:1:3:1:1. */
  predicate FinderCore(r: seq<nat>, i: int)
    requires 6 <= i < |r|
  {
    var n := r[i - 1];
    n > 0 && r[i - 2] == n && r[i - 3] == 3 * n && r[i - 4] == n && r[i - 5] == n
  }

  /** The light runs on the two sides of a finder core are wide enough. */
  predicate WideAfter(r: seq<nat>, i: int)
    requires 6 <= i < |r|
  {
    FinderCore(r, i) && r[i] >= 4 * r[i - 1] && r[i - 6] >= r[i - 1]
  }

  predicate WideBefore(r: seq<nat>, i: int)
    requires 6 <= i < |r|
  {
    FinderCore(r, i) && r[i - 6] >= 4 * r[i - 1] && r[i] >= r[i - 1]
  }

  /** The finder-like patterns whose last light run is run `i`. */
  function PatternsAt(r: seq<nat>, i: int): (c: nat)
    ensures c <= 2
  {
    if 6 <= i < |r| && !IsDark(i) then (if WideAfter(r, i) then 1 else 0) + (if WideBefore(r, i) then 1 else 0)
    else 0
  }

  /** The number of finder-like patterns that end within the first `k` runs. */
  function FinderScore(r: seq<nat>, k: nat): nat {
    if k == 0 then 0 else FinderScore(r, k - 1) + PatternsAt(r, k - 1)
  }

  /** The ends of patterns with a wide light run after the core, and before it. */
  ghost function WideAfterEnds(r: seq<nat>, k: nat): set<int> {
    set i | 6 <= i < k && i < |r| && !IsDark(i) && WideAfter(r, i)
  }

  ghost function WideBeforeEnds(r: seq<nat>, k: nat): set<int> {
    set i | 6 <= i < k && i < |r| && !IsDark(i) && WideBefore(r, i)
  }

  lemma WideAfterStep(r: seq<nat>, i: nat)
    ensures var here := 6 <= i < |r| && !IsDark(i) && WideAfter(r, i);
      |WideAfterEnds(r, i + 1)| == |WideAfterEnds(r, i)| + if here then 1 else 0
  {
    hide WideAfter, IsDark;
    var a: set<int> := if 6 <= i < |r| && !IsDark(i) && WideAfter(r, i) then {i} else {};
    assert WideAfterEnds(r, i + 1) == WideAfterEnds(r, i) + a;
  }

  lemma WideBeforeStep(r: seq<nat>, i: nat)
    ensures var here := 6 <= i < |r| && !IsDark(i) && WideBefore(r, i);
      |WideBeforeEnds(r, i + 1)| == |WideBeforeEnds(r, i)| + if here then 1 else 0
  {
    hide WideBefore, IsDark;
    var a: set<int> := if 6 <= i < |r| && !IsDark(i) && WideBefore(r, i) then {i} else {};
    assert WideBeforeEnds(r, i + 1) == WideBeforeEnds(r, i) + a;
  }

  /** The score counts the places where a 1:1:3:1:1 pattern has a wide light run after it or before it. */
  lemma {:induction false} FinderScoreCounts(r: seq<nat>, k: nat)
    ensures FinderScore(r, k) == |WideAfterEnds(r, k)| + |WideBeforeEnds(r, k)|
  {
    if k == 0 {
      assert WideAfterEnds(r, k) == {} && WideBeforeEnds(r, k) == {};
    } else {
      hide WideAfter, WideBefore, IsDark, WideAfterEnds, WideBeforeEnds;
      FinderScoreCounts(r, k - 1);
      WideAfterStep(r, k - 1);
      WideBeforeStep(r, k - 1);
    }
  }

  /** Runs after the first `k` do not matter. */
  lemma {:induction false} FinderScorePrefix(r: seq<nat>, r': seq<nat>, k: nat)
    requires k <= |r| && k <= |r'| && r[..k] == r'[..k]
    ensures FinderScore(r, k) == FinderScore(r', k)
  {
    if k > 0 {
      assert r[..k - 1] == r[..k][..k - 1] == r'[..k][..k - 1] == r'[..k - 1];
      FinderScorePrefix(r, r', k - 1);
      assert forall i | 0 <= i < k :: r[i] == r[..k][i] == r'[..k][i] == r'[i];
    }
  }

  function Padded(line: seq<bool>): seq<bool> {
    Zeros(|line|) + line + Zeros(|line|)
  }

  /** The penalty of a row or column: its runs, and its finder-like patterns when it has light borders. */
  function LineScore(line: seq<bool>): nat {
    var r := Runs(Padded(line));
    RunScore(Runs(line)) + 40 * FinderScore(r, |r|)
  }

  // ----- bounds

  function Sum(r: seq<nat>): nat {
    if r == [] then 0 else Sum(r[..|r| - 1]) + r[|r| - 1]
  }

  lemma {:induction false} RunsSum(s: seq<bool>)
    ensures Sum(Runs(s)) == |s|
  {
    if s == [] {
      assert Sum([0]) == Sum([]) + 0 by { assert [0][..0] == []; }
    } else {
      var r := Runs(s[..|s| - 1]);
      RunsSum(s[..|s| - 1]);
      assert r[|r| - 1 := r[|r| - 1] + 1][..|r| - 1] == r[..|r| - 1];
      assert (r + [1])[..|r|] == r;
    }
  }

  lemma {:induction false} RunAtMostSum(r: seq<nat>, k: nat)
    requires k < |r|
    ensures r[k] <= Sum(r)
  {
    if k < |r| - 1 {
      RunAtMostSum(r[..|r| - 1], k);
    }
  }

  lemma {:induction false} RunScoreAtMostSum(r: seq<nat>)
    ensures RunScore(r) <= Sum(r)
  {
    if r != [] {
      RunScoreAtMostSum(r[..|r| - 1]);
    }
  }

  /** The total length of the dark runs among the first `k`. */
  function DarkSum(r: seq<nat>, k: int): nat {
    if k <= 0 then 0 else DarkSum(r, k - 1) + if IsDark(k - 1) && k <= |r| then r[k - 1] else 0
  }

  /** Every pattern has its own dark run of length at least three in the middle. */
  lemma {:induction false} FinderScoreBound(r: seq<nat>, k: nat)
    ensures 3 * FinderScore(r, k) <= 2 * DarkSum(r, k - 3)
  {
    if k > 0 {
      FinderScoreBound(r, k - 1);
    }
  }

  lemma {:induction false} DarkSumGrows(r: seq<nat>, j: int, k: nat)
    requires j <= k
    ensures DarkSum(r, j) <= DarkSum(r, k)
    decreases k
  {
    if 0 < k && j < k {
      DarkSumGrows(r, j, k - 1);
    }
  }

  lemma {:induction false} DarkSumPrefix(r: seq<nat>, r': seq<nat>, k: nat)
    requires k <= |r| && k <= |r'| && forall i | 0 <= i < k :: r[i] == r'[i]
    ensures DarkSum(r, k) == DarkSum(r', k)
  {
    if k > 0 {
      DarkSumPrefix(r, r', k - 1);
    }
  }

  function CountDark(s: seq<bool>): nat {
    if s == [] then 0 else CountDark(s[..|s| - 1]) + if s[|s| - 1] then 1 else 0
  }

  lemma {:induction false} DarkRunsCount(s: seq<bool>)
    ensures DarkSum(Runs(s), |Runs(s)|) == CountDark(s)
  {
    if s != [] {
      hide NextRuns, DarkSum;
      DarkRunsCount(s[..|s| - 1]);
      DarkSumNext(Runs(s[..|s| - 1]), s[|s| - 1]);
    } else {
      assert DarkSum([0], 1) == 0;
    }
  }

  lemma DarkSumNext(r: seq<nat>, b: bool)
    requires r != []
    ensures DarkSum(NextRuns(r, b), |NextRuns(r, b)|) == DarkSum(r, |r|) + if b then 1 else 0
  {
    var r' := NextRuns(r, b);
    DarkSumPrefix(r, r', |r| - 1);
    if |r'| > |r| {
      DarkSumPrefix(r, r', |r|);
    }
  }

  lemma {:induction false} CountDarkOfPadded(m: nat, line: seq<bool>, n: nat)
    ensures CountDark(Zeros(m) + line + Zeros(n)) <= |line|
    decreases m + |line| + n
  {
    var s := Zeros(m) + line + Zeros(n);
    if n > 0 {
      assert s[..|s| - 1] == Zeros(m) + line + Zeros(n - 1);
      CountDarkOfPadded(m, line, n - 1);
    } else if line != [] {
      assert s[..|s| - 1] == Zeros(m) + line[..|line| - 1] + Zeros(0);
      CountDarkOfPadded(m, line[..|line| - 1], 0);
    } else if m > 0 {
      assert s[..|s| - 1] == Zeros(m - 1) + [] + Zeros(0);
      CountDarkOfPadded(m - 1, [], 0);
    }
  }

  lemma LineScoreBound(line: seq<bool>)
    ensures 3 * LineScore(line) <= 83 * |line|
  {
    hide Runs, FinderScore, RunScore, CountDark;
    RunsSum(line);
    RunScoreAtMostSum(Runs(line));
    var r := Runs(Padded(line));
    FinderScoreBound(r, |r|);
    DarkSumGrows(r, |r| - 3, |r|);
    DarkRunsCount(Padded(line));
    CountDarkOfPadded(|line|, line, |line|);
  }
}
