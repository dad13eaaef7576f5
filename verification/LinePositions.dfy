/** The penalty of a line said without runs, by the positions of its modules: how many windows of five modules have
    one color, how many of them begin a run, and where the finder-like patterns begin. */
module LinePositions {
  import opened Counting
  import opened RunLengths

  // ----- runs of one color

  /** The five modules from `k` on have one color. */
  predicate OneColor(line: seq<bool>, k: int) {
    0 <= k && k + 5 <= |line| && line[k] == line[k + 1] == line[k + 2] == line[k + 3] == line[k + 4]
  }

  ghost function Windows(line: seq<bool>): set<int> {
    set k | 0 <= k < |line| && OneColor(line, k)
  }

  /** The windows that no module of the same color precedes. */
  ghost function FirstWindows(line: seq<bool>): set<int> {
    set k | 0 <= k < |line| && OneColor(line, k) && (k == 0 || line[k - 1] != line[k])
  }

  /** The last run is at the end of the line, and a module of the other color precedes it, if any. */
  lemma {:induction false} LastRun(s: seq<bool>)
    ensures var k := |Runs(s)| - 1;
      var n := Runs(s)[k];
      && n <= |s| && (s != [] ==> n > 0)
      && (forall i | |s| - n <= i < |s| :: s[i] == IsDark(k))
      && (n < |s| ==> s[|s| - n - 1] != IsDark(k))
  {
    if s != [] {
      hide IsDark;
      LastRun(s[..|s| - 1]);
      DarkAlternates(|Runs(s[..|s| - 1])| - 1);
    }
  }

  /** What one more module adds to the windows. */
  lemma WindowsSnoc(line: seq<bool>, b: bool)
    ensures var line', k := line + [b], |line| - 4;
      && Windows(line') == Windows(line) + (if OneColor(line', k) then {k} else {})
      && FirstWindows(line')
         == FirstWindows(line) + (if OneColor(line', k) && (k == 0 || line'[k - 1] != line'[k]) then {k} else {})
  {
    var line' := line + [b];
    assert forall i | 0 <= i < |line| :: line'[i] == line[i];
    assert forall k | k + 5 <= |line| :: OneColor(line', k) <==> OneColor(line, k);
  }

  /** The last window in terms of the last run. */
  lemma LastWindow(s: seq<bool>)
    requires s != []
    ensures var n, k := Runs(s)[|Runs(s)| - 1], |s| - 5;
      && (OneColor(s, k) <==> n >= 5)
      && (OneColor(s, k) && (k == 0 || s[k - 1] != s[k]) <==> n == 5)
  {
    hide Runs, IsDark;
    LastRun(s);
    var n, k := Runs(s)[|Runs(s)| - 1], |s| - 5;
    if k >= 0 && n < 5 {
      assert s[|s| - n - 1] != s[|s| - 1];
    }
  }

  /** What one more module adds to the score. */
  lemma RunScoreSnoc(line: seq<bool>, b: bool)
    ensures var n := Runs(line + [b])[|Runs(line + [b])| - 1];
      RunScore(Runs(line + [b])) == RunScore(Runs(line)) + if n > 5 then 1 else if n == 5 then 3 else 0
  {
    hide Runs, RunScore, IsDark;
    RunsSnoc(line, b);
    var r := Runs(line);
    if b == IsDark(|r| - 1) {
      RunScoreLast(r, r[|r| - 1] + 1);
    } else {
      RunScoreLast(r, 1);
    }
  }

  /** A run of n >= 5 modules costs n - 2: one point for each window of five modules of one color, and two more for
      each of them that begins a run. */
  lemma {:induction false} RunScoreByPositions(line: seq<bool>)
    ensures RunScore(Runs(line)) == |Windows(line)| + 2 * |FirstWindows(line)|
  {
    if line == [] {
      assert Windows(line) == {} && FirstWindows(line) == {};
      assert RunScore([0]) == RunScore([]) + 0 by { assert [0][..0] == []; }
    } else {
      hide Runs, RunScore, OneColor;
      var m := |line| - 1;
      assert line == line[..m] + [line[m]];
      RunScoreByPositions(line[..m]);
      RunScoreSnoc(line[..m], line[m]);
      WindowsSnoc(line[..m], line[m]);
      LastWindow(line);
      NewWindow(line[..m], m - 4);
    }
  }

  lemma NewWindow(line: seq<bool>, k: int)
    requires k + 4 >= |line|
    ensures k !in Windows(line) && k !in FirstWindows(line)
  {
  }

  // ----- finder-like patterns

  /** Outside the line all modules are light. */
  function Module(line: seq<bool>, i: int): bool {
    0 <= i < |line| && line[i]
  }

  ghost predicate Stretch(line: seq<bool>, start: int, end: int, dark: bool) {
    forall i | start <= i < end :: Module(line, i) == dark
  }

  /** A wide light stretch has four units, a narrow one has one. */
  function Border(wide: bool, n: nat): nat {
    if wide then 4 * n else n
  }

  /** Dark, light, dark, light, dark in the proportions 1:1:3:1:1 with unit `n`, from `s` on, between light stretches. */
  ghost predicate FinderAt(line: seq<bool>, s: int, n: nat, wideBefore: bool, wideAfter: bool) {
    && n > 0
    && Stretch(line, s - Border(wideBefore, n), s, false)
    && Stretch(line, s, s + n, true)
    && Stretch(line, s + n, s + 2 * n, false)
    && Stretch(line, s + 2 * n, s + 5 * n, true)
    && Stretch(line, s + 5 * n, s + 6 * n, false)
    && Stretch(line, s + 6 * n, s + 7 * n, true)
    && Stretch(line, s + 7 * n, s + 7 * n + Border(wideAfter, n), false)
  }

  ghost predicate StartsFinder(line: seq<bool>, s: int, wideBefore: bool, wideAfter: bool) {
    exists n: nat :: FinderAt(line, s, n, wideBefore, wideAfter)
  }

  /** Where patterns of any unit begin. */
  ghost function FinderStarts(line: seq<bool>, wideBefore: bool, wideAfter: bool): set<int> {
    set s | 0 <= s < |line| && StartsFinder(line, s, wideBefore, wideAfter)
  }

  /** The runs that end patterns. */
  ghost function FinderEnds(r: seq<nat>, wideBefore: bool, wideAfter: bool): set<int> {
    set i | 6 <= i < |r| && !IsDark(i) && FinderCore(r, i)
            && r[i - 6] >= Border(wideBefore, r[i - 1]) && r[i] >= Border(wideAfter, r[i - 1])
  }

  lemma EndsAre(r: seq<nat>)
    ensures FinderEnds(r, false, true) == WideAfterEnds(r, |r|)
    ensures FinderEnds(r, true, false) == WideBeforeEnds(r, |r|)
  {
  }

  /** The place where run `k` begins. */
  function RunStart(r: seq<nat>, k: nat): nat
    requires k <= |r|
  {
    if k == 0 then 0 else RunStart(r, k - 1) + r[k - 1]
  }

  lemma {:induction false} RunStartPrefix(r: seq<nat>, m: nat, k: nat)
    requires k <= m <= |r|
    ensures RunStart(r[..m], k) == RunStart(r, k)
  {
    if k > 0 {
      RunStartPrefix(r, m, k - 1);
    }
  }

  lemma {:induction false} RunStartGrows(r: seq<nat>, j: nat, k: nat)
    requires j <= k <= |r|
    ensures RunStart(r, j) <= RunStart(r, k)
    ensures IsEncoding(r) && 0 < j < k ==> RunStart(r, j) < RunStart(r, k)
    decreases k
  {
    if j < k {
      RunStartGrows(r, j, k - 1);
    }
  }

  /** The modules of run `k`. */
  lemma {:induction false} ModulesOfRun(r: seq<nat>, k: nat, j: nat)
    requires k < |r| && RunStart(r, k) <= j < RunStart(r, k + 1)
    ensures |Expand(r)| == RunStart(r, |r|) >= RunStart(r, k + 1)
    ensures Expand(r)[j] == IsDark(k)
    decreases |r|
  {
    hide IsDark;
    ExpandSize(r);
    RunStartGrows(r, k + 1, |r|);
    var m := |r| - 1;
    if k < m {
      RunStartPrefix(r, m, k);
      RunStartPrefix(r, m, k + 1);
      ModulesOfRun(r[..m], k, j);
    } else {
      ExpandSize(r[..m]);
      RunStartPrefix(r, m, m);
    }
  }

  lemma {:induction false} ExpandSize(r: seq<nat>)
    ensures |Expand(r)| == RunStart(r, |r|)
  {
    if r != [] {
      ExpandSize(r[..|r| - 1]);
      RunStartPrefix(r, |r| - 1, |r| - 1);
    }
  }

  /** The run that a module belongs to. */
  lemma {:induction false} RunOf(r: seq<nat>, j: nat, m: nat) returns (k: nat)
    requires m <= |r| && j < RunStart(r, m)
    ensures k < m && RunStart(r, k) <= j < RunStart(r, k + 1)
    decreases m
  {
    if j >= RunStart(r, m - 1) {
      k := m - 1;
    } else {
      k := RunOf(r, j, m - 1);
    }
  }

  // ----- stretches of the padded line and its runs

  /** The modules from `a` to `b` of a sequence have one color. */
  ghost predicate Uniform(s: seq<bool>, a: int, b: int, dark: bool) {
    0 <= a <= b <= |s| && forall j | a <= j < b :: s[j] == dark
  }

  lemma PaddedModule(line: seq<bool>, i: int)
    requires -|line| <= i < 2 * |line|
    ensures |Padded(line)| == 3 * |line| && Padded(line)[i + |line|] == Module(line, i)
  {
  }

  lemma StretchIsUniform(line: seq<bool>, a: int, b: int, dark: bool)
    requires -|line| <= a <= b <= 2 * |line|
    ensures Stretch(line, a, b, dark) <==> Uniform(Padded(line), a + |line|, b + |line|, dark)
  {
    hide Padded, Module;
    var p, m := Padded(line), |line|;
    forall i | -m <= i < 2 * m
      ensures |p| == 3 * m && p[i + m] == Module(line, i)
    {
      PaddedModule(line, i);
    }
    PaddedSize(line);
    if Uniform(p, a + m, b + m, dark) {
      forall i | a <= i < b
        ensures Module(line, i) == dark
      {
        assert p[i + m] == dark;
      }
    } else if Stretch(line, a, b, dark) {
      forall j | a + m <= j < b + m
        ensures p[j] == dark
      {
        assert Module(line, j - m) == dark && p[j - m + m] == dark;
      }
    }
  }

  lemma PaddedSize(line: seq<bool>)
    ensures |Padded(line)| == 3 * |line|
  {
  }

  /** A run is one stretch. */
  lemma RunUniform(r: seq<nat>, k: nat)
    requires k < |r|
    ensures Uniform(Expand(r), RunStart(r, k), RunStart(r, k + 1), IsDark(k))
  {
    hide IsDark, Expand;
    ExpandSize(r);
    RunStartGrows(r, k + 1, |r|);
    forall j: nat | RunStart(r, k) <= j < RunStart(r, k + 1)
      ensures Expand(r)[j] == IsDark(k)
    {
      ModulesOfRun(r, k, j);
    }
  }

  lemma RunStep(r: seq<nat>, k: nat)
    requires k < |r|
    ensures RunStart(r, k + 1) == RunStart(r, k) + r[k] <= |Expand(r)|
  {
    hide Expand;
    ExpandSize(r);
    RunStartGrows(r, k + 1, |r|);
  }

  /** If anything follows run `k`, it is a module of the other color. */
  lemma RunFollowed(r: seq<nat>, k: nat)
    requires IsEncoding(r) && k < |r| && RunStart(r, k + 1) < |Expand(r)|
    ensures k + 1 < |r| && Expand(r)[RunStart(r, k + 1)] == !IsDark(k)
  {
    hide Expand, RunStart, IsDark;
    ExpandSize(r);
    DarkAlternates(k);
    RunStep(r, k + 1);
    RunUniform(r, k + 1);
  }

  /** Before any run but the first is a module of the other color, if there is any module. */
  lemma RunPreceded(r: seq<nat>, k: nat)
    requires IsEncoding(r) && 0 < k < |r| && RunStart(r, k) > 0
    ensures RunStart(r, k) <= |Expand(r)| && Expand(r)[RunStart(r, k) - 1] == !IsDark(k)
  {
    hide Expand, RunStart, IsDark;
    DarkAlternates(k - 1);
    RunStep(r, k - 1);
    RunUniform(r, k - 1);
    FirstStart(r);
  }

  lemma FirstStart(r: seq<nat>)
    ensures RunStart(r, 0) == 0
  {
  }

  /** A stretch that begins where a run begins, and has its color, is no longer than the run. */
  lemma RunAtLeast(r: seq<nat>, k: nat, n: nat)
    requires IsEncoding(r) && k < |r| && Uniform(Expand(r), RunStart(r, k), RunStart(r, k) + n, IsDark(k))
    ensures r[k] >= n
  {
    hide Expand, RunStart, IsDark;
    RunStep(r, k);
    if RunStart(r, k + 1) < |Expand(r)| {
      RunFollowed(r, k);
    }
  }

  /** If a module of the other color follows, they are equally long. */
  lemma RunExactly(r: seq<nat>, k: nat, n: nat)
    requires IsEncoding(r) && k < |r| && Uniform(Expand(r), RunStart(r, k), RunStart(r, k) + n, IsDark(k))
    requires RunStart(r, k) + n < |Expand(r)| && Expand(r)[RunStart(r, k) + n] != IsDark(k)
    ensures r[k] == n && k + 1 < |r| && RunStart(r, k + 1) == RunStart(r, k) + n
  {
    hide Expand, RunStart, IsDark;
    RunAtLeast(r, k, n);
    RunStep(r, k);
    RunUniform(r, k);
    RunFollowed(r, k);
  }

  /** A stretch that ends where a run ends, and has its color, is no longer than the run. */
  lemma RunAtLeastBefore(r: seq<nat>, k: nat, n: nat)
    requires IsEncoding(r) && k < |r| && n <= RunStart(r, k + 1)
    requires Uniform(Expand(r), RunStart(r, k + 1) - n, RunStart(r, k + 1), IsDark(k))
    ensures r[k] >= n
  {
    hide Expand, RunStart, IsDark;
    RunStep(r, k);
    FirstStart(r);
    if k > 0 && RunStart(r, k) > 0 {
      RunPreceded(r, k);
    }
  }

  // ----- the runs that end patterns and the places where patterns begin

  /** Run `k`, which ends where run `next` begins. */
  lemma RunBetween(r: seq<nat>, k: nat, next: nat)
    requires k < |r| && next == k + 1
    ensures RunStart(r, next) == RunStart(r, k) + r[k]
    ensures Uniform(Expand(r), RunStart(r, k), RunStart(r, next), IsDark(k))
  {
    hide Expand, RunStart, IsDark, Uniform;
    RunStep(r, k);
    RunUniform(r, k);
  }

  lemma PartUniform(p: seq<bool>, a: int, b: int, a': int, b': int, dark: bool)
    requires Uniform(p, a, b, dark) && a <= a' <= b' <= b
    ensures Uniform(p, a', b', dark)
  {
  }

  /** The colors of the seven runs. */
  lemma SevenColors(i: nat)
    requires i >= 6
    ensures !IsDark(i) ==>
      IsDark(i - 1) && !IsDark(i - 2) && IsDark(i - 3) && !IsDark(i - 4) && IsDark(i - 5) && !IsDark(i - 6)
  {
  }

  lemma EndGivesPattern(r: seq<nat>, i: nat, wideBefore: bool, wideAfter: bool)
    requires i in FinderEnds(r, wideBefore, wideAfter)
    ensures UniformFinder(Expand(r), RunStart(r, i - 5), r[i - 1], wideBefore, wideAfter)
  {
    hide Expand, RunStart, IsDark, Uniform;
    SevenColors(i);
    RunBetween(r, i - 6, i - 5);
    RunBetween(r, i - 5, i - 4);
    RunBetween(r, i - 4, i - 3);
    RunBetween(r, i - 3, i - 2);
    RunBetween(r, i - 2, i - 1);
    RunBetween(r, i - 1, i);
    RunBetween(r, i, i + 1);
    var s, n, p := RunStart(r, i - 5), r[i - 1], Expand(r);
    PartUniform(p, RunStart(r, i - 6), s, s - Border(wideBefore, n), s, false);
    PartUniform(p, RunStart(r, i), RunStart(r, i + 1), s + 7 * n, s + 7 * n + Border(wideAfter, n), false);
  }

  /** A pattern in a sequence of modules, with its borders inside. */
  ghost predicate UniformFinder(p: seq<bool>, s: int, n: nat, wideBefore: bool, wideAfter: bool) {
    && n > 0
    && Uniform(p, s - Border(wideBefore, n), s, false)
    && Uniform(p, s, s + n, true)
    && Uniform(p, s + n, s + 2 * n, false)
    && Uniform(p, s + 2 * n, s + 5 * n, true)
    && Uniform(p, s + 5 * n, s + 6 * n, false)
    && Uniform(p, s + 6 * n, s + 7 * n, true)
    && Uniform(p, s + 7 * n, s + 7 * n + Border(wideAfter, n), false)
  }

  lemma PatternGivesEnd(r: seq<nat>, s: nat, n: nat, wideBefore: bool, wideAfter: bool) returns (i: nat)
    requires IsEncoding(r) && UniformFinder(Expand(r), s, n, wideBefore, wideAfter)
    ensures i in FinderEnds(r, wideBefore, wideAfter) && RunStart(r, i - 5) == s
  {
    hide Expand, RunStart, IsDark, Uniform;
    var p := Expand(r);
    UniformEnds(p, s - Border(wideBefore, n), s, false);
    UniformEnds(p, s, s + n, true);
    UniformEnds(p, s + n, s + 2 * n, false);
    UniformEnds(p, s + 2 * n, s + 5 * n, true);
    UniformEnds(p, s + 5 * n, s + 6 * n, false);
    UniformEnds(p, s + 6 * n, s + 7 * n, true);
    UniformEnds(p, s + 7 * n, s + 7 * n + Border(wideAfter, n), false);
    var k := DarkRunAt(r, s);
    RunExactly(r, k, n);
    DarkAlternates(k);
    RunExactly(r, k + 1, n);
    DarkAlternates(k + 1);
    RunExactly(r, k + 2, 3 * n);
    DarkAlternates(k + 2);
    RunExactly(r, k + 3, n);
    DarkAlternates(k + 3);
    RunExactly(r, k + 4, n);
    DarkAlternates(k + 4);
    RunAtLeast(r, k + 5, Border(wideAfter, n));
    DarkAlternates(k - 1);
    RunAtLeastBefore(r, k - 1, Border(wideBefore, n));
    i := k + 5;
  }

  lemma UniformEnds(p: seq<bool>, a: int, b: int, dark: bool)
    requires Uniform(p, a, b, dark) && a < b
    ensures 0 <= a < b <= |p| && p[a] == dark == p[b - 1]
  {
  }

  /** A dark module after a light one begins a run. */
  lemma DarkRunAt(r: seq<nat>, s: nat) returns (k: nat)
    requires IsEncoding(r) && 0 < s < |Expand(r)| && Expand(r)[s] && !Expand(r)[s - 1]
    ensures 0 < k < |r| && IsDark(k) && RunStart(r, k) == s
  {
    hide Expand, RunStart, IsDark;
    ExpandSize(r);
    k := RunOf(r, s, |r|);
    RunUniform(r, k);
    FirstIsLight();
  }

  lemma FirstIsLight()
    ensures !IsDark(0)
  {
  }

  lemma PatternInLine(line: seq<bool>, s: int, n: nat, wideBefore: bool, wideAfter: bool)
    requires UniformFinder(Padded(line), s + |line|, n, wideBefore, wideAfter)
    ensures 0 <= s < |line| && FinderAt(line, s, n, wideBefore, wideAfter)
  {
    hide Padded, Stretch, Module;
    PaddedSize(line);
    PaddedModule(line, s);
    LightOutside(line, s);
    StretchIsUniform(line, s - Border(wideBefore, n), s, false);
    StretchIsUniform(line, s, s + n, true);
    StretchIsUniform(line, s + n, s + 2 * n, false);
    StretchIsUniform(line, s + 2 * n, s + 5 * n, true);
    StretchIsUniform(line, s + 5 * n, s + 6 * n, false);
    StretchIsUniform(line, s + 6 * n, s + 7 * n, true);
    StretchIsUniform(line, s + 7 * n, s + 7 * n + Border(wideAfter, n), false);
  }

  lemma LightOutside(line: seq<bool>, i: int)
    ensures Module(line, i) ==> 0 <= i < |line|
  {
  }

  lemma LineToPattern(line: seq<bool>, s: int, n: nat, wideBefore: bool, wideAfter: bool)
    requires 0 <= s < |line| && FinderAt(line, s, n, wideBefore, wideAfter)
    ensures UniformFinder(Padded(line), s + |line|, n, wideBefore, wideAfter)
  {
    hide Padded, Uniform, Module;
    assert Module(line, s + 7 * n - 1);
    LightOutside(line, s + 7 * n - 1);
    StretchIsUniform(line, s - Border(wideBefore, n), s, false);
    StretchIsUniform(line, s, s + n, true);
    StretchIsUniform(line, s + n, s + 2 * n, false);
    StretchIsUniform(line, s + 2 * n, s + 5 * n, true);
    StretchIsUniform(line, s + 5 * n, s + 6 * n, false);
    StretchIsUniform(line, s + 6 * n, s + 7 * n, true);
    StretchIsUniform(line, s + 7 * n, s + 7 * n + Border(wideAfter, n), false);
  }

  /** There are as many ends among the runs as beginnings in the line. */
  lemma EndsAndStarts(line: seq<bool>, wideBefore: bool, wideAfter: bool)
    ensures |FinderEnds(Runs(Padded(line)), wideBefore, wideAfter)| == |FinderStarts(line, wideBefore, wideAfter)|
  {
    hide Padded, FinderAt, UniformFinder, RunStart, Runs, Expand, IsDark, FinderCore;
    var r, m := Runs(Padded(line)), |line|;
    RunsEncode(Padded(line));
    var ends, starts := FinderEnds(r, wideBefore, wideAfter), FinderStarts(line, wideBefore, wideAfter);
    var place := (i: int) => if 5 <= i < |r| then RunStart(r, i - 5) - m else 0;
    forall i | i in ends
      ensures place(i) in starts
    {
      EndGivesPattern(r, i, wideBefore, wideAfter);
      PatternInLine(line, place(i), r[i - 1], wideBefore, wideAfter);
    }
    forall s | s in starts
      ensures s in Image(ends, place)
    {
      var n: nat :| FinderAt(line, s, n, wideBefore, wideAfter);
      LineToPattern(line, s, n, wideBefore, wideAfter);
      var i := PatternGivesEnd(r, s + m, n, wideBefore, wideAfter);
      assert place(i) == s;
    }
    assert Image(ends, place) == starts;
    forall i, j | i in ends && j in ends && place(i) == place(j)
      ensures i == j
    {
      SameStart(r, i - 5, j - 5);
    }
    ImageSize(ends, place);
  }

  lemma SameStart(r: seq<nat>, j: nat, k: nat)
    requires IsEncoding(r) && 0 < j <= |r| && 0 < k <= |r| && RunStart(r, j) == RunStart(r, k)
    ensures j == k
  {
    if j < k {
      RunStartGrows(r, j, k);
    } else {
      RunStartGrows(r, k, j);
    }
  }

  /** The penalty of a line by positions: windows of one color, beginnings of runs of at least five, and places where a
      finder-like pattern with a wide border on one side begins; beyond its ends the line is light. */
  lemma LineScoreByPositions(line: seq<bool>)
    ensures LineScore(line)
         == |Windows(line)| + 2 * |FirstWindows(line)|
            + 40 * (|FinderStarts(line, false, true)| + |FinderStarts(line, true, false)|)
  {
    hide Runs, RunScore, FinderScore, Windows, FirstWindows, FinderStarts, FinderEnds, WideAfterEnds, WideBeforeEnds,
      Padded;
    RunScoreByPositions(line);
    var r := Runs(Padded(line));
    FinderScoreCounts(r, |r|);
    EndsAre(r);
    EndsAndStarts(line, false, true);
    EndsAndStarts(line, true, false);
  }
}
