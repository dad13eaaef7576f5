/** The penalty score of a grid, and the streaming scan that computes it with a run counter and the last
    seven run lengths. */
module Penalty {
  import opened Arithmetic
  import opened Bytes
  import opened Counting
  import opened Grid
  import opened RunLengths

  const PENALTY_N1 := 3
  const PENALTY_N2 := 3
  const PENALTY_N3 := 40
  const PENALTY_N4 := 10

  // ----- the run history

  /** `h` holds the last seven of the runs `r`, newest first, and zeros before them. */
  ghost predicate IsHistory(h: seq<nat>, r: seq<nat>) {
    |h| == 7 && forall k | 0 <= k < 7 :: h[k] == if k < |r| then r[|r| - 1 - k] else 0
  }

  method FinderPenaltyAddHistory(currentRunLength: nat, runHistory: array<nat>, qrsize: nat, ghost r: seq<nat>)
    requires IsHistory(runHistory[..], r) && (r != [] ==> r[|r| - 1] > 0)
    modifies runHistory
    ensures IsHistory(runHistory[..], r + [if r == [] then currentRunLength + qrsize else currentRunLength])
  {
    var run := currentRunLength;
    if runHistory[0] == 0 {
      run := run + qrsize;
    }
    ghost var h := runHistory[..];
    forall k | 1 <= k < 7 {
      runHistory[k] := runHistory[k - 1];
    }
    runHistory[0] := run;
    assert runHistory[..] == [run] + h[..6];
  }

  method FinderPenaltyCountPatterns(runHistory: array<nat>, qrsize: nat, ghost r: seq<nat>) returns (count: nat)
    requires IsHistory(runHistory[..], r) && r != [] && !IsDark(|r| - 1)
    requires runHistory[1] <= qrsize * 3
    ensures count == PatternsAt(r, |r| - 1)
  {
    var n := runHistory[1];
    var core := n > 0 && runHistory[2] == n && runHistory[3] == n * 3 && runHistory[4] == n && runHistory[5] == n;
    count := (if core && runHistory[0] >= n * 4 && runHistory[6] >= n then 1 else 0)
           + (if core && runHistory[6] >= n * 4 && runHistory[0] >= n then 1 else 0);
    assert runHistory[..][6] == runHistory[6];
    if |r| >= 7 {
      var i := |r| - 1;
      assert r[i] == runHistory[..][0] && r[i - 1] == runHistory[..][1] && r[i - 2] == runHistory[..][2]
          && r[i - 3] == runHistory[..][3] && r[i - 4] == runHistory[..][4] && r[i - 5] == runHistory[..][5]
          && r[i - 6] == runHistory[..][6];
    }
  }

  // ----- one line

  /** The runs of the line so far, with the light border before it. */
  function BorderedRuns(line: seq<bool>, n: nat): (p: seq<nat>)
    ensures |p| == |Runs(line)|
  {
    LongerFirst(Runs(line), n)
  }

  /** All but the last run have been pushed; the last is being counted. */
  ghost predicate Scanned(line: seq<bool>, n: nat, runColor: bool, run: nat, h: seq<nat>, points: nat) {
    var p, k := BorderedRuns(line, n), |Runs(line)| - 1;
    && runColor == IsDark(k)
    && run == Runs(line)[k]
    && IsHistory(h, p[..k])
    && points == RunScore(Runs(line)) + PENALTY_N3 * FinderScore(p, k)
  }

  lemma BorderedBounds(line: seq<bool>, n: nat, k: nat)
    requires |line| <= n && k < |Runs(line)|
    ensures BorderedRuns(line, n)[k] <= 2 * n
    ensures n > 0 ==> BorderedRuns(line, n)[k] > 0
  {
    hide Runs, Sum;
    RunsSum(line);
    RunAtMostSum(Runs(line), k);
    RunsEncode(line);
  }

  lemma ScanSame(line: seq<bool>, n: nat, b: bool, h: seq<nat>, points: nat)
    requires b == IsDark(|Runs(line)| - 1)
    requires Scanned(line, n, b, Runs(line)[|Runs(line)| - 1], h, points)
    ensures var run := Runs(line)[|Runs(line)| - 1];
      points >= RunPoints(run)
      && Scanned(line + [b], n, b, run + 1, h, points - RunPoints(run) + RunPoints(run + 1))
  {
    hide Runs, RunScore, FinderScore, RunPoints;
    RunsSnoc(line, b);
    var r, k := Runs(line), |Runs(line)| - 1;
    RunScoreLast(r, r[k] + 1);
    RunScoreAtLeast(r);
    var p, p' := BorderedRuns(line, n), BorderedRuns(line + [b], n);
    assert p'[..k] == p[..k];
    FinderScorePrefix(p', p, k);
  }

  lemma RunScoreAtLeast(r: seq<nat>)
    requires r != []
    ensures RunScore(r) >= RunPoints(r[|r| - 1])
  {
  }

  lemma ScanChange(line: seq<bool>, n: nat, b: bool, h: seq<nat>, points: nat)
    requires b != IsDark(|Runs(line)| - 1)
    requires IsHistory(h, BorderedRuns(line, n))
    requires points == RunScore(Runs(line)) + PENALTY_N3 * FinderScore(BorderedRuns(line, n), |Runs(line)|)
    ensures Scanned(line + [b], n, b, 1, h, points)
  {
    hide Runs, RunScore, FinderScore;
    RunsSnoc(line, b);
    var r := Runs(line);
    RunScoreLast(r, 1);
    var p, p' := BorderedRuns(line, n), BorderedRuns(line + [b], n);
    assert p'[..|r|] == p == p[..|r|];
    FinderScorePrefix(p', p, |r|);
  }

  lemma FinderScoreStep(p: seq<nat>, k: nat)
    ensures FinderScore(p, k + 1) == FinderScore(p, k) + PatternsAt(p, k)
  {
  }

  /** Takes one more module of the line. */
  method ScanModule(dark: bool, runColor: bool, run: nat, runHistory: array<nat>, qrsize: nat, points: nat,
                    ghost line: seq<bool>)
    returns (runColor': bool, run': nat, points': nat)
    requires |line| < qrsize
    requires Scanned(line, qrsize, runColor, run, runHistory[..], points)
    modifies runHistory
    ensures Scanned(line + [dark], qrsize, runColor', run', runHistory[..], points')
  {
    hide Runs, RunScore, FinderScore, PatternsAt, LongerFirst, IsDark;
    runColor', points' := runColor, points;
    ghost var p, k := BorderedRuns(line, qrsize), |Runs(line)| - 1;
    if dark == runColor {
      ScanSame(line, qrsize, dark, runHistory[..], points);
      run' := run + 1;
      if run' == 5 {
        points' := points' + PENALTY_N1;
      } else if run' > 5 {
        points' := points' + 1;
      }
    } else {
      PushedRun(line, qrsize);
      FinderPenaltyAddHistory(run, runHistory, qrsize, p[..k]);
      assert p[..k] + [p[k]] == p;
      FinderScoreStep(p, k);
      if !runColor {
        SecondRunBound(line, qrsize, runHistory[..]);
        var count := FinderPenaltyCountPatterns(runHistory, qrsize, p);
        points' := points' + count * PENALTY_N3;
      } else {
        DarkRunEndsNothing(p, k);
      }
      ScanChange(line, qrsize, dark, runHistory[..], points');
      runColor' := dark;
      run' := 1;
    }
  }

  lemma DarkRunEndsNothing(p: seq<nat>, k: nat)
    requires IsDark(k)
    ensures PatternsAt(p, k) == 0
  {
  }

  lemma PushedRun(line: seq<bool>, n: nat)
    requires |line| <= n && n > 0
    ensures var p, k := BorderedRuns(line, n), |Runs(line)| - 1;
      p[k] == (if k == 0 then Runs(line)[k] + n else Runs(line)[k]) && (k > 0 ==> p[k - 1] > 0)
  {
    hide Runs;
    if |Runs(line)| > 1 {
      BorderedBounds(line, n, |Runs(line)| - 2);
    }
  }

  lemma SecondRunBound(line: seq<bool>, n: nat, h: seq<nat>)
    requires |line| <= n && IsHistory(h, BorderedRuns(line, n))
    ensures h[1] <= n * 3
  {
    hide Runs;
    if |Runs(line)| > 1 {
      BorderedBounds(line, n, |Runs(line)| - 2);
    }
  }

  /** Ends the line and counts the patterns that its light border completes. */
  method FinderPenaltyTerminateAndCount(currentRunColor: bool, currentRunLength: nat, runHistory: array<nat>,
                                        qrsize: nat, ghost line: seq<bool>, ghost points: nat)
    returns (count: nat)
    requires |line| == qrsize > 0
    requires Scanned(line, qrsize, currentRunColor, currentRunLength, runHistory[..], points)
    modifies runHistory
    ensures points + PENALTY_N3 * count == LineScore(line)
  {
    hide Runs, RunScore, FinderScore, PatternsAt, LongerFirst, IsDark;
    ghost var p, k := BorderedRuns(line, qrsize), |Runs(line)| - 1;
    ghost var f := Runs(Padded(line));
    FinalRuns(line);
    PushedRun(line, qrsize);
    BorderedBounds(line, qrsize, k);
    var run := currentRunLength;
    if currentRunColor {
      FinderPenaltyAddHistory(run, runHistory, qrsize, p[..k]);
      assert p[..k] + [p[k]] == p;
      run := 0;
      run := run + qrsize;
      FinderPenaltyAddHistory(run, runHistory, qrsize, p);
    } else {
      run := run + qrsize;
      FinderPenaltyAddHistory(run, runHistory, qrsize, p[..k]);
      assert f == p[..k] + [p[k] + qrsize];
    }
    FinalSecondRun(line, runHistory[..]);
    FinalScore(line);
    count := FinderPenaltyCountPatterns(runHistory, qrsize, f);
  }

  lemma FinalRuns(line: seq<bool>)
    requires line != []
    ensures var p, k := BorderedRuns(line, |line|), |Runs(line)| - 1;
      Runs(Padded(line)) == if IsDark(k) then p + [|line|] else p[k := p[k] + |line|]
    ensures !IsDark(|Runs(Padded(line))| - 1)
  {
    hide Runs;
    var n := |line|;
    RunsAfterLight(n, line);
    RunsBeforeLight(Zeros(n) + line, n);
  }

  lemma FinalScore(line: seq<bool>)
    requires line != []
    ensures var p, k, f := BorderedRuns(line, |line|), |Runs(line)| - 1, Runs(Padded(line));
      LineScore(line) == RunScore(Runs(line)) + PENALTY_N3 * (FinderScore(p, k) + PatternsAt(f, |f| - 1))
  {
    hide Runs, RunScore, FinderScore, PatternsAt, LongerFirst;
    var p, k, f := BorderedRuns(line, |line|), |Runs(line)| - 1, Runs(Padded(line));
    FinalRuns(line);
    FinderScoreStep(f, |f| - 1);
    if IsDark(k) {
      assert f[..k + 1] == p[..k + 1];
      FinderScorePrefix(f, p, k + 1);
      FinderScoreStep(p, k);
      DarkRunEndsNothing(p, k);
    } else {
      assert f[..k] == p[..k];
      FinderScorePrefix(f, p, k);
    }
  }

  lemma FinalSecondRun(line: seq<bool>, h: seq<nat>)
    requires line != [] && IsHistory(h, Runs(Padded(line)))
    ensures h[1] <= |line| * 3
  {
    hide Runs, Sum;
    var f := Runs(Padded(line));
    RunsSum(Padded(line));
    if |f| > 1 {
      RunAtMostSum(f, |f| - 2);
    }
  }

  // ----- rows and columns

  function Row(g: seq<bool>, n: nat, y: nat): (line: seq<bool>)
    requires |g| == n * n && y < n
    ensures |line| == n
  {
    seq(n, x requires 0 <= x < n => (IndexInGrid(n, x, y); g[y * n + x]))
  }

  function Column(g: seq<bool>, n: nat, x: nat): (line: seq<bool>)
    requires |g| == n * n && x < n
    ensures |line| == n
  {
    seq(n, y requires 0 <= y < n => (IndexInGrid(n, x, y); g[y * n + x]))
  }

  /** The index of the module with row and column exchanged. */
  function Exchanged(n: nat, i: nat): (j: int)
    requires i < n * n
    ensures 0 <= j < n * n
  {
    IndexSplit(n, i);
    IndexInGrid(n, i / n, i % n);
    i % n * n + i / n
  }

  function Transpose(g: seq<bool>, n: nat): (t: seq<bool>)
    requires |g| == n * n
    ensures |t| == |g|
  {
    seq(n * n, i requires 0 <= i < n * n => g[Exchanged(n, i)])
  }

  /** The columns of a grid are the rows of its transpose. */
  lemma ColumnIsRowOfTranspose(g: seq<bool>, n: nat, x: nat)
    requires |g| == n * n && x < n
    ensures Column(g, n, x) == Row(Transpose(g, n), n, x)
  {
    forall y | 0 <= y < n
      ensures Column(g, n, x)[y] == Row(Transpose(g, n), n, x)[y]
    {
      IndexInGrid(n, x, y);
      TransposeAt(g, n, y, x);
    }
  }

  lemma TransposeAt(g: seq<bool>, n: nat, x: nat, y: nat)
    requires |g| == n * n && x < n && y < n
    ensures y * n + x < n * n && x * n + y < n * n
    ensures Transpose(g, n)[y * n + x] == g[x * n + y]
  {
    IndexInGrid(n, x, y);
    IndexInGrid(n, y, x);
  }

  method RowPenalty(qrcode: array<Byte>, y: nat) returns (points: nat)
    requires IsQrCode(qrcode[..]) && y < Size(qrcode[..])
    ensures points == LineScore(Row(View(qrcode), Size(qrcode[..]), y))
  {
    hide Value, View, Size, IsQrCode, Scanned, LineScore;
    var n := GetSize(qrcode);
    ghost var line := Row(View(qrcode), n, y);
    points := 0;
    var runColor, runX := false, 0;
    var runHistory := new nat[7](_ => 0);
    NothingScanned(n, runHistory[..]);
    for x := 0 to n
      invariant Scanned(line[..x], n, runColor, runX, runHistory[..], points)
    {
      var dark := GetModuleBounded(qrcode, x, y);
      assert line[..x + 1] == line[..x] + [dark];
      runColor, runX, points := ScanModule(dark, runColor, runX, runHistory, n, points, line[..x]);
    }
    assert line[..n] == line;
    var count := FinderPenaltyTerminateAndCount(runColor, runX, runHistory, n, line, points);
    points := points + count * PENALTY_N3;
  }

  method ColumnPenalty(qrcode: array<Byte>, x: nat) returns (points: nat)
    requires IsQrCode(qrcode[..]) && x < Size(qrcode[..])
    ensures points == LineScore(Column(View(qrcode), Size(qrcode[..]), x))
  {
    hide Value, View, Size, IsQrCode, Scanned, LineScore;
    var n := GetSize(qrcode);
    ghost var line := Column(View(qrcode), n, x);
    points := 0;
    var runColor, runY := false, 0;
    var runHistory := new nat[7](_ => 0);
    NothingScanned(n, runHistory[..]);
    for y := 0 to n
      invariant Scanned(line[..y], n, runColor, runY, runHistory[..], points)
    {
      var dark := GetModuleBounded(qrcode, x, y);
      assert line[..y + 1] == line[..y] + [dark];
      runColor, runY, points := ScanModule(dark, runColor, runY, runHistory, n, points, line[..y]);
    }
    assert line[..n] == line;
    var count := FinderPenaltyTerminateAndCount(runColor, runY, runHistory, n, line, points);
    points := points + count * PENALTY_N3;
  }

  lemma NothingScanned(n: nat, h: seq<nat>)
    requires |h| == 7 && forall k | 0 <= k < 7 :: h[k] == 0
    ensures Scanned([], n, false, 0, h, 0)
  {
    assert RunScore([0]) == 0 by { assert [0][..0] == []; assert RunScore([]) == 0; }
  }

  /** The penalties of the first `k` rows. */
  function RowScores(g: seq<bool>, n: nat, k: nat): nat
    requires |g| == n * n && k <= n
  {
    if k == 0 then 0 else RowScores(g, n, k - 1) + LineScore(Row(g, n, k - 1))
  }

  function ColumnScores(g: seq<bool>, n: nat, k: nat): nat
    requires |g| == n * n && k <= n
  {
    if k == 0 then 0 else ColumnScores(g, n, k - 1) + LineScore(Column(g, n, k - 1))
  }

  lemma {:induction false} ColumnPassIsRowPass(g: seq<bool>, n: nat, k: nat)
    requires |g| == n * n && k <= n
    ensures ColumnScores(g, n, k) == RowScores(Transpose(g, n), n, k)
  {
    hide LineScore;
    if k > 0 {
      ColumnPassIsRowPass(g, n, k - 1);
      ColumnIsRowOfTranspose(g, n, k - 1);
    }
  }

  // ----- blocks and balance

  /** Module `i` is the corner with the smallest coordinates of a 2*2 block of one color. */
  predicate BlockAt(g: seq<bool>, n: nat, i: int)
    requires |g| == n * n && 0 <= i < n * n
  {
    IndexSplit(n, i);
    i % n + 1 < n && i / n + 1 < n && i + n + 1 < n * n && g[i] == g[i + 1] == g[i + n] == g[i + n + 1]
  }

  ghost function BlocksBefore(g: seq<bool>, n: nat, k: nat): set<int>
    requires |g| == n * n && k <= n * n
  {
    set i | 0 <= i < k && BlockAt(g, n, i)
  }

  ghost function DarkBefore(g: seq<bool>, k: nat): set<int>
    requires k <= |g|
  {
    set i | 0 <= i < k && g[i]
  }

  lemma BlockStep(g: seq<bool>, n: nat, i: nat)
    requires |g| == n * n && i < n * n
    ensures |BlocksBefore(g, n, i + 1)| == |BlocksBefore(g, n, i)| + if BlockAt(g, n, i) then 1 else 0
  {
    hide BlockAt;
    var here: set<int> := if BlockAt(g, n, i) then {i} else {};
    assert BlocksBefore(g, n, i + 1) == BlocksBefore(g, n, i) + here;
  }

  lemma DarkStep(g: seq<bool>, i: nat)
    requires i < |g|
    ensures |DarkBefore(g, i + 1)| == |DarkBefore(g, i)| + if g[i] then 1 else 0
  {
    var here: set<int> := if g[i] then {i} else {};
    assert DarkBefore(g, i + 1) == DarkBefore(g, i) + here;
  }

  lemma BlockInside(g: seq<bool>, n: nat, x: nat, y: nat)
    requires |g| == n * n && x < n && y < n
    ensures y * n + x < n * n
    ensures x + 1 < n && y + 1 < n ==> (y + 1) * n + x + 1 < n * n
    ensures BlockAt(g, n, y * n + x)
        <==> x + 1 < n && y + 1 < n
             && g[y * n + x] == g[y * n + x + 1] == g[(y + 1) * n + x] == g[(y + 1) * n + x + 1]
    ensures Index(n, x, y) == y * n + x
    ensures x + 1 < n ==> Index(n, x + 1, y) == y * n + x + 1
    ensures y + 1 < n ==> Index(n, x, y + 1) == (y + 1) * n + x
    ensures x + 1 < n && y + 1 < n ==> Index(n, x + 1, y + 1) == (y + 1) * n + x + 1
  {
    IndexInGrid(n, x, y);
    if x + 1 < n && y + 1 < n {
      IndexInGrid(n, x + 1, y + 1);
      MulStep(n, y);
    }
  }

  /** The blocks of one pair of rows. */
  method CountBlocksOfRow(qrcode: array<Byte>, y: nat, before: nat) returns (count: nat)
    requires IsQrCode(qrcode[..]) && y + 1 < Size(qrcode[..])
    requires y * Size(qrcode[..]) <= |View(qrcode)|
    requires before == |BlocksBefore(View(qrcode), Size(qrcode[..]), y * Size(qrcode[..]))|
    ensures (y + 1) * Size(qrcode[..]) <= |View(qrcode)|
    ensures count == |BlocksBefore(View(qrcode), Size(qrcode[..]), (y + 1) * Size(qrcode[..]))|
  {
    hide Value, View, Size, IsQrCode, BlockAt, BlocksBefore, Index;
    var n := GetSize(qrcode);
    ghost var g := View(qrcode);
    count := before;
    for x := 0 to n - 1
      invariant y * n + x <= n * n && count == |BlocksBefore(g, n, y * n + x)|
    {
      BlockInside(g, n, x, y);
      BlockStep(g, n, y * n + x);
      var color := GetModuleBounded(qrcode, x, y);
      var right := GetModuleBounded(qrcode, x + 1, y);
      var below := GetModuleBounded(qrcode, x, y + 1);
      var diagonal := GetModuleBounded(qrcode, x + 1, y + 1);
      if color == right && color == below && color == diagonal {
        count := count + 1;
      }
    }
    BlockInside(g, n, n - 1, y);
    BlockStep(g, n, y * n + n - 1);
    MulStep(n, y);
  }

  method CountBlocks(qrcode: array<Byte>) returns (count: nat)
    requires IsQrCode(qrcode[..])
    ensures count == |BlocksBefore(View(qrcode), Size(qrcode[..]), |View(qrcode)|)|
  {
    hide Value, View, Size, IsQrCode, BlockAt, BlocksBefore;
    var n := GetSize(qrcode);
    ghost var g := View(qrcode);
    count := 0;
    NoBlocks(g, n);
    for y := 0 to n - 1
      invariant y * n <= n * n && count == |BlocksBefore(g, n, y * n)|
    {
      count := CountBlocksOfRow(qrcode, y, count);
    }
    LastRowNoBlocks(g, n);
  }

  lemma NoBlocks(g: seq<bool>, n: nat)
    requires |g| == n * n
    ensures |BlocksBefore(g, n, 0)| == 0
  {
    assert BlocksBefore(g, n, 0) == {};
  }

  lemma LastRowNoBlocks(g: seq<bool>, n: nat)
    requires |g| == n * n && n > 0
    ensures 0 <= (n - 1) * n <= n * n && |BlocksBefore(g, n, n * n)| == |BlocksBefore(g, n, (n - 1) * n)|
  {
    MulOrder(n - 1, n, n);
    forall i | (n - 1) * n <= i < n * n
      ensures !BlockAt(g, n, i)
    {
      IndexSplit(n, i);
      MulOrder(i / n + 1, n - 1, n);
      assert (i / n + 1) * n == i / n * n + n;
    }
    assert BlocksBefore(g, n, n * n) == BlocksBefore(g, n, (n - 1) * n);
  }

  method CountDarkModules(qrcode: array<Byte>) returns (dark: nat)
    requires IsQrCode(qrcode[..])
    ensures dark == |DarkBefore(View(qrcode), |View(qrcode)|)|
  {
    hide Value, View, Size, IsQrCode, DarkBefore;
    var n := GetSize(qrcode);
    ghost var g := View(qrcode);
    dark := 0;
    NoDark(g);
    for y := 0 to n
      invariant y * n <= n * n && dark == |DarkBefore(g, y * n)|
    {
      for x := 0 to n
        invariant y * n + x <= n * n && dark == |DarkBefore(g, y * n + x)|
      {
        IndexInGrid(n, x, y);
        DarkStep(g, y * n + x);
        var isDark := GetModuleBounded(qrcode, x, y);
        if isDark {
          dark := dark + 1;
        }
      }
      MulStep(n, y);
    }
  }

  lemma NoDark(g: seq<bool>)
    ensures |DarkBefore(g, 0)| == 0
  {
    assert DarkBefore(g, 0) == {};
  }

  function Abs(x: int): nat {
    if x < 0 then -x else x
  }

  /** The steps of 5% by which the proportion of dark modules lies outside 45% to 55%. */
  function Balance(dark: int, total: int): int
    requires total > 0
  {
    (Abs(dark * 20 - total * 10) + total - 1) / total - 1
  }

  /** (45-5k)% <= dark/total <= (55+5k)% */
  predicate WithinBalance(dark: int, total: int, k: int) {
    (45 - 5 * k) * total <= 100 * dark <= (55 + 5 * k) * total
  }

  lemma CeilingBounds(d: nat, total: nat)
    requires 0 < d <= 10 * total
    ensures var b := (d + total - 1) / total - 1;
      0 <= b <= 9 && b * total < d <= b * total + total
  {
    var c := (d + total - 1) / total;
    DivMod(d + total - 1, total);
    assert (c - 1) * total == c * total - total;
    MulOrder(11, c, total);
    MulOrder(c, 0, total);
  }

  lemma WithinBalanceIff(dark: nat, total: nat, k: nat)
    ensures WithinBalance(dark, total, k) <==> Abs(dark * 20 - total * 10) <= k * total + total
  {
    assert (45 - 5 * k) * total == 45 * total - 5 * (k * total);
    assert (55 + 5 * k) * total == 55 * total + 5 * (k * total);
  }

  /** For an odd number of modules, the balance is the least k within which the proportion lies. */
  lemma BalanceIsLeast(dark: nat, total: nat, k: nat)
    requires dark <= total && total % 2 == 1
    ensures 0 <= Balance(dark, total) <= 9
    ensures WithinBalance(dark, total, k) <==> k >= Balance(dark, total)
  {
    hide WithinBalance;
    var d, b := Abs(dark * 20 - total * 10), Balance(dark, total);
    CeilingBounds(d, total);
    WithinBalanceIff(dark, total, k);
    MulOrder(b, k, total);
    MulOrder(k, b, total);
  }

  // ----- the score

  /** The penalty of a grid. */
  ghost function Score(g: seq<bool>, n: nat): int
    requires |g| == n * n && n > 0
  {
    RowScores(g, n, n) + ColumnScores(g, n, n)
    + PENALTY_N2 * |BlocksBefore(g, n, n * n)|
    + PENALTY_N4 * Balance(|DarkBefore(g, n * n)|, n * n)
  }

  method GetPenaltyScore(qrcode: array<Byte>) returns (result: int)
    requires IsQrCode(qrcode[..])
    ensures result == Score(View(qrcode), Size(qrcode[..]))
  {
    hide Value, View, Size, IsQrCode, LineScore, BlocksBefore, DarkBefore, Balance;
    var n := GetSize(qrcode);
    result := 0;
    for y := 0 to n
      invariant result == RowScores(View(qrcode), n, y)
    {
      var points := RowPenalty(qrcode, y);
      result := result + points;
    }
    for x := 0 to n
      invariant result == RowScores(View(qrcode), n, n) + ColumnScores(View(qrcode), n, x)
    {
      var points := ColumnPenalty(qrcode, x);
      result := result + points;
    }
    var blocks := CountBlocks(qrcode);
    result := result + blocks * PENALTY_N2;
    var dark := CountDarkModules(qrcode);
    result := result + Balance(dark, n * n) * PENALTY_N4;
  }

  lemma {:induction false} LineScoresBound(g: seq<bool>, n: nat, k: nat)
    requires |g| == n * n && k <= n
    ensures 3 * RowScores(g, n, k) <= 83 * n * k && 3 * ColumnScores(g, n, k) <= 83 * n * k
  {
    hide LineScore;
    if k > 0 {
      LineScoresBound(g, n, k - 1);
      LineScoreBound(Row(g, n, k - 1));
      LineScoreBound(Column(g, n, k - 1));
      assert 83 * n * k == 83 * n * (k - 1) + 83 * n;
    }
  }

  /** The score of any odd-sized grid lies in the range that the C function asserts. */
  lemma ScoreBound(g: seq<bool>, n: nat)
    requires |g| == n * n && n % 2 == 1 && n <= 177
    ensures 0 <= Score(g, n) <= 2568888
  {
    hide RowScores, ColumnScores, Balance;
    LineScoresBound(g, n, n);
    Bounded(BlocksBefore(g, n, n * n), 0, n * n);
    Bounded(DarkBefore(g, n * n), 0, n * n);
    OddSquare(n);
    BalanceIsLeast(|DarkBefore(g, n * n)|, n * n, 0);
    assert 83 * n * n == 83 * (n * n);
  }

  lemma OddSquare(n: nat)
    requires n % 2 == 1 && n <= 177
    ensures n * n % 2 == 1 && n * n <= 177 * 177
  {
    MulOrder(n, 177, n);
    MulOrder(n, 177, 177);
    var h := n / 2;
    assert n == 2 * h + 1;
    assert n * n == 2 * (2 * h * h + 2 * h) + 1;
  }
}
