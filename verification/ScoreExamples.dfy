/** The penalty of two grids of any odd size: one color, and a checkerboard. */
module ScoreExamples {
  import opened Arithmetic
  import opened Grid
  import opened RunLengths
  import opened LinePositions
  import opened Penalty

  // ----- lines

  /** The first `m` numbers. */
  ghost function Numbers(m: nat): set<int> {
    if m == 0 then {} else Numbers(m - 1) + {m - 1}
  }

  lemma {:induction false} NumbersSize(m: nat)
    ensures |Numbers(m)| == m
    ensures forall k :: k in Numbers(m) <==> 0 <= k < m
  {
    if m > 0 {
      NumbersSize(m - 1);
    }
  }

  /** A dark module, a light one, and two neighbouring dark ones. */
  predicate Mixed(line: seq<bool>, s: int, n: nat) {
    && 0 <= s && n > 0 && s + 2 * n + 1 < |line|
    && line[s] && !line[s + n] && line[s + 2 * n] && line[s + 2 * n + 1]
  }

  /** A pattern has dark modules, and light ones among them. */
  lemma FinderHasBoth(line: seq<bool>, s: int, n: nat, wideBefore: bool, wideAfter: bool)
    requires FinderAt(line, s, n, wideBefore, wideAfter)
    ensures Mixed(line, s, n)
  {
    assert Module(line, s) && !Module(line, s + n) && Module(line, s + 2 * n) && Module(line, s + 2 * n + 1);
  }

  lemma OneColorWindows(line: seq<bool>)
    requires |line| >= 5 && forall j, k | 0 <= j < |line| && 0 <= k < |line| :: line[j] == line[k]
    ensures |Windows(line)| == |line| - 4 && FirstWindows(line) == {0}
  {
    hide Numbers;
    NumbersSize(|line| - 4);
    forall k
      ensures k in Windows(line) <==> k in Numbers(|line| - 4)
      ensures k in FirstWindows(line) <==> k == 0
    {
      if 0 < k < |line| {
        assert line[k - 1] == line[k];
      }
    }
    assert Windows(line) == Numbers(|line| - 4);
  }

  lemma OneColorLine(line: seq<bool>, dark: bool)
    requires |line| >= 5 && forall k | 0 <= k < |line| :: line[k] == dark
    ensures LineScore(line) == |line| - 2
  {
    hide LineScore, FinderAt, Windows, FirstWindows, FinderStarts;
    LineScoreByPositions(line);
    OneColorWindows(line);
    NoFinders(line);
  }

  lemma NoFinders(line: seq<bool>)
    requires forall s: int, n: nat :: !Mixed(line, s, n)
    ensures FinderStarts(line, false, true) == {} == FinderStarts(line, true, false)
  {
    hide FinderAt, Mixed;
    forall s, n: nat, wideBefore, wideAfter | FinderAt(line, s, n, wideBefore, wideAfter)
      ensures false
    {
      FinderHasBoth(line, s, n, wideBefore, wideAfter);
    }
  }

  lemma AlternatingLine(line: seq<bool>)
    requires forall k {:trigger line[k + 1]} | 0 <= k < |line| - 1 :: line[k] != line[k + 1]
    ensures LineScore(line) == 0
  {
    hide LineScore, FinderAt, FinderStarts;
    LineScoreByPositions(line);
    forall k
      ensures k !in Windows(line)
    {
      if 0 <= k < |line| - 1 {
        assert line[k] != line[k + 1];
      }
    }
    assert Windows(line) == {} == FirstWindows(line);
    forall s: int, n: nat
      ensures !Mixed(line, s, n)
    {
      if 0 <= s && s + 2 * n + 1 < |line| {
        var k := s + 2 * n;
        assert line[k] != line[k + 1];
      }
    }
    NoFinders(line);
  }

  // ----- one color

  lemma {:induction false} OneColorLines(g: seq<bool>, n: nat, dark: bool, k: nat)
    requires |g| == n * n && n >= 5 && k <= n && forall i | 0 <= i < n * n :: g[i] == dark
    ensures RowScores(g, n, k) == ColumnScores(g, n, k) == k * (n - 2)
  {
    hide LineScore;
    if k > 0 {
      OneColorLines(g, n, dark, k - 1);
      OneColorRow(g, n, dark, k - 1);
      MulStep(n - 2, k - 1);
    } else {
      MulStep(n - 2, 0);
    }
  }

  lemma OneColorRow(g: seq<bool>, n: nat, dark: bool, k: nat)
    requires |g| == n * n && n >= 5 && k < n && forall i | 0 <= i < n * n :: g[i] == dark
    ensures LineScore(Row(g, n, k)) == LineScore(Column(g, n, k)) == n - 2
  {
    hide LineScore;
    forall x | 0 <= x < n
      ensures Row(g, n, k)[x] == dark == Column(g, n, k)[x]
    {
      IndexInGrid(n, x, k);
      IndexInGrid(n, k, x);
    }
    OneColorLine(Row(g, n, k), dark);
    OneColorLine(Column(g, n, k), dark);
  }

  lemma OneColorBlock(g: seq<bool>, n: nat, dark: bool, x: nat, y: nat)
    requires |g| == n * n && x < n && y < n && forall i | 0 <= i < n * n :: g[i] == dark
    ensures 0 <= y * n + x < n * n
    ensures BlockAt(g, n, y * n + x) <==> x + 1 < n && y + 1 < n
  {
    hide BlockAt;
    IndexInGrid(n, x, y);
    BlockInside(g, n, x, y);
    if x + 1 < n && y + 1 < n {
      IndexInGrid(n, x, y + 1);
    }
  }

  lemma {:induction false} OneColorBlocks(g: seq<bool>, n: nat, dark: bool, x: nat, y: nat)
    requires |g| == n * n && n > 0 && x <= n && y < n && forall i | 0 <= i < n * n :: g[i] == dark
    ensures 0 <= y * n + x <= n * n
    ensures |BlocksBefore(g, n, y * n + x)|
         == y * (n - 1) + if y == n - 1 then 0 else if x == n then n - 1 else x
    decreases y, x
  {
    hide BlocksBefore, BlockAt;
    if x > 0 {
      OneColorBlocks(g, n, dark, x - 1, y);
      OneColorBlock(g, n, dark, x - 1, y);
      BlockStep(g, n, y * n + x - 1);
    } else if y > 0 {
      OneColorBlocks(g, n, dark, n, y - 1);
      MulStep(n, y - 1);
      MulStep(n - 1, y - 1);
    } else {
      NoBlocks(g, n);
      MulStep(n, 0);
      MulStep(n - 1, 0);
    }
  }

  lemma {:induction false} OneColorDark(g: seq<bool>, dark: bool, k: nat)
    requires k <= |g| && forall i | 0 <= i < |g| :: g[i] == dark
    ensures |DarkBefore(g, k)| == if dark then k else 0
  {
    hide DarkBefore;
    if k > 0 {
      OneColorDark(g, dark, k - 1);
      DarkStep(g, k - 1);
    } else {
      NoDark(g);
    }
  }

  lemma OneColorBalance(total: nat)
    requires total > 0
    ensures Balance(0, total) == Balance(total, total) == 9
  {
    DivModUnique(total - 1, 10, total);
  }

  /** A grid of one color: n - 2 for each of the 2n lines, 3 for each of the (n - 1)^2 blocks, 90 for the balance. */
  lemma OneColorScore(g: seq<bool>, n: nat, dark: bool)
    requires |g| == n * n && n >= 5 && forall i | 0 <= i < n * n :: g[i] == dark
    ensures Score(g, n) == 2 * (n * (n - 2)) + 3 * ((n - 1) * (n - 1)) + 90
  {
    hide RowScores, ColumnScores, BlocksBefore, DarkBefore, Balance;
    OneColorLines(g, n, dark, n);
    OneColorBlocks(g, n, dark, n, n - 1);
    MulStep(n, n - 1);
    OneColorDark(g, dark, n * n);
    SquarePositive(n);
    OneColorBalance(n * n);
  }

  lemma SquarePositive(n: nat)
    requires n >= 5
    ensures n * n >= 25
  {
    MulOrder(5, n, n);
    MulOrder(5, n, 5);
  }

  // ----- checkerboard

  ghost predicate IsCheckerboard(g: seq<bool>, n: nat) {
    |g| == n * n && n % 2 == 1 && forall i | 0 <= i < n * n :: g[i] == (i % 2 == 0)
  }

  lemma CheckerModule(g: seq<bool>, n: nat, x: nat, y: nat)
    requires IsCheckerboard(g, n) && x < n && y < n
    ensures y * n + x < n * n && g[y * n + x] == ((x + y) % 2 == 0)
  {
    hide IsCheckerboard;
    CheckerSize(g, n);
    IndexInGrid(n, x, y);
    RowParity(n, y);
    CheckerAt(g, n, y * n + x);
    SameParity(y * n, y, x);
  }

  lemma CheckerAt(g: seq<bool>, n: nat, i: nat)
    requires IsCheckerboard(g, n) && i < |g|
    ensures g[i] == (i % 2 == 0)
  {
  }

  lemma SameParity(a: nat, b: nat, x: nat)
    requires a % 2 == b % 2
    ensures (a + x) % 2 == (b + x) % 2
  {
  }

  lemma RowParity(n: nat, y: nat)
    requires n % 2 == 1
    ensures y * n % 2 == y % 2
  {
    var h := n / 2;
    assert n == 2 * h + 1;
    assert y * n == 2 * (y * h) + y;
  }

  lemma CheckerLineModule(g: seq<bool>, n: nat, x: nat, k: nat)
    requires IsCheckerboard(g, n) && x < n && k < n
    ensures Row(g, n, k)[x] == Column(g, n, k)[x] == ((x + k) % 2 == 0)
  {
    hide IsCheckerboard;
    CheckerSize(g, n);
    IndexInGrid(n, x, k);
    IndexInGrid(n, k, x);
    CheckerModule(g, n, x, k);
    CheckerModule(g, n, k, x);
  }

  lemma CheckerSize(g: seq<bool>, n: nat)
    requires IsCheckerboard(g, n)
    ensures |g| == n * n && n % 2 == 1
  {
  }

  lemma CheckerLines(g: seq<bool>, n: nat, k: nat)
    requires IsCheckerboard(g, n) && k < n
    ensures LineScore(Row(g, n, k)) == 0 == LineScore(Column(g, n, k))
  {
    hide LineScore, Row, Column, IsCheckerboard;
    CheckerSize(g, n);
    var row, column := Row(g, n, k), Column(g, n, k);
    forall x | 0 <= x < n
      ensures row[x] == column[x] == ((x + k) % 2 == 0)
    {
      CheckerLineModule(g, n, x, k);
    }
    AlternatingLine(row);
    AlternatingLine(column);
  }

  lemma {:induction false} CheckerScores(g: seq<bool>, n: nat, k: nat)
    requires IsCheckerboard(g, n) && k <= n
    ensures RowScores(g, n, k) == 0 == ColumnScores(g, n, k)
  {
    hide LineScore;
    if k > 0 {
      CheckerScores(g, n, k - 1);
      CheckerLines(g, n, k - 1);
    }
  }

  lemma {:induction false} CheckerDark(g: seq<bool>, n: nat, k: nat)
    requires IsCheckerboard(g, n) && k <= |g|
    ensures |DarkBefore(g, k)| == (k + 1) / 2
  {
    hide DarkBefore;
    if k > 0 {
      CheckerDark(g, n, k - 1);
      DarkStep(g, k - 1);
    } else {
      NoDark(g);
    }
  }

  lemma EvenBalance(total: nat)
    requires total % 2 == 1 && total >= 10
    ensures Balance((total + 1) / 2, total) == 0
  {
    DivModUnique(9, 1, total);
  }

  /** A checkerboard of odd size costs nothing. */
  lemma CheckerboardScore(g: seq<bool>, n: nat)
    requires IsCheckerboard(g, n) && n >= 5
    ensures Score(g, n) == 0
  {
    hide RowScores, ColumnScores, DarkBefore, Balance;
    CheckerScores(g, n, n);
    assert BlocksBefore(g, n, n * n) == {};
    CheckerDark(g, n, n * n);
    SquarePositive(n);
    OddTimesOdd(n);
    EvenBalance(n * n);
  }

  lemma OddTimesOdd(n: nat)
    requires n % 2 == 1
    ensures n * n % 2 == 1
  {
    var h := n / 2;
    assert n == 2 * h + 1;
    assert n * n == 2 * (2 * h * h + 2 * h) + 1;
  }
}
