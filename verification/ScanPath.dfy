/** The path of the zigzag scan, module by module: it starts in the lower right corner, goes up and down pairs of
    columns in turn, right module first, and steps over the timing column. */
module ScanPath {
  import opened Arithmetic
  import opened Zigzag

  /** For the sizes of QR Codes, which leave remainder 1 modulo 4, the first pair of columns is read upward. */
  lemma UpwardAlternates(n: nat, p: nat)
    requires ScanSize(n) && n % 4 == 1 && p < (n - 1) / 2
    ensures Upward(RightColumn(n, p)) <==> p % 2 == 0
  {
  }

  lemma ScanStart(n: nat)
    requires ScanSize(n) && n % 4 == 1
    ensures ScanLength(n) > 1
    ensures X(n, 0) == n - 1 && Y(n, 0) == n - 1
    ensures X(n, 1) == n - 2 && Y(n, 1) == n - 1
  {
    hide RightColumn, Upward, PairAt, VertAt;
    FirstPair(n);
    StepParts(n, 0, 0, 0);
    StepParts(n, 0, 0, 1);
    UpwardAlternates(n, 0);
  }

  lemma FirstPair(n: nat)
    requires ScanSize(n)
    ensures ScanLength(n) > 1 && 0 * PairSize(n) == 0
    ensures n > 7 ==> RightColumn(n, 0) == n - 1
    ensures n % 4 == 1 ==> n > 7
  {
    MulOrder(1, (n - 1) / 2, PairSize(n));
  }

  /** The number of pairs of columns that are complete before step `t`. */
  function CompletePairs(n: nat, t: nat): int
    requires n > 0
  {
    t / (2 * n)
  }

  /** Step `t` is the last of a pair of columns. */
  predicate EndsPair(n: nat, t: nat)
    requires n > 0
  {
    (t + 1) % (2 * n) == 0
  }

  /** From the right module of a row the scan goes to the left one; from there to the next row, up in even pairs of
      columns and down in odd ones; and from the last row of a pair to the next pair in the same row. */
  lemma ScanStep(n: nat, t: nat)
    requires ScanSize(n) && n % 4 == 1 && t + 1 < ScanLength(n)
    ensures t % 2 == 0 ==> X(n, t + 1) == X(n, t) - 1 && Y(n, t + 1) == Y(n, t)
    ensures t % 2 == 1 && !EndsPair(n, t) ==>
      X(n, t + 1) == X(n, t) + 1 && Y(n, t + 1) == Y(n, t) + if CompletePairs(n, t) % 2 == 0 then -1 else 1
    ensures t % 2 == 1 && EndsPair(n, t) ==>
      X(n, t + 1) == X(n, t) - (if X(n, t) == 7 then 2 else 1) && Y(n, t + 1) == Y(n, t)
    ensures -1 <= Y(n, t + 1) - Y(n, t) <= 1 && -2 <= X(n, t + 1) - X(n, t) <= 1
  {
    hide X, Y, RightColumn, Upward, ScanLength, PairAt, VertAt, PairSize, CompletePairs, EndsPair;
    PairIs(n, t);
    PartsBound(n, t);
    PartsBound(n, t + 1);
    NextParts(n, t);
    Position(n, t);
    Position(n, t + 1);
    var p := PairAt(n, t);
    UpwardAlternates(n, p);
    if t % 2 == 1 && VertAt(n, t) + 1 == n {
      UpwardAlternates(n, p + 1);
      NextRightColumn(n, p);
    }
  }

  lemma PartsBound(n: nat, t: nat)
    requires n > 0 && t < ScanLength(n)
    ensures 0 <= PairAt(n, t) < (n - 1) / 2 && 0 <= VertAt(n, t) < n
  {
    ScanParts(n, t);
  }

  lemma Position(n: nat, t: nat)
    requires n > 0
    ensures X(n, t) == RightColumn(n, PairAt(n, t)) - t % 2
    ensures Y(n, t) == if Upward(RightColumn(n, PairAt(n, t))) then n - 1 - VertAt(n, t) else VertAt(n, t)
  {
  }

  lemma PairIs(n: nat, t: nat)
    requires n > 0
    ensures PairAt(n, t) == CompletePairs(n, t)
  {
  }

  /** The pair, the vertical counter and the side at the next step. */
  lemma NextParts(n: nat, t: nat)
    requires n > 0 && t + 1 < ScanLength(n)
    ensures var p, v := PairAt(n, t), VertAt(n, t);
      if t % 2 == 0 then PairAt(n, t + 1) == p && VertAt(n, t + 1) == v
      else if v + 1 < n then PairAt(n, t + 1) == p && VertAt(n, t + 1) == v + 1
      else PairAt(n, t + 1) == p + 1 && VertAt(n, t + 1) == 0
    ensures t % 2 == 1 ==> (EndsPair(n, t) <==> VertAt(n, t) + 1 == n)
  {
    hide PairAt, VertAt, ScanLength, PairSize;
    ScanParts(n, t);
    var p, v := PairAt(n, t), VertAt(n, t);
    if t % 2 == 0 {
      StepParts(n, p, v, 1);
    } else if v + 1 < n {
      StepParts(n, p, v + 1, 0);
      RowOf(n, p, v + 1);
    } else {
      NextPairStart(n, p);
      StepParts(n, p + 1, 0, 0);
      RowOf(n, p + 1, 0);
    }
  }

  lemma NextPairStart(n: nat, p: nat)
    ensures (p + 1) * PairSize(n) == p * PairSize(n) + 2 * n
  {
    MulStep(PairSize(n), p);
  }

  lemma RowOf(n: nat, p: nat, v: nat)
    requires v < n
    ensures (p * PairSize(n) + v * 2) % (2 * n) == v * 2
  {
    DivModUnique(v * 2, p, PairSize(n));
  }

  lemma NextRightColumn(n: nat, p: nat)
    requires ScanSize(n) && p + 1 < (n - 1) / 2
    ensures RightColumn(n, p + 1) == RightColumn(n, p) - if RightColumn(n, p) == 8 then 3 else 2
  {
  }
}
