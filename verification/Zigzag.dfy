/** Placing the codewords on the grid along the zigzag scan.  The scan visits every module outside the
    vertical timing column exactly once, so testing whether a module is dark while drawing never mistakes a
    drawn bit for a function module, and reading along the scan gives the data back. */
module Zigzag {
  import opened Arithmetic
  import opened Bytes
  import opened Grid

  /** The column of the vertical timing pattern, which the scan skips. */
  const TIMING_COLUMN := 6

  /** The right column of pair number `p`, from the right edge of the grid. */
  function RightColumn(n: nat, p: int): int {
    if n - 1 - 2 * p > TIMING_COLUMN then n - 1 - 2 * p else n - 2 - 2 * p
  }

  function Upward(right: int): bool {
    (right + 1) / 2 % 2 == 0
  }

  /** The number of modules in a pair of columns. */
  function PairSize(n: nat): nat {
    2 * n
  }

  /** The pair of columns and the vertical counter at step `t`. */
  function PairAt(n: nat, t: nat): int
    requires n > 0
  {
    t / PairSize(n)
  }

  function VertAt(n: nat, t: nat): int
    requires n > 0
  {
    RowRest(n, t) / 2
  }

  function X(n: nat, t: nat): int
    requires n > 0
  {
    RightColumn(n, PairAt(n, t)) - t % 2
  }

  function Y(n: nat, t: nat): int
    requires n > 0
  {
    if Upward(RightColumn(n, PairAt(n, t))) then n - 1 - VertAt(n, t) else VertAt(n, t)
  }

  /** The number of modules the scan visits. */
  function ScanLength(n: nat): nat {
    if n == 0 then 0 else (n - 1) / 2 * PairSize(n)
  }

  /** The pair a column belongs to, and the side of the pair it is on. */
  function Pair(n: nat, x: int): int {
    (if x > TIMING_COLUMN then n - 1 - x else n - 2 - x) / 2
  }

  function Side(n: nat, x: int): int {
    (if x > TIMING_COLUMN then n - 1 - x else n - 2 - x) % 2
  }

  /** The step at which the scan visits a module. */
  function Time(n: nat, x: int, y: int): int {
    var vert := if Upward(RightColumn(n, Pair(n, x))) then n - 1 - y else y;
    Pair(n, x) * PairSize(n) + vert * 2 + Side(n, x)
  }

  ghost predicate ScanSize(n: nat) {
    n % 2 == 1 && n > TIMING_COLUMN
  }

  lemma ColumnsOfPair(n: nat, p: nat, j: nat)
    requires ScanSize(n) && p < (n - 1) / 2 && j < 2
    ensures var x := RightColumn(n, p) - j;
      0 <= x < n && x != TIMING_COLUMN && Pair(n, x) == p && Side(n, x) == j
  {
  }

  lemma PairOfColumn(n: nat, x: nat)
    requires ScanSize(n) && x < n && x != TIMING_COLUMN
    ensures 0 <= Pair(n, x) < (n - 1) / 2 && 0 <= Side(n, x) < 2
    ensures RightColumn(n, Pair(n, x)) - Side(n, x) == x
  {
  }

  lemma StepParts(n: nat, p: nat, vert: nat, j: nat)
    requires vert < n && j < 2
    ensures var t := p * PairSize(n) + vert * 2 + j;
      PairAt(n, t) == p && VertAt(n, t) == vert && t % 2 == j
  {
    DivModUnique(vert * 2 + j, p, PairSize(n));
    EvenRow(p, n, vert * 2 + j);
  }

  function RowRest(n: nat, t: nat): int
    requires n > 0
  {
    t % PairSize(n)
  }

  lemma PairSizePositive(n: nat)
    ensures n > 0 ==> PairSize(n) > 0
  {
  }

  lemma ScanRow(n: nat, t: nat)
    requires n > 0 && t < ScanLength(n)
    ensures 0 <= PairAt(n, t) < (n - 1) / 2 && 0 <= RowRest(n, t) < PairSize(n)
    ensures t == PairAt(n, t) * PairSize(n) + RowRest(n, t)
  {
    PairSizePositive(n);
    hide PairSize;
    PlaceRow(t, PairSize(n), (n - 1) / 2);
  }

  lemma ScanParts(n: nat, t: nat)
    requires n > 0 && t < ScanLength(n)
    ensures 0 <= PairAt(n, t) < (n - 1) / 2 && 0 <= VertAt(n, t) < n
    ensures t == PairAt(n, t) * PairSize(n) + VertAt(n, t) * 2 + t % 2
  {
    hide PairAt, RowRest, ScanLength;
    ScanRow(n, t);
    HalfRow(PairAt(n, t), n, RowRest(n, t));
  }

  lemma HalfRow(p: nat, n: nat, r: nat)
    requires r < 2 * n
    ensures r / 2 < n && r == r / 2 * 2 + (p * PairSize(n) + r) % 2
  {
    EvenRow(p, n, r);
  }

  lemma EvenRow(p: nat, n: nat, r: nat)
    ensures (p * PairSize(n) + r) % 2 == r % 2
  {
    assert p * PairSize(n) == 2 * (p * n);
  }

  /** Every step of the scan visits a module of the grid outside the timing column, each at its own time. */
  lemma VisitInGrid(n: nat, t: nat)
    requires ScanSize(n) && t < ScanLength(n)
    ensures 0 <= X(n, t) < n && 0 <= Y(n, t) < n && X(n, t) != TIMING_COLUMN
    ensures Time(n, X(n, t), Y(n, t)) == t
    ensures 0 <= Y(n, t) * n + X(n, t) < n * n
  {
    hide RightColumn, Upward, Pair, Side, ScanLength, PairAt, VertAt, Time;
    ScanParts(n, t);
    var p, vert, j := PairAt(n, t), VertAt(n, t), t % 2;
    ColumnsOfPair(n, p, j);
    TimeOf(n, p, vert, j);
    IndexInGrid(n, X(n, t), Y(n, t));
  }

  lemma TimeOf(n: nat, p: nat, vert: nat, j: nat)
    requires ScanSize(n) && p < (n - 1) / 2 && vert < n && j < 2
    ensures var x, up := RightColumn(n, p) - j, Upward(RightColumn(n, p));
      Time(n, x, if up then n - 1 - vert else vert) == p * PairSize(n) + vert * 2 + j
  {
    hide RightColumn, Upward, Pair, Side;
    ColumnsOfPair(n, p, j);
  }

  /** Every module outside the timing column is visited. */
  lemma ModuleVisited(n: nat, x: nat, y: nat)
    requires ScanSize(n) && x < n && y < n && x != TIMING_COLUMN
    ensures 0 <= Time(n, x, y) < ScanLength(n)
    ensures X(n, Time(n, x, y)) == x && Y(n, Time(n, x, y)) == y
  {
    hide RightColumn, Upward, Pair, Side, PairAt, VertAt;
    PairOfColumn(n, x);
    var p, j := Pair(n, x), Side(n, x);
    var vert := if Upward(RightColumn(n, p)) then n - 1 - y else y;
    StepParts(n, p, vert, j);
    RowPlace(vert * 2 + j, p, PairSize(n), (n - 1) / 2);
  }

  /** The index in the grid of the module visited at step `t`. */
  function Visit(n: nat, t: nat): (i: int)
    requires ScanSize(n) && t < ScanLength(n)
    ensures 0 <= i < n * n
  {
    VisitInGrid(n, t);
    Y(n, t) * n + X(n, t)
  }

  lemma VisitsDistinct(n: nat, t: nat, u: nat)
    requires ScanSize(n) && t < ScanLength(n) && u < ScanLength(n) && Visit(n, t) == Visit(n, u)
    ensures t == u
  {
    VisitInGrid(n, t);
    VisitInGrid(n, u);
    IndexInGrid(n, X(n, t), Y(n, t));
    IndexInGrid(n, X(n, u), Y(n, u));
  }

  lemma VisitCovers(n: nat, i: nat) returns (t: nat)
    requires ScanSize(n) && i < n * n && i % n != TIMING_COLUMN
    ensures t < ScanLength(n) && Visit(n, t) == i
  {
    hide X, Y, Time;
    IndexSplit(n, i);
    ModuleVisited(n, i % n, i / n);
    t := Time(n, i % n, i / n);
  }

  // ----- the free modules, in scan order

  ghost predicate InRange(cells: seq<int>, n: nat) {
    forall k | 0 <= k < |cells| :: 0 <= cells[k] < n
  }

  /** The light modules of `g` among the first `t` visited. */
  function FreeModules(g: seq<bool>, n: nat, t: nat): (free: seq<int>)
    requires ScanSize(n) && |g| == n * n && t <= ScanLength(n)
    ensures InRange(free, n * n)
    ensures forall i | i in free :: 0 <= i < n * n && !g[i]
  {
    if t == 0 then []
    else
      var i := Visit(n, t - 1);
      FreeModules(g, n, t - 1) + if g[i] then [] else [i]
  }

  lemma {:induction false} FreeModulesVisited(g: seq<bool>, n: nat, t: nat, i: int)
    requires ScanSize(n) && |g| == n * n && t <= ScanLength(n) && 0 <= i < n * n
    ensures i in FreeModules(g, n, t) <==> exists u: nat | u < t :: Visit(n, u) == i && !g[i]
  {
    hide Visit;
    if t > 0 {
      FreeModulesVisited(g, n, t - 1, i);
      if u: nat :| u < t && Visit(n, u) == i && !g[i] {
        assert u < t - 1 || u == t - 1;
      }
    }
  }

  ghost predicate DistinctIndices(s: seq<int>) {
    forall j, k | 0 <= j < k < |s| :: s[j] != s[k]
  }

  lemma {:induction false} FreeModulesDistinct(g: seq<bool>, n: nat, t: nat)
    requires ScanSize(n) && |g| == n * n && t <= ScanLength(n)
    ensures DistinctIndices(FreeModules(g, n, t))
  {
    hide Visit;
    if t > 0 {
      FreeModulesDistinct(g, n, t - 1);
      NotYetVisited(g, n, t - 1);
    }
  }

  lemma NotYetVisited(g: seq<bool>, n: nat, t: nat)
    requires ScanSize(n) && |g| == n * n && t < ScanLength(n)
    ensures Visit(n, t) !in FreeModules(g, n, t)
  {
    hide Visit;
    var i := Visit(n, t);
    FreeModulesVisited(g, n, t, i);
    if i in FreeModules(g, n, t) {
      var u: nat :| u < t && Visit(n, u) == i;
      VisitsDistinct(n, u, t);
    }
  }

  /** All free modules of the grid. */
  function Free(g: seq<bool>, n: nat): (free: seq<int>)
    requires ScanSize(n) && |g| == n * n
    ensures InRange(free, n * n)
    ensures forall i | i in free :: 0 <= i < n * n && !g[i]
  {
    FreeModules(g, n, ScanLength(n))
  }

  ghost function LightModules(g: seq<bool>): set<int> {
    set i | 0 <= i < |g| && !g[i]
  }

  /** When the timing column is dark, the free modules are all the light ones. */
  lemma FreeAreLight(g: seq<bool>, n: nat)
    requires ScanSize(n) && |g| == n * n
    requires forall i: nat | i < n * n && i % n == TIMING_COLUMN :: g[i]
    ensures |Free(g, n)| == |LightModules(g)|
    ensures forall i: nat | i < n * n :: i in Free(g, n) <==> !g[i]
  {
    hide Visit, FreeModules;
    forall i: nat | i < n * n && !g[i]
      ensures i in Free(g, n)
    {
      var t := VisitCovers(n, i);
      FreeModulesVisited(g, n, ScanLength(n), i);
    }
    FreeModulesDistinct(g, n, ScanLength(n));
    var free := Free(g, n);
    SetOfDistinct(free);
    assert LightModules(g) == set i | i in free;
  }

  lemma {:induction false} SetOfDistinct(s: seq<int>)
    requires DistinctIndices(s)
    ensures |set i | i in s| == |s|
  {
    if s == [] {
      assert (set i | i in s) == {};
    } else {
      var n := |s| - 1;
      SetOfDistinct(s[..n]);
      assert (set i | i in s) == (set i | i in s[..n]) + {s[n]};
    }
  }

  // ----- drawing and reading back

  /** The grid with the first cells overwritten by the bits. */
  function Write(g: seq<bool>, cells: seq<int>, bits: seq<bool>): (r: seq<bool>)
    requires |bits| <= |cells| && InRange(cells, |g|)
    ensures |r| == |g|
  {
    if bits == [] then g
    else
      var k := |bits| - 1;
      Write(g, cells, bits[..k])[cells[k] := bits[k]]
  }

  /** The values of the cells, in order. */
  function Read(g: seq<bool>, cells: seq<int>): (bits: seq<bool>)
    requires InRange(cells, |g|)
    ensures |bits| == |cells|
  {
    seq(|cells|, r requires 0 <= r < |cells| => g[cells[r]])
  }

  lemma {:induction false} WriteOutside(g: seq<bool>, cells: seq<int>, bits: seq<bool>, i: int)
    requires |bits| <= |cells| && InRange(cells, |g|) && 0 <= i < |g|
    requires i !in cells[..|bits|]
    ensures Write(g, cells, bits)[i] == g[i]
  {
    if bits != [] {
      WriteOutside(g, cells, bits[..|bits| - 1], i);
    }
  }

  lemma {:induction false} WriteInside(g: seq<bool>, cells: seq<int>, bits: seq<bool>, r: nat)
    requires |bits| <= |cells| && InRange(cells, |g|) && DistinctIndices(cells) && r < |bits|
    ensures Write(g, cells, bits)[cells[r]] == bits[r]
  {
    if r < |bits| - 1 {
      WriteInside(g, cells, bits[..|bits| - 1], r);
    }
  }

  lemma {:induction false} WritePrefix(g: seq<bool>, cells: seq<int>, more: seq<int>, bits: seq<bool>)
    requires |bits| <= |cells| && InRange(cells + more, |g|)
    ensures InRange(cells, |g|)
    ensures Write(g, cells + more, bits) == Write(g, cells, bits)
  {
    forall k | 0 <= k < |cells|
      ensures 0 <= cells[k] < |g|
    {
      assert (cells + more)[k] == cells[k];
    }
    if bits != [] {
      WritePrefix(g, cells, more, bits[..|bits| - 1]);
    }
  }

  /** The grid after the bits have been drawn along the scan, as far as there is room. */
  function Drawn(g: seq<bool>, n: nat, bits: seq<bool>): (r: seq<bool>)
    requires ScanSize(n) && |g| == n * n
    ensures |r| == |g|
  {
    var free := Free(g, n);
    Write(g, free, if |bits| <= |free| then bits else bits[..|free|])
  }

  /** Reading the free modules along the scan gives the data back, followed by light modules; every other
      module, dark ones in particular, is as before. */
  lemma ReadBack(g: seq<bool>, n: nat, bits: seq<bool>)
    requires ScanSize(n) && |g| == n * n && |bits| <= |Free(g, n)|
    ensures Read(Drawn(g, n, bits), Free(g, n)) == bits + seq(|Free(g, n)| - |bits|, _ => false)
    ensures forall i | 0 <= i < n * n && i !in Free(g, n) :: Drawn(g, n, bits)[i] == g[i]
    ensures forall i | 0 <= i < n * n && g[i] :: Drawn(g, n, bits)[i]
  {
    hide Write, Free;
    var free := Free(g, n);
    FreeDistinct(g, n);
    forall r | 0 <= r < |free|
      ensures Drawn(g, n, bits)[free[r]] == if r < |bits| then bits[r] else false
    {
      if r < |bits| {
        WriteInside(g, free, bits, r);
      } else {
        WriteOutside(g, free, bits, free[r]);
      }
    }
    forall i | 0 <= i < n * n && i !in free
      ensures Drawn(g, n, bits)[i] == g[i]
    {
      WriteOutside(g, free, bits, i);
    }
  }

  lemma FreeDistinct(g: seq<bool>, n: nat)
    requires ScanSize(n) && |g| == n * n
    ensures DistinctIndices(Free(g, n))
  {
    FreeModulesDistinct(g, n, ScanLength(n));
  }

  // ----- the C function

  /** After `t` steps, `i` bits have been drawn. */
  ghost predicate DrawnUpTo(g0: seq<bool>, n: nat, bits: seq<bool>, t: nat, i: nat, g: seq<bool>)
    requires ScanSize(n) && |g0| == n * n && t <= ScanLength(n)
  {
    var free := FreeModules(g0, n, t);
    && i == (if |bits| <= |free| then |bits| else |free|)
    && g == Write(g0, free, bits[..i])
  }

  /** One step of the scan: the module is dark now exactly if it was dark before drawing began. */
  lemma DrawStep(g0: seq<bool>, n: nat, bits: seq<bool>, t: nat, i: nat, g: seq<bool>)
    requires ScanSize(n) && |g0| == n * n && t < ScanLength(n)
    requires DrawnUpTo(g0, n, bits, t, i, g)
    ensures |g| == n * n && g[Visit(n, t)] == g0[Visit(n, t)]
    ensures if !g[Visit(n, t)] && i < |bits|
            then DrawnUpTo(g0, n, bits, t + 1, i + 1, g[Visit(n, t) := bits[i]])
            else DrawnUpTo(g0, n, bits, t + 1, i, g)
  {
    hide Visit;
    var free, next := FreeModules(g0, n, t), Visit(n, t);
    NotYetVisited(g0, n, t);
    WriteOutside(g0, free, bits[..i], next);
    var free' := FreeModules(g0, n, t + 1);
    WritePrefix(g0, free, free'[|free|..], bits[..i]);
    assert free' == free + free'[|free|..];
    if !g[next] && i < |bits| {
      assert bits[..i + 1][..i] == bits[..i];
    }
  }

  /** Draws the next bit at a module that is light and, if any bit is left. */
  method DrawModule(data: array<Byte>, dataLen: nat, qrcode: array<Byte>, x: nat, y: nat, i: nat) returns (i': nat)
    requires dataLen <= data.Length && data != qrcode
    requires IsQrCode(qrcode[..]) && x < Size(qrcode[..]) && y < Size(qrcode[..])
    modifies qrcode
    ensures IsQrCode(qrcode[..]) && Size(qrcode[..]) == old(Size(qrcode[..]))
    ensures var k, bits := Index(Size(qrcode[..]), x, y), DataBits(data[..dataLen]);
      if !old(View(qrcode))[k] && i < |bits|
      then i' == i + 1 && View(qrcode) == old(View(qrcode))[k := bits[i]]
      else i' == i && View(qrcode) == old(View(qrcode))
  {
    hide Value, Modules, IsQrCode, Size, Index, View;
    i' := i;
    var dark := GetModuleBounded(qrcode, x, y);
    if !dark && i < dataLen * 8 {
      SetModuleBounded(qrcode, x, y, data[i / 8][i % 8]);
      i' := i + 1;
    }
  }

  /** Returns the number of bits drawn; the C function asserts that it is all of them. */
  method DrawCodewords(data: array<Byte>, dataLen: nat, qrcode: array<Byte>) returns (i: nat)
    requires dataLen <= data.Length && data != qrcode
    requires IsQrCode(qrcode[..]) && Size(qrcode[..]) % 2 == 1
    modifies qrcode
    ensures IsQrCode(qrcode[..]) && Size(qrcode[..]) == old(Size(qrcode[..]))
    ensures View(qrcode) == Drawn(old(View(qrcode)), Size(qrcode[..]), DataBits(data[..dataLen]))
    ensures i == 8 * dataLen <==> 8 * dataLen <= |Free(old(View(qrcode)), Size(qrcode[..]))|
  {
    hide Value, View, Size, IsQrCode, DrawnUpTo, FreeModules, Visit, Write, DataBits, Drawn, Free, ScanLength;
    ghost var n := Size(qrcode[..]);
    ghost var g0, bits := View(qrcode), DataBits(data[..dataLen]);
    var qrsize := GetSize(qrcode);
    i := 0;
    ghost var p, t := 0, 0;
    DrawNothing(g0, n, bits);
    var right: int := qrsize - 1;
    while right >= 1
      invariant IsQrCode(qrcode[..]) && Size(qrcode[..]) == n
      invariant p <= (n - 1) / 2 && t == p * PairSize(n) <= ScanLength(n)
      invariant right == if n - 1 - 2 * p >= 6 then n - 1 - 2 * p else n - 2 - 2 * p
      invariant DrawnUpTo(g0, n, bits, t, i, View(qrcode))
      decreases right
    {
      if right == 6 {
        right := 5;
      }
      assert right == RightColumn(n, p);
      NextPair(n, p, right);
      for vert := 0 to qrsize
        invariant IsQrCode(qrcode[..]) && Size(qrcode[..]) == n
        invariant t == p * PairSize(n) + vert * 2 <= ScanLength(n)
        invariant DrawnUpTo(g0, n, bits, t, i, View(qrcode))
      {
        for j := 0 to 2
          invariant IsQrCode(qrcode[..]) && Size(qrcode[..]) == n
          invariant t == p * PairSize(n) + vert * 2 + j <= ScanLength(n)
          invariant DrawnUpTo(g0, n, bits, t, i, View(qrcode))
        {
          var x := right - j;
          var upward := (right + 1) / 2 % 2 == 0;
          var y := if upward then qrsize - 1 - vert else vert;
          VisitIs(n, p, vert, j);
          DrawStep(g0, n, bits, t, i, View(qrcode));
          i := DrawModule(data, dataLen, qrcode, x, y, i);
          t := t + 1;
        }
      }
      p := p + 1;
      right := right - 2;
    }
    LastPair(n, p);
    DrawAll(g0, n, bits, i, View(qrcode));
  }

  lemma LastPair(n: nat, p: nat)
    requires ScanSize(n) && p == (n - 1) / 2
    ensures p * PairSize(n) == ScanLength(n)
  {
  }

  lemma NextPair(n: nat, p: nat, right: int)
    requires ScanSize(n) && right == RightColumn(n, p) >= 1
    ensures p < (n - 1) / 2
    ensures p * PairSize(n) + n * 2 == (p + 1) * PairSize(n) <= ScanLength(n)
    ensures right - 2 == if n - 1 - 2 * (p + 1) >= 6 then n - 1 - 2 * (p + 1) else n - 2 - 2 * (p + 1)
  {
    MulOrder(p + 1, (n - 1) / 2, PairSize(n));
  }

  lemma DrawNothing(g0: seq<bool>, n: nat, bits: seq<bool>)
    requires ScanSize(n) && |g0| == n * n
    ensures DrawnUpTo(g0, n, bits, 0, 0, g0)
  {
  }

  lemma DrawAll(g0: seq<bool>, n: nat, bits: seq<bool>, i: nat, g: seq<bool>)
    requires ScanSize(n) && |g0| == n * n
    requires DrawnUpTo(g0, n, bits, ScanLength(n), i, g)
    ensures g == Drawn(g0, n, bits)
    ensures i == |bits| <==> |bits| <= |Free(g0, n)|
  {
    if i == |bits| {
      assert bits[..i] == bits;
    }
  }

  lemma VisitIs(n: nat, p: nat, vert: nat, j: nat)
    requires ScanSize(n) && p < (n - 1) / 2 && vert < n && j < 2
    ensures var t := p * PairSize(n) + vert * 2 + j;
      var right := RightColumn(n, p);
      t + 1 <= ScanLength(n) && 0 <= right - j < n
      && Visit(n, t) == Index(n, right - j, if Upward(right) then n - 1 - vert else vert)
  {
    hide RightColumn, Upward, PairAt, VertAt;
    StepParts(n, p, vert, j);
    RowPlace(vert * 2 + j, p, PairSize(n), (n - 1) / 2);
    ColumnsOfPair(n, p, j);
  }
}
