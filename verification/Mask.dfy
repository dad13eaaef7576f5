/** Data masking and the format modules. */
module Mask {
  import opened Arithmetic
  import opened Bytes
  import opened Grid

  /** Whether mask pattern `mask` inverts the module at (x, y). */
  function Inverts(mask: nat, x: nat, y: nat): bool
    requires mask < 8
  {
    match mask
    case 0 => (x + y) % 2 == 0
    case 1 => y % 2 == 0
    case 2 => x % 3 == 0
    case 3 => (x + y) % 3 == 0
    case 4 => (x / 3 + y / 2) % 2 == 0
    case 5 => x * y % 2 + x * y % 3 == 0
    case 6 => (x * y % 2 + x * y % 3) % 2 == 0
    case _ => ((x + y) % 2 + x * y % 3) % 2 == 0
  }

  /** Whether the mask pattern inverts the module at index `i` of the grid. */
  function InvertsAt(mask: nat, n: nat, i: int): bool
    requires mask < 8 && 0 <= i < n * n
  {
    IndexSplit(n, i);
    Inverts(mask, i % n, i / n)
  }

  /** The grid with the modules that are not function modules masked. */
  function Masked(function_: seq<bool>, g: seq<bool>, n: nat, mask: nat): (r: seq<bool>)
    requires |function_| == |g| == n * n && mask < 8
    ensures |r| == |g|
  {
    seq(|g|, i requires 0 <= i < |g| => if function_[i] then g[i] else g[i] != InvertsAt(mask, n, i))
  }

  /** Masking twice with the same pattern changes nothing. */
  lemma MaskInvolution(function_: seq<bool>, g: seq<bool>, n: nat, mask: nat)
    requires |function_| == |g| == n * n && mask < 8
    ensures Masked(function_, Masked(function_, g, n, mask), n, mask) == g
  {
  }

  /** The number of format modules: two copies of 15 bits and one module that is always dark. */
  const FORMAT_MODULES := 31

  /** The position of the `k`th format module, in drawing order. */
  function FormatX(n: int, k: nat): int {
    if k <= 7 then 8 else if k == 8 then 7 else if k < 15 then 14 - k
    else if k < 23 then n - 1 - (k - 15) else 8
  }

  function FormatY(n: int, k: nat): int {
    if k <= 5 then k else if k == 6 then 7 else if k < 23 then 8
    else if k < 30 then n - 15 + (k - 15) else n - 8
  }

  /** The drawing order of the module at (x, y), or 31 when it is not a format module. */
  function FormatOrder(n: int, x: int, y: int): (k: nat)
    ensures k <= FORMAT_MODULES
  {
    if x == 8 && 0 <= y <= 5 then y
    else if x == 8 && y == 7 then 6
    else if x == 8 && y == 8 then 7
    else if x == 7 && y == 8 then 8
    else if 0 <= x <= 5 && y == 8 then 14 - x
    else if n - 8 <= x < n && y == 8 then n - 1 - x + 15
    else if x == 8 && n - 7 <= y < n then y - n + 30
    else if x == 8 && y == n - 8 then 30
    else FORMAT_MODULES
  }

  /** The color of the `k`th format module; the word holds bit 0 first. */
  function FormatBit(word: seq<bool>, k: nat): bool
    requires |word| == 15 && k < FORMAT_MODULES
  {
    if k < 15 then word[k] else if k < 30 then word[k - 15] else true
  }

  lemma FormatPositions(n: nat, k: nat)
    requires n >= 21 && k < FORMAT_MODULES
    ensures 0 <= FormatX(n, k) < n && 0 <= FormatY(n, k) < n
    ensures FormatOrder(n, FormatX(n, k), FormatY(n, k)) == k
  {
  }

  lemma FormatOrderPosition(n: nat, x: nat, y: nat)
    requires n >= 21 && x < n && y < n && FormatOrder(n, x, y) < FORMAT_MODULES
    ensures FormatX(n, FormatOrder(n, x, y)) == x && FormatY(n, FormatOrder(n, x, y)) == y
  {
  }

  /** The drawing order of the module at index `i` of the grid. */
  function OrderAt(n: nat, i: int): (k: nat)
    requires 0 <= i < n * n
    ensures k <= FORMAT_MODULES
  {
    IndexSplit(n, i);
    FormatOrder(n, i % n, i / n)
  }

  /** The grid after the first `k` format modules have been drawn. */
  function FormatDrawn(g: seq<bool>, n: nat, word: seq<bool>, k: nat): (r: seq<bool>)
    requires |g| == n * n && |word| == 15 && k <= FORMAT_MODULES
    ensures |r| == |g|
  {
    seq(|g|, i requires 0 <= i < |g| =>
      if OrderAt(n, i) < k then FormatBit(word, OrderAt(n, i)) else g[i])
  }

  /** The grid with all format modules drawn. */
  function WithFormat(g: seq<bool>, n: nat, word: seq<bool>): (r: seq<bool>)
    requires |g| == n * n && |word| == 15
    ensures |r| == |g|
  {
    FormatDrawn(g, n, word, FORMAT_MODULES)
  }

  /** Every format module is a function module. */
  ghost predicate CoversFormat(function_: seq<bool>, n: nat)
    requires |function_| == n * n
  {
    forall i | 0 <= i < n * n && OrderAt(n, i) < FORMAT_MODULES :: function_[i]
  }

  /** Masking does not touch format modules, so the two can be done in either order. */
  lemma MaskCommutesWithFormat(function_: seq<bool>, g: seq<bool>, n: nat, mask: nat, word: seq<bool>)
    requires |function_| == |g| == n * n && mask < 8 && |word| == 15 && CoversFormat(function_, n)
    ensures Masked(function_, WithFormat(g, n, word), n, mask) == WithFormat(Masked(function_, g, n, mask), n, word)
  {
    hide Inverts, OrderAt;
  }

  /** Drawing format bits replaces whatever format bits were there. */
  lemma FormatOverwrites(g: seq<bool>, n: nat, word: seq<bool>, word': seq<bool>)
    requires |g| == n * n && |word| == |word'| == 15
    ensures WithFormat(WithFormat(g, n, word), n, word') == WithFormat(g, n, word')
  {
    hide OrderAt;
  }

  // ----- the C functions

  lemma DrawNext(g: seq<bool>, n: nat, word: seq<bool>, k: nat)
    requires n >= 21 && |g| == n * n && |word| == 15 && k < FORMAT_MODULES
    ensures 0 <= FormatX(n, k) < n && 0 <= FormatY(n, k) < n
    ensures FormatY(n, k) * n + FormatX(n, k) < n * n
    ensures FormatDrawn(g, n, word, k)[FormatY(n, k) * n + FormatX(n, k) := FormatBit(word, k)]
         == FormatDrawn(g, n, word, k + 1)
  {
    hide FormatDrawn, FormatX, FormatY, FormatBit, OrderAt;
    var at := FormatY(n, k) * n + FormatX(n, k);
    FormatPlace(n, k);
    forall i | 0 <= i < n * n && OrderAt(n, i) == k
      ensures i == at
    {
      PlaceOfOrder(n, i);
    }
    FormatUpdate(g, n, word, k, at);
  }

  /** The module drawn as number `k` is in the grid, and has that order. */
  lemma FormatPlace(n: nat, k: nat)
    requires n >= 21 && k < FORMAT_MODULES
    ensures 0 <= FormatX(n, k) < n && 0 <= FormatY(n, k) < n
    ensures FormatY(n, k) * n + FormatX(n, k) < n * n && OrderAt(n, FormatY(n, k) * n + FormatX(n, k)) == k
  {
    hide FormatX, FormatY, FormatOrder;
    FormatPositions(n, k);
    IndexInGrid(n, FormatX(n, k), FormatY(n, k));
  }

  /** No other module of the grid has that order. */
  lemma PlaceOfOrder(n: nat, i: int)
    requires n >= 21 && 0 <= i < n * n && OrderAt(n, i) < FORMAT_MODULES
    ensures i == FormatY(n, OrderAt(n, i)) * n + FormatX(n, OrderAt(n, i))
  {
    hide FormatX, FormatY, FormatOrder;
    IndexSplit(n, i);
    FormatOrderPosition(n, i % n, i / n);
  }

  /** Setting the one module of order `k` gives the next grid. */
  lemma FormatUpdate(g: seq<bool>, n: nat, word: seq<bool>, k: nat, at: nat)
    requires |g| == n * n && |word| == 15 && k < FORMAT_MODULES && at < n * n && OrderAt(n, at) == k
    requires forall i | 0 <= i < n * n && OrderAt(n, i) == k :: i == at
    ensures FormatDrawn(g, n, word, k)[at := FormatBit(word, k)] == FormatDrawn(g, n, word, k + 1)
  {
    hide OrderAt, FormatBit;
  }

  method DrawFirstCopy(qrcode: array<Byte>, word: seq<bool>, ghost g: seq<bool>)
    requires IsQrCode(qrcode[..]) && |word| == 15 && g == View(qrcode)
    modifies qrcode
    ensures IsQrCode(qrcode[..]) && Size(qrcode[..]) == old(Size(qrcode[..]))
    ensures View(qrcode) == FormatDrawn(g, Size(qrcode[..]), word, 15)
  {
    hide Value, View, Size, IsQrCode, FormatDrawn;
    var n := GetSize(qrcode);
    FormatNothing(g, n, word);
    for i := 0 to 6
      invariant IsQrCode(qrcode[..]) && Size(qrcode[..]) == n
      invariant View(qrcode) == FormatDrawn(g, n, word, i)
    {
      DrawNext(g, n, word, i);
      SetModuleBounded(qrcode, 8, i, word[i]);
    }
    DrawNext(g, n, word, 6);
    SetModuleBounded(qrcode, 8, 7, word[6]);
    DrawNext(g, n, word, 7);
    SetModuleBounded(qrcode, 8, 8, word[7]);
    DrawNext(g, n, word, 8);
    SetModuleBounded(qrcode, 7, 8, word[8]);
    for i := 9 to 15
      invariant IsQrCode(qrcode[..]) && Size(qrcode[..]) == n
      invariant View(qrcode) == FormatDrawn(g, n, word, i)
    {
      DrawNext(g, n, word, i);
      SetModuleBounded(qrcode, 14 - i, 8, word[i]);
    }
  }

  method DrawFormatBits(qrcode: array<Byte>, word: seq<bool>)
    requires IsQrCode(qrcode[..]) && |word| == 15
    modifies qrcode
    ensures IsQrCode(qrcode[..]) && Size(qrcode[..]) == old(Size(qrcode[..]))
    ensures View(qrcode) == WithFormat(old(View(qrcode)), Size(qrcode[..]), word)
  {
    hide Value, View, Size, IsQrCode, FormatDrawn;
    ghost var g := View(qrcode);
    DrawFirstCopy(qrcode, word, g);
    var n := GetSize(qrcode);
    // second copy
    for i := 0 to 8
      invariant IsQrCode(qrcode[..]) && Size(qrcode[..]) == n
      invariant View(qrcode) == FormatDrawn(g, n, word, 15 + i)
    {
      DrawNext(g, n, word, 15 + i);
      SetModuleBounded(qrcode, n - 1 - i, 8, word[i]);
    }
    for i := 8 to 15
      invariant IsQrCode(qrcode[..]) && Size(qrcode[..]) == n
      invariant View(qrcode) == FormatDrawn(g, n, word, 15 + i)
    {
      DrawNext(g, n, word, 15 + i);
      SetModuleBounded(qrcode, 8, n - 15 + i, word[i]);
    }
    DrawNext(g, n, word, 30);
    SetModuleBounded(qrcode, 8, n - 8, true);
  }

  lemma FormatNothing(g: seq<bool>, n: nat, word: seq<bool>)
    requires |g| == n * n && |word| == 15
    ensures FormatDrawn(g, n, word, 0) == g
  {
  }

  /** The grid with only the first `k` modules masked. */
  function MaskedUpTo(function_: seq<bool>, g: seq<bool>, n: nat, mask: nat, k: nat): (r: seq<bool>)
    requires |function_| == |g| == n * n && mask < 8 && k <= n * n
    ensures |r| == |g|
  {
    Masked(function_, g, n, mask)[..k] + g[k..]
  }

  lemma MaskNext(function_: seq<bool>, g: seq<bool>, n: nat, mask: nat, x: nat, y: nat)
    requires |function_| == |g| == n * n && mask < 8 && x < n && y < n
    ensures var k := y * n + x;
      k < n * n && MaskedUpTo(function_, g, n, mask, k)[k] == g[k] &&
      MaskedUpTo(function_, g, n, mask, k + 1)
      == MaskedUpTo(function_, g, n, mask, k)[k := if function_[k] then g[k] else g[k] != Inverts(mask, x, y)]
  {
    hide Inverts;
    IndexInGrid(n, x, y);
    var k := y * n + x;
    assert Masked(function_, g, n, mask)[k] == if function_[k] then g[k] else g[k] != Inverts(mask, x, y);
  }

  method ApplyMask(functionModules: array<Byte>, qrcode: array<Byte>, mask: nat)
    requires functionModules != qrcode && mask < 8
    requires IsQrCode(functionModules[..]) && IsQrCode(qrcode[..])
    requires Size(functionModules[..]) == Size(qrcode[..])
    modifies qrcode
    ensures IsQrCode(qrcode[..]) && Size(qrcode[..]) == old(Size(qrcode[..]))
    ensures View(qrcode) == Masked(View(functionModules), old(View(qrcode)), Size(qrcode[..]), mask)
  {
    hide Value, View, Size, IsQrCode, MaskedUpTo, Masked, Inverts, Index;
    var n := GetSize(qrcode);
    ghost var function_, g := View(functionModules), View(qrcode);
    MaskEnds(function_, g, n, mask);
    for y := 0 to n
      invariant IsQrCode(qrcode[..]) && Size(qrcode[..]) == n
      invariant y * n <= n * n
      invariant View(qrcode) == MaskedUpTo(function_, g, n, mask, y * n)
    {
      for x := 0 to n
        invariant IsQrCode(qrcode[..]) && Size(qrcode[..]) == n
        invariant y * n + x <= n * n
        invariant View(qrcode) == MaskedUpTo(function_, g, n, mask, y * n + x)
      {
        IndexIs(n, x, y);
        MaskNext(function_, g, n, mask, x, y);
        var isFunction := GetModuleBounded(functionModules, x, y);
        if !isFunction {
          var invert := Inverts(mask, x, y);
          var val := GetModuleBounded(qrcode, x, y);
          SetModuleBounded(qrcode, x, y, val != invert);
        }
      }
      MulStep(n, y);
    }
  }

  lemma MaskEnds(function_: seq<bool>, g: seq<bool>, n: nat, mask: nat)
    requires |function_| == |g| == n * n && mask < 8
    ensures MaskedUpTo(function_, g, n, mask, 0) == g
    ensures MaskedUpTo(function_, g, n, mask, n * n) == Masked(function_, g, n, mask)
  {
  }
}
