/** The square grid of modules, packed eight to a byte after a first byte that holds the side length. */
module Grid {
  import opened Arithmetic
  import opened Bytes

  function Size(q: seq<Byte>): nat {
    if q == [] then 0 else Value(q[0])
  }

  /** The buffer holds a grid of a size that QR Codes have. */
  ghost predicate IsQrCode(q: seq<Byte>) {
    && q != []
    && 21 <= Size(q) <= 177
    && 8 * (|q| - 1) >= Size(q) * Size(q)
  }

  /** The modules, row by row; true is dark. */
  ghost function Modules(q: seq<Byte>): (g: seq<bool>)
    requires IsQrCode(q)
    ensures |g| == Size(q) * Size(q)
  {
    seq(Size(q) * Size(q), i requires 0 <= i < Size(q) * Size(q) => q[i / 8 + 1][7 - i % 8])
  }

  ghost function View(qrcode: array<Byte>): (g: seq<bool>)
    requires IsQrCode(qrcode[..])
    reads qrcode
    ensures |g| == Size(qrcode[..]) * Size(qrcode[..])
  {
    Modules(qrcode[..])
  }

  lemma IndexInGrid(n: nat, x: nat, y: nat)
    requires x < n && y < n
    ensures y * n + x < n * n
    ensures (y * n + x) / n == y && (y * n + x) % n == x
  {
    RowPlace(x, y, n, n);
  }

  /** The index of the module at (x, y). */
  function Index(n: nat, x: nat, y: nat): (i: nat)
    requires x < n && y < n
    ensures i < n * n
  {
    IndexInGrid(n, x, y);
    y * n + x
  }

  lemma IndexIs(n: nat, x: nat, y: nat)
    requires x < n && y < n
    ensures Index(n, x, y) == y * n + x
  {
  }

  lemma IndexSplit(n: nat, i: nat)
    requires i < n * n
    ensures n > 0 && i / n < n && i % n < n && i == (i / n) * n + i % n
  {
    if n > 0 {
      PlaceRow(i, n, n);
    }
  }

  method GetSize(qrcode: array<Byte>) returns (qrsize: nat)
    requires IsQrCode(qrcode[..])
    ensures qrsize == Size(qrcode[..]) && 21 <= qrsize <= 177 && qrcode.Length > 0
  {
    qrsize := Value(qrcode[0]);
  }

  lemma ModuleAt(q: seq<Byte>, index: nat)
    requires IsQrCode(q) && index < Size(q) * Size(q)
    ensures index / 8 + 1 < |q| && Modules(q)[index] == q[index / 8 + 1][7 - index % 8]
  {
  }

  method GetModuleBounded(qrcode: array<Byte>, x: nat, y: nat) returns (dark: bool)
    requires IsQrCode(qrcode[..]) && x < Size(qrcode[..]) && y < Size(qrcode[..])
    ensures dark == View(qrcode)[Index(Size(qrcode[..]), x, y)]
  {
    hide Value, Modules, IsQrCode, Index;
    var qrsize := GetSize(qrcode);
    var index := Index(qrsize, x, y);
    ModuleAt(qrcode[..], index);
    dark := qrcode[index / 8 + 1][7 - index % 8];
  }

  lemma ModulesAfterSet(q: seq<Byte>, index: nat, isDark: bool)
    requires IsQrCode(q) && index < |Modules(q)|
    ensures index / 8 + 1 < |q|
    ensures var q' := q[index / 8 + 1 := q[index / 8 + 1][7 - index % 8 := isDark]];
      IsQrCode(q') && Size(q') == Size(q) && Modules(q') == Modules(q)[index := isDark]
  {
    hide Value;
    var b := index / 8 + 1;
    var q' := q[b := q[b][7 - index % 8 := isDark]];
    forall i | 0 <= i < |Modules(q)|
      ensures Modules(q')[i] == Modules(q)[index := isDark][i]
    {
      if i / 8 == index / 8 && i % 8 == index % 8 {
        assert i == index;
      }
    }
  }

  method SetModuleBounded(qrcode: array<Byte>, x: nat, y: nat, isDark: bool)
    requires IsQrCode(qrcode[..]) && x < Size(qrcode[..]) && y < Size(qrcode[..])
    modifies qrcode
    ensures IsQrCode(qrcode[..]) && Size(qrcode[..]) == old(Size(qrcode[..]))
    ensures View(qrcode) == old(View(qrcode))[Index(Size(qrcode[..]), x, y) := isDark]
    ensures forall k | 0 <= k < qrcode.Length && k != Index(Size(qrcode[..]), x, y) / 8 + 1 ::
      qrcode[k] == old(qrcode[k])
  {
    hide Value, Modules, IsQrCode, Index;
    ghost var before := qrcode[..];
    var qrsize := GetSize(qrcode);
    var index := Index(qrsize, x, y);
    var bitIndex := index % 8;
    var byteIndex := index / 8 + 1;
    ModulesAfterSet(before, index, isDark);
    qrcode[byteIndex] := qrcode[byteIndex][7 - bitIndex := isDark];
    assert qrcode[..] == before[byteIndex := before[byteIndex][7 - bitIndex := isDark]];
  }

  /** Does nothing outside the grid. */
  method SetModuleUnbounded(qrcode: array<Byte>, x: int, y: int, isDark: bool)
    requires IsQrCode(qrcode[..])
    modifies qrcode
    ensures IsQrCode(qrcode[..]) && Size(qrcode[..]) == old(Size(qrcode[..]))
    ensures var n := Size(qrcode[..]);
      if 0 <= x < n && 0 <= y < n
      then View(qrcode) == old(View(qrcode))[Index(n, x, y) := isDark]
      else qrcode[..] == old(qrcode[..])
  {
    hide Value, Modules, IsQrCode, Index;
    var qrsize := GetSize(qrcode);
    if 0 <= x < qrsize && 0 <= y < qrsize {
      SetModuleBounded(qrcode, x, y, isDark);
    }
  }
}
