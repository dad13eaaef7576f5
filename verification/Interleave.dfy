/** Splitting data into blocks, appending error correction bytes to each and interleaving the blocks.
    The in-place routine of the encoder and the block-by-block reference of its tests both compute
    `Interleaved`, which says for every place of the output which byte of which block it holds. */
module Interleave {
  import opened Arithmetic
  import opened Bytes
  import opened Counting
  import opened Polynomials
  import opened ReedSolomon
  import opened Distance

  /** A byte of a block: one of its data bytes or one of its error correction bytes. */
  datatype Cell = Data(block: nat, index: nat) | Check(block: nat, index: nat)

  /** The shape of the blocks: their number, the error correction bytes of each and the bytes in all. */
  datatype Layout = Layout(blocks: nat, eccLen: nat, rawCodewords: nat) {

    ghost predicate Valid() {
      blocks > 0 && eccLen > 0 && rawCodewords / blocks >= eccLen
    }

    function ShortBlocks(): (m: nat)
      requires Valid()
      ensures 0 < m <= blocks
    {
      blocks - rawCodewords % blocks
    }

    function ShortDataLen(): nat
      requires Valid()
    {
      rawCodewords / blocks - eccLen
    }

    function DataLen(): (n: nat)
      requires Valid()
      ensures n + eccLen <= rawCodewords
    {
      DivMod(rawCodewords, blocks);
      MulOrder(eccLen, rawCodewords / blocks, blocks);
      MulOrder(1, blocks, eccLen);
      rawCodewords - eccLen * blocks
    }

    /** The number of data bytes of block `i`; the last blocks have one more. */
    function BlockLen(i: nat): nat
      requires Valid()
    {
      ShortDataLen() + if i < ShortBlocks() then 0 else 1
    }

    function BlockStart(i: nat): nat
      requires Valid()
    {
      i * ShortDataLen() + if i < ShortBlocks() then 0 else i - ShortBlocks()
    }

    ghost predicate IsCell(c: Cell)
      requires Valid()
    {
      c.block < blocks && c.index < if c.Data? then BlockLen(c.block) else eccLen
    }

    /** The place of a byte in the interleaved output. */
    function Place(c: Cell): int
      requires Valid()
    {
      match c
      case Data(i, j) => i + j * blocks - if j == ShortDataLen() then ShortBlocks() else 0
      case Check(i, j) => DataLen() + i + j * blocks
    }

    /** The number of data bytes that all blocks have. */
    function CommonDataLen(): nat
      requires Valid()
    {
      ShortDataLen() * blocks
    }

    function Column(k: nat): nat
      requires blocks > 0
    {
      k % blocks
    }

    function Row(k: nat): nat
      requires blocks > 0
    {
      DivMod(k, blocks);
      k / blocks
    }

    /** The byte found at a place of the interleaved output. */
    function CellAt(k: nat): Cell
      requires Valid()
    {
      if k < CommonDataLen() then Data(Column(k), Row(k))
      else if k < DataLen() then Data(ShortBlocks() + (k - CommonDataLen()), ShortDataLen())
      else Check(Column(k - DataLen()), Row(k - DataLen()))
    }
  }

  lemma LayoutSizes(l: Layout)
    requires l.Valid()
    ensures l.DataLen() == l.CommonDataLen() + (l.blocks - l.ShortBlocks())
    ensures l.DataLen() + l.eccLen * l.blocks == l.rawCodewords
    ensures l.BlockStart(0) == 0 && l.BlockStart(l.blocks) == l.DataLen()
    ensures l.blocks > 0 && 0 < l.eccLen <= l.eccLen * l.blocks
  {
    var n, q := l.blocks, l.rawCodewords / l.blocks;
    DivMod(l.rawCodewords, n);
    MulSub(q, l.eccLen, n);
    MulOrder(1, n, l.eccLen);
  }

  lemma MulSub(q: nat, e: nat, n: nat)
    requires e <= q
    ensures (q - e) * n == q * n - e * n == n * (q - e)
    ensures n * e == e * n
  {
  }

  lemma RowAndColumn(l: Layout, i: nat, j: nat, rows: nat)
    requires i < l.blocks && j < rows
    ensures i + j * l.blocks < rows * l.blocks
    ensures l.Column(i + j * l.blocks) == i && l.Row(i + j * l.blocks) == j
  {
    RowPlace(i, j, l.blocks, rows);
  }

  lemma PlaceOfRow(l: Layout, k: nat, rows: nat)
    requires l.blocks > 0 && k < rows * l.blocks
    ensures l.Column(k) < l.blocks && l.Row(k) < rows && l.Column(k) + l.Row(k) * l.blocks == k
  {
    PlaceRow(k, l.blocks, rows);
  }

  lemma PlaceOfCommon(l: Layout, i: nat, j: nat)
    requires l.Valid() && i < l.blocks && j < l.ShortDataLen()
    ensures 0 <= l.Place(Data(i, j)) < l.CommonDataLen() && l.CellAt(l.Place(Data(i, j))) == Data(i, j)
  {
    hide Layout.Column, Layout.Row, Layout.DataLen, Layout.ShortDataLen, Layout.ShortBlocks;
    RowAndColumn(l, i, j, l.ShortDataLen());
  }

  lemma PlaceOfLast(l: Layout, i: nat)
    requires l.Valid() && l.ShortBlocks() <= i < l.blocks
    ensures l.Place(Data(i, l.ShortDataLen())) == l.CommonDataLen() + i - l.ShortBlocks() < l.DataLen()
  {
    hide Layout.DataLen, Layout.ShortDataLen, Layout.ShortBlocks;
    LayoutSizes(l);
  }

  lemma PlaceOfCheck(l: Layout, i: nat, j: nat)
    requires l.Valid() && i < l.blocks && j < l.eccLen
    ensures l.DataLen() <= l.Place(Check(i, j)) < l.rawCodewords && l.CellAt(l.Place(Check(i, j))) == Check(i, j)
  {
    hide Layout.Column, Layout.Row, Layout.DataLen, Layout.ShortDataLen, Layout.ShortBlocks, Layout.CommonDataLen;
    LayoutSizes(l);
    RowAndColumn(l, i, j, l.eccLen);
  }

  /** Every byte has a place, and no two bytes share one. */
  lemma PlaceThenCell(l: Layout, c: Cell)
    requires l.Valid() && l.IsCell(c)
    ensures 0 <= l.Place(c) < l.rawCodewords
    ensures l.CellAt(l.Place(c)) == c
  {
    hide Layout.Column, Layout.Row, Layout.DataLen, Layout.ShortDataLen, Layout.ShortBlocks, Layout.CommonDataLen,
      Layout.Place;
    LayoutSizes(l);
    if c.Check? {
      PlaceOfCheck(l, c.block, c.index);
    } else if c.index < l.ShortDataLen() {
      PlaceOfCommon(l, c.block, c.index);
    } else {
      PlaceOfLast(l, c.block);
    }
  }

  /** Every place holds a byte. */
  lemma CellThenPlace(l: Layout, k: nat)
    requires l.Valid() && k < l.rawCodewords
    ensures l.IsCell(l.CellAt(k))
    ensures l.Place(l.CellAt(k)) == k
  {
    hide Layout.Column, Layout.Row, Layout.DataLen, Layout.ShortDataLen, Layout.ShortBlocks, Layout.BlockStart;
    LayoutSizes(l);
    if k < l.CommonDataLen() {
      PlaceOfRow(l, k, l.ShortDataLen());
    } else if k >= l.DataLen() {
      PlaceOfRow(l, k - l.DataLen(), l.eccLen);
    }
  }

  lemma BlockInData(l: Layout, i: nat)
    requires l.Valid() && i < l.blocks
    ensures l.BlockStart(i) + l.BlockLen(i) == l.BlockStart(i + 1) <= l.DataLen()
  {
    LayoutSizes(l);
    var s := l.ShortDataLen();
    MulOrder(i + 1, l.blocks, s);
  }

  function BlockData(l: Layout, data: Poly, i: nat): (b: Poly)
    requires l.Valid() && i < l.blocks && |data| == l.DataLen()
    ensures |b| == l.BlockLen(i)
  {
    BlockInData(l, i);
    data[l.BlockStart(i)..l.BlockStart(i) + l.BlockLen(i)]
  }

  function ByteOf(l: Layout, data: Poly, c: Cell): Byte
    requires l.Valid() && |data| == l.DataLen() && l.IsCell(c)
  {
    var block := BlockData(l, data, c.block);
    if c.Data? then block[c.index] else Ecc(block, l.eccLen)[c.index]
  }

  /** The interleaved output, place by place. */
  function Interleaved(l: Layout, data: Poly): (r: Poly)
    requires l.Valid() && |data| == l.DataLen()
    ensures |r| == l.rawCodewords
  {
    seq(l.rawCodewords, k requires 0 <= k < l.rawCodewords => (CellThenPlace(l, k); ByteOf(l, data, l.CellAt(k))))
  }

  // ----- what interleaving guarantees

  /** The byte of a block's codeword at index `c`. */
  function CodewordCell(l: Layout, i: nat, c: nat): Cell
    requires l.Valid()
  {
    if c < l.BlockLen(i) then Data(i, c) else Check(i, c - l.BlockLen(i))
  }

  /** Collecting the bytes of block `i` from the output gives back its codeword. */
  lemma Deinterleave(l: Layout, data: Poly, i: nat, c: nat)
    requires l.Valid() && |data| == l.DataLen() && i < l.blocks
    requires c < l.BlockLen(i) + l.eccLen
    ensures 0 <= l.Place(CodewordCell(l, i, c)) < l.rawCodewords
    ensures Interleaved(l, data)[l.Place(CodewordCell(l, i, c))]
         == Codeword(BlockData(l, data, i), l.eccLen)[c]
  {
    PlaceThenCell(l, CodewordCell(l, i, c));
  }

  lemma {:induction false} DifferentBlock(l: Layout, a: Poly, b: Poly, k: nat) returns (i: nat)
    requires l.Valid() && |a| == |b| == l.DataLen() && k < |a| && a[k] != b[k]
    ensures i < l.blocks && BlockData(l, a, i) != BlockData(l, b, i)
  {
    LayoutSizes(l);
    i := 0;
    while k >= l.BlockStart(i + 1)
      invariant i < l.blocks && l.BlockStart(i) <= k
      decreases l.blocks - i
    {
      i := i + 1;
      if i < l.blocks {
        BlockInData(l, i);
      }
    }
    BlockInData(l, i);
    var j := k - l.BlockStart(i);
    assert BlockData(l, a, i)[j] == a[k] && BlockData(l, b, i)[j] == b[k];
  }

  lemma CodewordPlacesDistinct(l: Layout, i: nat, c: nat, c': nat)
    requires l.Valid() && i < l.blocks
    requires c < l.BlockLen(i) + l.eccLen && c' < l.BlockLen(i) + l.eccLen
    requires l.Place(CodewordCell(l, i, c)) == l.Place(CodewordCell(l, i, c'))
    ensures c == c'
  {
    PlaceThenCell(l, CodewordCell(l, i, c));
    PlaceThenCell(l, CodewordCell(l, i, c'));
  }

  /** The output differs in at least as many places as the codewords of any one block. */
  lemma BlockDifferences(l: Layout, a: Poly, b: Poly, i: nat)
    requires l.Valid() && |a| == |b| == l.DataLen() && i < l.blocks
    ensures |Differences(Codeword(BlockData(l, a, i), l.eccLen), Codeword(BlockData(l, b, i), l.eccLen))|
         <= |Differences(Interleaved(l, a), Interleaved(l, b))|
  {
    hide Codeword, Interleaved, CodewordCell, BlockData, Layout.Place, Layout.BlockLen;
    var d := Differences(Codeword(BlockData(l, a, i), l.eccLen), Codeword(BlockData(l, b, i), l.eccLen));
    var f := (c: int) => if c < 0 then c else l.Place(CodewordCell(l, i, c));
    forall c | c in d
      ensures f(c) in Differences(Interleaved(l, a), Interleaved(l, b))
    {
      Deinterleave(l, a, i, c);
      Deinterleave(l, b, i, c);
    }
    forall c, c' | c in d && c' in d && f(c) == f(c')
      ensures c == c'
    {
      CodewordPlacesDistinct(l, i, c, c');
    }
    ImageSize(d, f);
    SubsetSize(Image(d, f), Differences(Interleaved(l, a), Interleaved(l, b)));
  }

  /** Different data give outputs that differ in more places than one block has error correction bytes. */
  lemma InterleavedDistance(l: Layout, a: Poly, b: Poly)
    requires l.Valid() && |a| == |b| == l.DataLen() && a != b
    requires l.ShortDataLen() + 1 + l.eccLen <= 255
    ensures |Differences(Interleaved(l, a), Interleaved(l, b))| > l.eccLen
  {
    hide Codeword, Interleaved;
    var k :| 0 <= k < |a| && a[k] != b[k];
    var i := DifferentBlock(l, a, b, k);
    MinimumDistance(BlockData(l, a, i), BlockData(l, b, i), l.eccLen);
    BlockDifferences(l, a, b, i);
  }

  // ----- the encoder's in-place routine

  /** The bytes written once the blocks before `i`, and some bytes of block `i`, have been copied. */
  ghost predicate Copied(c: Cell, i: nat, dataBytes: nat, checkBytes: nat) {
    c.block < i || (c.block == i && c.index < if c.Data? then dataBytes else checkBytes)
  }

  ghost predicate Filled(l: Layout, out: Poly, spec: Poly, i: nat, dataBytes: nat, checkBytes: nat)
    requires l.Valid() && l.rawCodewords <= |out| && l.rawCodewords == |spec|
  {
    forall k: nat | k < l.rawCodewords && Copied(l.CellAt(k), i, dataBytes, checkBytes) :: out[k] == spec[k]
  }

  /** Writing the next byte of a block to its place. */
  lemma FillNext(l: Layout, out: Poly, spec: Poly, c: Cell, dataBytes: nat, checkBytes: nat)
    requires l.Valid() && l.IsCell(c) && l.rawCodewords <= |out| && l.rawCodewords == |spec|
    requires Filled(l, out, spec, c.block, dataBytes, checkBytes)
    requires c.index == if c.Data? then dataBytes else checkBytes
    ensures 0 <= l.Place(c) < l.rawCodewords
    ensures var out' := out[l.Place(c) := spec[l.Place(c)]];
      if c.Data? then Filled(l, out', spec, c.block, dataBytes + 1, checkBytes)
      else Filled(l, out', spec, c.block, dataBytes, checkBytes + 1)
  {
    hide Layout.Place, Layout.CellAt;
    PlaceThenCell(l, c);
    forall k: nat | k < l.rawCodewords && l.CellAt(k) == c
      ensures k == l.Place(c)
    {
      CellThenPlace(l, k);
    }
  }

  /** After all bytes of a block, the next block is at its beginning. */
  lemma FillBlock(l: Layout, out: Poly, spec: Poly, i: nat)
    requires l.Valid() && l.rawCodewords <= |out| && l.rawCodewords == |spec|
    requires Filled(l, out, spec, i, l.BlockLen(i), l.eccLen)
    ensures Filled(l, out, spec, i + 1, 0, 0)
  {
    hide Layout.Place, Layout.CellAt;
    forall k: nat | k < l.rawCodewords
      ensures l.IsCell(l.CellAt(k))
    {
      CellThenPlace(l, k);
    }
  }

  lemma FillAll(l: Layout, out: Poly, spec: Poly)
    requires l.Valid() && l.rawCodewords <= |out| && l.rawCodewords == |spec|
    requires Filled(l, out, spec, l.blocks, 0, 0)
    ensures out[..l.rawCodewords] == spec
  {
    hide Layout.Place, Layout.CellAt;
    forall k: nat | k < l.rawCodewords
      ensures out[k] == spec[k]
    {
      CellThenPlace(l, k);
    }
  }

  lemma InterleavedAt(l: Layout, data: Poly, c: Cell)
    requires l.Valid() && |data| == l.DataLen() && l.IsCell(c)
    ensures 0 <= l.Place(c) < l.rawCodewords
    ensures Interleaved(l, data)[l.Place(c)] == ByteOf(l, data, c)
  {
    PlaceThenCell(l, c);
  }

  /** The running index of the copying loop before byte `j`. */
  function RunningPlace(l: Layout, i: nat, j: nat): int
    requires l.Valid()
  {
    i + j * l.blocks - if j > l.ShortDataLen() then l.ShortBlocks() else 0
  }

  lemma RunningPlaceSteps(l: Layout, i: nat, j: nat)
    requires l.Valid() && j <= l.ShortDataLen()
    ensures RunningPlace(l, i, 0) == i
    ensures l.Place(Data(i, j)) == RunningPlace(l, i, j) - if j == l.ShortDataLen() then l.ShortBlocks() else 0
    ensures RunningPlace(l, i, j + 1) == l.Place(Data(i, j)) + l.blocks
  {
    MulStep(l.blocks, j);
    MulStep(l.blocks, 0);
  }

  lemma DataByteAt(l: Layout, input: Poly, data: Poly, i: nat, j: nat)
    requires l.Valid() && i < l.blocks && j < l.BlockLen(i)
    requires |input| == l.DataLen() <= |data| && data[..l.DataLen()] == input
    ensures l.BlockStart(i) + j < |data| && data[l.BlockStart(i) + j] == ByteOf(l, input, Data(i, j))
  {
    hide Layout.DataLen, Layout.BlockStart, Layout.BlockLen;
    BlockInData(l, i);
    assert data[l.BlockStart(i) + j] == input[l.BlockStart(i) + j];
  }

  method CopyDataBytes(l: Layout, data: array<Byte>, dat: nat, i: nat, result: array<Byte>, ghost input: Poly)
    requires l.Valid() && i < l.blocks && |input| == l.DataLen()
    requires l.rawCodewords <= data.Length && l.rawCodewords <= result.Length && data != result
    requires dat == l.BlockStart(i) && data[..l.DataLen()] == input
    requires Filled(l, result[..], Interleaved(l, input), i, 0, 0)
    modifies result
    ensures Filled(l, result[..], Interleaved(l, input), i, l.BlockLen(i), 0)
    ensures result[l.rawCodewords..] == old(result[l.rawCodewords..])
  {
    hide Interleaved, Filled, Layout.CellAt, Layout.DataLen, Layout.Place, RunningPlace;
    BlockInData(l, i);
    RunningPlaceSteps(l, i, 0);
    var k: int := i;
    var datLen := l.BlockLen(i);
    for j := 0 to datLen
      invariant k == RunningPlace(l, i, j)
      invariant Filled(l, result[..], Interleaved(l, input), i, j, 0)
      invariant result[l.rawCodewords..] == old(result[l.rawCodewords..])
    {
      RunningPlaceSteps(l, i, j);
      if j == l.ShortDataLen() {
        k := k - l.ShortBlocks();
      }
      var c := Data(i, j);
      FillNext(l, result[..], Interleaved(l, input), c, j, 0);
      InterleavedAt(l, input, c);
      DataByteAt(l, input, data[..], i, j);
      ghost var before := result[..];
      result[k] := data[dat + j];
      assert result[..] == before[k := Interleaved(l, input)[k]];
      k := k + l.blocks;
    }
  }

  lemma CheckPlaceSteps(l: Layout, i: nat, j: nat)
    requires l.Valid()
    ensures l.Place(Check(i, 0)) == l.DataLen() + i
    ensures l.Place(Check(i, j + 1)) == l.Place(Check(i, j)) + l.blocks
  {
    MulStep(l.blocks, j);
    MulStep(l.blocks, 0);
  }

  method CopyCheckBytes(l: Layout, ecc: array<Byte>, i: nat, result: array<Byte>, ghost input: Poly)
    requires l.Valid() && i < l.blocks && |input| == l.DataLen()
    requires l.rawCodewords <= ecc.Length && l.rawCodewords <= result.Length && ecc != result
    requires ecc[l.DataLen()..l.DataLen() + l.eccLen] == Ecc(BlockData(l, input, i), l.eccLen)
    requires Filled(l, result[..], Interleaved(l, input), i, l.BlockLen(i), 0)
    modifies result
    ensures Filled(l, result[..], Interleaved(l, input), i + 1, 0, 0)
    ensures result[l.rawCodewords..] == old(result[l.rawCodewords..])
  {
    hide Interleaved, Filled, Layout.CellAt, Layout.DataLen, Layout.Place, Ecc, BlockData;
    CheckPlaceSteps(l, i, 0);
    var k := l.DataLen() + i;
    for j := 0 to l.eccLen
      invariant k == l.Place(Check(i, j))
      invariant Filled(l, result[..], Interleaved(l, input), i, l.BlockLen(i), j)
      invariant result[l.rawCodewords..] == old(result[l.rawCodewords..])
    {
      var c := Check(i, j);
      CheckPlaceSteps(l, i, j);
      FillNext(l, result[..], Interleaved(l, input), c, l.BlockLen(i), j);
      InterleavedAt(l, input, c);
      assert ecc[l.DataLen() + j] == ecc[l.DataLen()..l.DataLen() + l.eccLen][j] == ByteOf(l, input, c);
      ghost var before := result[..];
      result[k] := ecc[l.DataLen() + j];
      assert result[..] == before[k := Interleaved(l, input)[k]];
      k := k + l.blocks;
    }
    FillBlock(l, result[..], Interleaved(l, input), i);
  }

  lemma BlockSlice(l: Layout, input: Poly, data: Poly, i: nat)
    requires l.Valid() && i < l.blocks && l.DataLen() <= |data| && data[..l.DataLen()] == input
    ensures l.BlockStart(i) + l.BlockLen(i) <= l.DataLen()
    ensures data[l.BlockStart(i)..l.BlockStart(i) + l.BlockLen(i)] == BlockData(l, input, i)
  {
    hide Layout.DataLen, Layout.BlockStart, Layout.BlockLen, Layout.Valid;
    BlockInData(l, i);
    var start, end := l.BlockStart(i), l.BlockStart(i) + l.BlockLen(i);
    SliceOfPrefix(data, l.DataLen(), start, end);
  }

  lemma SliceOfPrefix(s: Poly, n: nat, start: nat, end: nat)
    requires start <= end <= n <= |s|
    ensures s[..n][start..end] == s[start..end]
  {
  }

  /** `data[..DataLen]` is the input and is kept; the next `eccLen` bytes are scratch space. */
  method AddEccAndInterleave(data: array<Byte>, l: Layout, result: array<Byte>)
    requires l.Valid() && l.rawCodewords <= data.Length && l.rawCodewords <= result.Length && data != result
    modifies data, result
    ensures result[..l.rawCodewords] == Interleaved(l, old(data[..l.DataLen()]))
    ensures result[l.rawCodewords..] == old(result[l.rawCodewords..])
    ensures data[..l.DataLen()] == old(data[..l.DataLen()])
    ensures data[l.DataLen() + l.eccLen..] == old(data[l.DataLen() + l.eccLen..])
  {
    hide Interleaved, Filled, Layout.CellAt, Layout.Place, Layout.DataLen, Layout.BlockStart, Layout.BlockLen,
      Layout.ShortDataLen, Layout.ShortBlocks, Layout.Valid, Remainder, Generator, BlockData;
    LayoutSizes(l);
    var dataLen := l.DataLen();
    ghost var input := data[..dataLen];
    var rsdiv := new Byte[l.eccLen](_ => ZERO);
    ReedSolomonComputeDivisor(l.eccLen, rsdiv);
    assert rsdiv[..l.eccLen] == Generator(l.eccLen)[1..];
    NothingFilled(l, result[..], Interleaved(l, input));
    var dat := 0;
    for i := 0 to l.blocks
      invariant dat == l.BlockStart(i)
      invariant data[..dataLen] == input
      invariant data[dataLen + l.eccLen..] == old(data[dataLen + l.eccLen..])
      invariant rsdiv[..l.eccLen] == Generator(l.eccLen)[1..]
      invariant Filled(l, result[..], Interleaved(l, input), i, 0, 0)
      invariant result[l.rawCodewords..] == old(result[l.rawCodewords..])
    {
      BlockInData(l, i);
      var datLen := l.BlockLen(i);
      BlockSlice(l, input, data[..], i);
      ReedSolomonComputeRemainder(data, dat, datLen, rsdiv, l.eccLen, data, dataLen);
      CopyDataBytes(l, data, dat, i, result, input);
      CopyCheckBytes(l, data, i, result, input);
      dat := dat + datLen;
    }
    FillAll(l, result[..], Interleaved(l, input));
  }

  lemma NothingFilled(l: Layout, out: Poly, spec: Poly)
    requires l.Valid() && l.rawCodewords <= |out| && l.rawCodewords == |spec|
    ensures Filled(l, out, spec, 0, 0, 0)
  {
  }

  // ----- the reference: append error correction to whole blocks, then read them column by column

  /** A block as the reference holds it: a short block has one unused byte between its data and its checks. */
  ghost predicate IsBlock(l: Layout, data: Poly, i: nat, block: Poly)
    requires l.Valid() && i < l.blocks && |data| == l.DataLen()
  {
    && |block| == l.ShortDataLen() + 1 + l.eccLen
    && block[..l.BlockLen(i)] == BlockData(l, data, i)
    && block[l.ShortDataLen() + 1..] == Ecc(BlockData(l, data, i), l.eccLen)
  }

  /** The number of bytes read before row `i`, column `j`. */
  function Rank(l: Layout, i: nat, j: nat): int
    requires l.Valid()
  {
    if i < l.ShortDataLen() then i * l.blocks + j
    else if i == l.ShortDataLen() then i * l.blocks + if j < l.ShortBlocks() then 0 else j - l.ShortBlocks()
    else l.DataLen() + (i - l.ShortDataLen() - 1) * l.blocks + j
  }

  /** The byte in row `i`, column `j` of the blocks. */
  function RowCell(l: Layout, i: nat, j: nat): Cell
    requires l.Valid()
  {
    if i <= l.ShortDataLen() then Data(j, i) else Check(j, i - l.ShortDataLen() - 1)
  }

  lemma RankStep(l: Layout, i: nat, j: nat)
    requires l.Valid() && i < l.ShortDataLen() + 1 + l.eccLen && j < l.blocks
    ensures if i != l.ShortDataLen() || j >= l.ShortBlocks()
            then l.IsCell(RowCell(l, i, j)) && l.Place(RowCell(l, i, j)) == Rank(l, i, j)
                 && Rank(l, i, j + 1) == Rank(l, i, j) + 1
            else Rank(l, i, j + 1) == Rank(l, i, j)
  {
  }

  lemma RankRow(l: Layout, i: nat)
    requires l.Valid() && i < l.ShortDataLen() + 1 + l.eccLen
    ensures Rank(l, i, l.blocks) == Rank(l, i + 1, 0)
    ensures i + 1 == l.ShortDataLen() + 1 + l.eccLen ==> Rank(l, i + 1, 0) == l.rawCodewords
  {
    LayoutSizes(l);
    var s, n := l.ShortDataLen(), l.blocks;
    assert (i + 1) * n == i * n + n;
    if i > s {
      assert (i - s) * n == (i - s - 1) * n + n;
    }
  }

  method MakeBlock(l: Layout, data: array<Byte>, dat: nat, i: nat, generator: array<Byte>) returns (block: array<Byte>)
    requires l.Valid() && i < l.blocks && l.DataLen() == data.Length && dat == l.BlockStart(i)
    requires l.eccLen == generator.Length && generator[..] == Generator(l.eccLen)[1..]
    ensures fresh(block) && IsBlock(l, data[..], i, block[..])
  {
    hide Remainder, Generator, BlockData, Layout.DataLen, Layout.BlockStart, Layout.BlockLen, Layout.ShortDataLen,
      Ecc, IsBlock;
    ghost var input := data[..];
    assert input[..l.DataLen()] == input;
    BlockSlice(l, input, input, i);
    BlockRoom(l, i);
    var datLen, rest := l.BlockLen(i), l.ShortDataLen() + 1;
    block := new Byte[rest + l.eccLen](_ => ZERO);
    for j := 0 to datLen
      invariant forall m | 0 <= m < j :: block[m] == data[dat + m]
    {
      block[j] := data[dat + j];
    }
    assert generator[..l.eccLen] == generator[..];
    ReedSolomonComputeRemainder(data, dat, datLen, generator, l.eccLen, block, rest);
    assert data[dat..dat + datLen] == input[dat..dat + datLen];
    assert block[..][rest..] == block[rest..rest + l.eccLen];
    BlockMade(l, input, i, block[..]);
  }

  lemma BlockMade(l: Layout, data: Poly, i: nat, block: Poly)
    requires l.Valid() && i < l.blocks && |data| == l.DataLen() && |block| == l.ShortDataLen() + 1 + l.eccLen
    requires forall m | 0 <= m < l.BlockLen(i) :: block[m] == BlockData(l, data, i)[m]
    requires block[l.ShortDataLen() + 1..] == Remainder(BlockData(l, data, i), Generator(l.eccLen)[1..])
    ensures IsBlock(l, data, i, block)
  {
    hide Remainder, Generator, BlockData, Layout.DataLen;
  }

  lemma BlockRoom(l: Layout, i: nat)
    requires l.Valid()
    ensures l.BlockLen(i) <= l.ShortDataLen() + 1
  {
    hide Layout.ShortDataLen;
  }

  method AddEccAndInterleaveReference(data: array<Byte>, l: Layout) returns (result: array<Byte>)
    requires l.Valid() && data.Length == l.DataLen()
    ensures fresh(result) && result[..] == Interleaved(l, data[..])
  {
    hide Interleaved, Generator, Ecc, BlockData, Layout.DataLen;
    LayoutSizes(l);
    var generator := new Byte[l.eccLen](_ => ZERO);
    ReedSolomonComputeDivisor(l.eccLen, generator);
    assert generator[..] == generator[..l.eccLen];
    var blocks: seq<Poly> := [];
    var k := 0;
    for i := 0 to l.blocks
      invariant |blocks| == i && k == l.BlockStart(i)
      invariant generator[..] == Generator(l.eccLen)[1..]
      invariant forall j | 0 <= j < i :: IsBlock(l, data[..], j, blocks[j])
    {
      var block := MakeBlock(l, data, k, i, generator);
      BlockInData(l, i);
      k := k + l.BlockLen(i);
      blocks := blocks + [block[..]];
    }
    result := ReadColumns(l, blocks, data[..]);
  }

  /** Interleaves the blocks into a single sequence, skipping the unused byte of short blocks. */
  method ReadColumns(l: Layout, blocks: seq<Poly>, ghost data: Poly) returns (result: array<Byte>)
    requires l.Valid() && |data| == l.DataLen() && |blocks| == l.blocks
    requires forall j | 0 <= j < l.blocks :: IsBlock(l, data, j, blocks[j])
    ensures fresh(result) && result[..] == Interleaved(l, data)
  {
    hide Interleaved, Ecc, BlockData, Layout.DataLen, Layout.Place, Layout.ShortDataLen, Layout.ShortBlocks,
      Layout.Valid, Layout.BlockLen, IsBlock, RowCell, Rank;
    result := new Byte[l.rawCodewords](_ => ZERO);
    var k := 0;
    RankZero(l);
    for i := 0 to l.ShortDataLen() + 1 + l.eccLen
      invariant k == Rank(l, i, 0) && k <= l.rawCodewords
      invariant result[..k] == Interleaved(l, data)[..k]
      invariant i == l.ShortDataLen() + 1 + l.eccLen ==> k == l.rawCodewords
    {
      for j := 0 to l.blocks
        invariant k == Rank(l, i, j) && k <= l.rawCodewords
        invariant result[..k] == Interleaved(l, data)[..k]
      {
        RankStep(l, i, j);
        if i != l.ShortDataLen() || j >= l.ShortBlocks() {
          InterleavedAt(l, data, RowCell(l, i, j));
          BlockByte(l, data, i, j, blocks[j]);
          result[k] := blocks[j][i];
          k := k + 1;
          assert result[..k] == result[..k - 1] + [Interleaved(l, data)[k - 1]];
        }
      }
      RankRow(l, i);
    }
  }

  lemma RankZero(l: Layout)
    requires l.Valid()
    ensures Rank(l, 0, 0) == 0
  {
  }

  lemma BlockByte(l: Layout, data: Poly, i: nat, j: nat, block: Poly)
    requires l.Valid() && |data| == l.DataLen() && j < l.blocks && i < l.ShortDataLen() + 1 + l.eccLen
    requires i != l.ShortDataLen() || j >= l.ShortBlocks()
    requires IsBlock(l, data, j, block)
    ensures i < |block| && l.IsCell(RowCell(l, i, j)) && block[i] == ByteOf(l, data, RowCell(l, i, j))
  {
    hide Ecc, BlockData;
    if i <= l.ShortDataLen() {
      assert block[i] == block[..l.BlockLen(j)][i];
    } else {
      assert block[i] == block[l.ShortDataLen() + 1..][i - l.ShortDataLen() - 1];
    }
  }

  // ----- the output by place

  /** Where block `i` begins in the data: each block has `s` bytes, and one more from number `m` on. */
  function Start(s: nat, m: nat, i: nat): nat {
    i * s + if i <= m then 0 else i - m
  }

  /** The output holds first the bytes number 0 of all blocks, then their bytes number 1, and so on; ... */
  lemma OutputCommon(l: Layout, data: Poly, k: nat)
    requires l.Valid() && |data| == l.DataLen() && k < (l.rawCodewords / l.blocks - l.eccLen) * l.blocks
    ensures var n, s, m := l.blocks, l.rawCodewords / l.blocks - l.eccLen, l.blocks - l.rawCodewords % l.blocks;
      s >= 0 && k / n >= 0 && k % n >= 0 && k < l.rawCodewords && Start(s, m, k % n) + k / n < |data|
      && Interleaved(l, data)[k] == data[Start(s, m, k % n) + k / n]
  {
    hide Layout.DataLen, Layout.BlockStart, Layout.Row, Layout.Column, Layout.ShortDataLen, Layout.ShortBlocks,
      Layout.Place, Layout.CommonDataLen, Layout.CellAt, Start;
    SizesAre(l);
    LayoutSizes(l);
    CellThenPlace(l, k);
    CellIs(l, k);
    BlockInData(l, k % l.blocks);
    StartIs(l, k % l.blocks);
  }

  /** ... then the last bytes of the long blocks; ... */
  lemma OutputLast(l: Layout, data: Poly, k: nat)
    requires l.Valid() && |data| == l.DataLen() && (l.rawCodewords / l.blocks - l.eccLen) * l.blocks <= k < |data|
    ensures var n, s, m := l.blocks, l.rawCodewords / l.blocks - l.eccLen, l.blocks - l.rawCodewords % l.blocks;
      var i := m + (k - s * n);
      s >= 0 && 0 < m <= i < n && k < l.rawCodewords && Start(s, m, i) + s < |data|
      && Interleaved(l, data)[k] == data[Start(s, m, i) + s]
  {
    hide Layout.DataLen, Layout.BlockStart, Layout.Row, Layout.Column, Layout.ShortDataLen, Layout.ShortBlocks,
      Layout.Place, Layout.CommonDataLen, Layout.CellAt, Start;
    SizesAre(l);
    LayoutSizes(l);
    CellThenPlace(l, k);
    CellIs(l, k);
    var i := l.ShortBlocks() + (k - l.CommonDataLen());
    BlockInData(l, i);
    StartIs(l, i);
  }

  /** ... and then the error correction bytes in the order of the first. */
  lemma OutputChecks(l: Layout, data: Poly, k: nat)
    requires l.Valid() && |data| == l.DataLen() <= k < l.rawCodewords
    ensures var n, s, m := l.blocks, l.rawCodewords / l.blocks - l.eccLen, l.blocks - l.rawCodewords % l.blocks;
      var i, j := (k - |data|) % n, (k - |data|) / n;
      s >= 0 && 0 < m && 0 <= i && 0 <= j < l.eccLen && Start(s, m, i) <= Start(s, m, i + 1) <= |data|
      && Interleaved(l, data)[k] == Ecc(data[Start(s, m, i)..Start(s, m, i + 1)], l.eccLen)[j]
  {
    hide Layout.DataLen, Layout.BlockStart, Layout.Row, Layout.Column, Layout.ShortDataLen, Layout.ShortBlocks,
      Layout.Place, Layout.CommonDataLen, Layout.CellAt, Start, Ecc;
    SizesAre(l);
    LayoutSizes(l);
    CellThenPlace(l, k);
    CellIs(l, k);
    DivMod(k - |data|, l.blocks);
    var i := (k - |data|) % l.blocks;
    BlockInData(l, i);
    StartIs(l, i);
    StartIs(l, i + 1);
  }

  lemma SizesAre(l: Layout)
    requires l.Valid()
    ensures l.ShortDataLen() == l.rawCodewords / l.blocks - l.eccLen
    ensures l.ShortBlocks() == l.blocks - l.rawCodewords % l.blocks
    ensures l.CommonDataLen() == l.ShortDataLen() * l.blocks
  {
  }

  lemma CellIs(l: Layout, k: nat)
    requires l.Valid() && k < l.rawCodewords
    ensures k / l.blocks >= 0 && k % l.blocks >= 0
    ensures l.CellAt(k) ==
      if k < l.CommonDataLen() then Data(k % l.blocks, k / l.blocks)
      else if k < l.DataLen() then Data(l.ShortBlocks() + (k - l.CommonDataLen()), l.ShortDataLen())
      else (DivMod(k - l.DataLen(), l.blocks); Check((k - l.DataLen()) % l.blocks, (k - l.DataLen()) / l.blocks))
  {
    hide Layout.DataLen, Layout.ShortDataLen, Layout.ShortBlocks, Layout.CommonDataLen;
    DivMod(k, l.blocks);
  }

  lemma StartIs(l: Layout, i: nat)
    requires l.Valid() && i <= l.blocks
    ensures l.BlockStart(i) == Start(l.ShortDataLen(), l.ShortBlocks(), i)
  {
    hide Layout.ShortDataLen, Layout.ShortBlocks;
  }
}
