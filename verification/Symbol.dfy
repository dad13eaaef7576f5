/** Reading a finished symbol back: from the modules to the segments it was made from. */
module Symbol {
  import opened Bytes
  import opened Polynomials
  import opened Interleave
  import opened Zigzag
  import opened Mask
  import opened MaskSearch
  import opened BitStream

  /** The bytes made of these bits. */
  function ToBytes(bits: seq<bool>, n: nat): (data: seq<Byte>)
    requires 8 * n <= |bits|
    ensures |data| == n
  {
    seq(n, k requires 0 <= k < n => bits[8 * k..8 * k + 8])
  }

  lemma ToBytesInverse(data: seq<Byte>, more: seq<bool>)
    ensures ToBytes(DataBits(data) + more, |data|) == data
  {
    forall k | 0 <= k < |data|
      ensures ToBytes(DataBits(data) + more, |data|)[k] == data[k]
    {
      hide DataBits;
      forall j | 0 <= j < 8
        ensures (DataBits(data) + more)[8 * k..8 * k + 8][j] == data[k][j]
      {
        BitOfByte(data, k, j);
      }
    }
  }

  lemma BitOfByte(data: seq<Byte>, k: nat, j: nat)
    requires k < |data| && j < 8
    ensures DataBits(data)[8 * k + j] == data[k][j]
  {
  }

  /** The data bytes of block `i`, collected from the interleaved codewords. */
  function ReadBlock(l: Layout, codewords: Poly, i: nat): (block: Poly)
    requires l.Valid() && |codewords| == l.rawCodewords && i < l.blocks
    ensures |block| == l.BlockLen(i)
  {
    seq(l.BlockLen(i), j requires 0 <= j < l.BlockLen(i) =>
      (PlaceThenCell(l, Data(i, j)); codewords[l.Place(Data(i, j))]))
  }

  /** The data bytes of the first `i` blocks. */
  function ReadBlocks(l: Layout, codewords: Poly, i: nat): Poly
    requires l.Valid() && |codewords| == l.rawCodewords && i <= l.blocks
  {
    if i == 0 then [] else ReadBlocks(l, codewords, i - 1) + ReadBlock(l, codewords, i - 1)
  }

  lemma {:induction false} ReadBlocksInverse(l: Layout, data: Poly, i: nat)
    requires l.Valid() && |data| == l.DataLen() && i <= l.blocks
    ensures l.BlockStart(i) <= |data| && ReadBlocks(l, Interleaved(l, data), i) == data[..l.BlockStart(i)]
  {
    hide Interleaved, Layout.Place, Layout.DataLen, Layout.BlockStart, Layout.BlockLen, Layout.Valid;
    LayoutSizes(l);
    if i > 0 {
      ReadBlocksInverse(l, data, i - 1);
      BlockInData(l, i - 1);
      var last := ReadBlock(l, Interleaved(l, data), i - 1);
      forall j | 0 <= j < l.BlockLen(i - 1)
        ensures last[j] == data[l.BlockStart(i - 1) + j]
      {
        InterleavedAt(l, data, Data(i - 1, j));
      }
      assert data[..l.BlockStart(i)] == data[..l.BlockStart(i - 1)] + last;
    }
  }

  /** The segments found in a symbol, given its function modules, layout, mask and version. */
  function ReadSymbol(symbol: seq<bool>, function_: seq<bool>, n: nat, l: Layout, mask: nat, version: nat): seq<Content>
    requires ScanSize(n) && |symbol| == |function_| == n * n && mask < 8 && l.Valid() && IsVersion(version)
    requires 8 * l.rawCodewords <= |Free(function_, n)|
  {
    var unmasked := Masked(function_, symbol, n, mask);
    var codewords := ToBytes(Read(unmasked, Free(function_, n)), l.rawCodewords);
    Decode(DataBits(ReadBlocks(l, codewords, l.blocks)), version)
  }

  /** The grids agree outside the function modules. */
  ghost predicate SameData(function_: seq<bool>, g: seq<bool>, g': seq<bool>) {
    |g| == |g'| == |function_| && forall i | 0 <= i < |function_| && !function_[i] :: g[i] == g'[i]
  }

  lemma UnmaskedData(function_: seq<bool>, g: seq<bool>, n: nat, words: seq<seq<bool>>, mask: nat)
    requires |function_| == |g| == n * n && AreFormatWords(words) && mask < 8 && CoversFormat(function_, n)
    ensures SameData(function_, Masked(function_, Finished(function_, g, n, words, mask), n, mask), g)
  {
    hide Masked, OrderAt;
    MaskCommutesWithFormat(function_, Masked(function_, g, n, mask), n, mask, words[mask]);
    MaskInvolution(function_, g, n, mask);
    assert Masked(function_, Finished(function_, g, n, words, mask), n, mask) == WithFormat(g, n, words[mask]);
  }

  lemma ReadSame(function_: seq<bool>, g: seq<bool>, g': seq<bool>, n: nat)
    requires ScanSize(n) && |function_| == n * n && SameData(function_, g, g')
    ensures Read(g, Free(function_, n)) == Read(g', Free(function_, n))
  {
    hide Free;
  }

  /** Reading a symbol made from segments gives back the segments, whatever was drawn on the function modules. */
  lemma SymbolRoundTrip(segs: seq<Segment>, version: nat, l: Layout, data: Poly, function_: seq<bool>, n: nat,
                        g: seq<bool>, words: seq<seq<bool>>, mask: nat)
    requires IsVersion(version) && AreWellFormed(segs) && AreValid(segs) && CountsFit(segs, version)
    requires l.Valid() && StreamSize(segs, version) <= 8 * l.DataLen()
    requires |data| == l.DataLen() && DataBits(data) == EncodedBits(segs, version, l.DataLen())
    requires ScanSize(n) && |function_| == n * n && CoversFormat(function_, n)
    requires 8 * l.rawCodewords <= |Free(function_, n)|
    requires SameData(function_, g, Drawn(function_, n, DataBits(Interleaved(l, data))))
    requires AreFormatWords(words) && mask < 8
    ensures ReadSymbol(Finished(function_, g, n, words, mask), function_, n, l, mask, version) == Contents(segs)
  {
    hide Masked, Finished, Free, DataBits, Interleaved, Drawn, EncodedBits, Decode, ToBytes, ReadBlocks, Read,
      Contents, CoversFormat, WellFormed, StreamSize, CountsFit, Layout.DataLen, Layout.Valid, Layout.BlockStart,
      AreWellFormed;
    var codewords := Interleaved(l, data);
    var drawn := Drawn(function_, n, DataBits(codewords));
    var symbol := Finished(function_, g, n, words, mask);
    var unmasked := Masked(function_, symbol, n, mask);
    UnmaskedData(function_, g, n, words, mask);
    ReadSame(function_, unmasked, drawn, n);
    ReadBack(function_, n, DataBits(codewords));
    ToBytesInverse(codewords, seq(|Free(function_, n)| - |DataBits(codewords)|, _ => false));
    ReadBlocksInverse(l, data, l.blocks);
    LayoutSizes(l);
    assert data[..|data|] == data;
    StreamRoundTrip(segs, version, l.DataLen());
  }
}
