/** The whole encoder: version, data bits, error correction, drawing and masking, one after another on the same
    two buffers.  The symbol it leaves reads back as the segments. */
module Encoder {
  import opened Arithmetic
  import opened Bytes
  import opened Grid
  import opened Polynomials
  import opened Interleave
  import opened Zigzag
  import opened Mask
  import opened MaskSearch
  import opened BitBuffer
  import opened BitStream
  import opened Selection
  import opened Symbol
  import opened GeneratorElement

  /** What the C code has in tables or draws version by version: the block layouts and format words, by level, the
      function modules and the colors that these end up with. */
  datatype Tables = Tables(layouts: seq<seq<Layout>>, functionModules: seq<seq<bool>>, functionColors: seq<seq<bool>>,
                           formatWords: seq<seq<seq<bool>>>)

  function SideLength(version: nat): nat {
    version * 4 + 17
  }

  /** 21 modules for version 1, 177 for version 40, and four more from each version to the next. */
  lemma SideLengths(version: nat)
    ensures SideLength(1) == 21 && SideLength(40) == 177
    ensures SideLength(version + 1) == SideLength(version) + 4
  {
  }

  function BufferLen(version: nat): nat {
    (SideLength(version) * SideLength(version) + 7) / 8 + 1
  }

  /** A version's function modules include the format modules, and there is room for the codewords outside them. */
  ghost predicate FitsVersion(pattern: seq<bool>, colors: seq<bool>, l: Layout, version: nat) {
    var n := SideLength(version);
    && |pattern| == |colors| == n * n && CoversFormat(pattern, n)
    && l.Valid() && l.rawCodewords <= BufferLen(version)
    && ScanSize(n) && 8 * l.rawCodewords <= |Free(pattern, n)|
  }

  ghost predicate AreTables(t: Tables) {
    && |t.layouts| == |t.formatWords| == 4
    && |t.functionModules| == |t.functionColors| == 41
    && (forall e | 0 <= e < 4 :: |t.layouts[e]| == 41 && AreFormatWords(t.formatWords[e]))
    && (forall e, v | 0 <= e < 4 && 1 <= v <= 40 ::
          FitsVersion(t.functionModules[v], t.functionColors[v], t.layouts[e][v], v))
  }

  /** The numbers of data bytes. */
  function CapacitiesOf(t: Tables): (c: Capacities)
    requires AreTables(t)
    ensures AreCapacities(c)
  {
    seq<seq<nat>>(4, e requires 0 <= e < 4 => LevelCapacities(t, e))
  }

  function LevelCapacities(t: Tables, e: nat): (c: seq<nat>)
    requires AreTables(t) && e < 4
    ensures |c| == 41 && forall v | 1 <= v <= 40 :: t.layouts[e][v].Valid() && c[v] == t.layouts[e][v].DataLen()
  {
    assert forall v | 1 <= v <= 40 :: FitsVersion(t.functionModules[v], t.functionColors[v], t.layouts[e][v], v);
    seq<nat>(41, v requires 0 <= v < 41 => if v == 0 then 0 else t.layouts[e][v].DataLen())
  }

  // ----- drawing function modules

  /** The grid with the marked modules colored. */
  function Colored(g: seq<bool>, marked: seq<bool>, colors: seq<bool>): (r: seq<bool>)
    requires |g| == |marked| == |colors|
    ensures |r| == |g|
  {
    seq(|g|, i requires 0 <= i < |g| => if marked[i] then colors[i] else g[i])
  }

  /** The marked modules before index `k` have been colored. */
  ghost predicate ColoredBefore(g: seq<bool>, marked: seq<bool>, colors: seq<bool>, k: nat, now: seq<bool>)
    requires |g| == |marked| == |colors|
  {
    |now| == |g| && forall i | 0 <= i < |g| :: now[i] == if marked[i] && i < k then colors[i] else g[i]
  }

  lemma ColorNext(g: seq<bool>, marked: seq<bool>, colors: seq<bool>, k: nat, now: seq<bool>)
    requires |g| == |marked| == |colors| && k < |g| && ColoredBefore(g, marked, colors, k, now)
    ensures ColoredBefore(g, marked, colors, k + 1, if marked[k] then now[k := colors[k]] else now)
  {
  }

  lemma ColoredAll(g: seq<bool>, marked: seq<bool>, colors: seq<bool>, now: seq<bool>)
    requires |g| == |marked| == |colors| && ColoredBefore(g, marked, colors, |g|, now)
    ensures now == Colored(g, marked, colors)
  {
  }

  lemma ColoredNone(g: seq<bool>, marked: seq<bool>, colors: seq<bool>)
    requires |g| == |marked| == |colors|
    ensures ColoredBefore(g, marked, colors, 0, g)
  {
  }

  method DrawModules(marked: seq<bool>, colors: seq<bool>, qrcode: array<Byte>)
    requires IsQrCode(qrcode[..]) && |marked| == |colors| == |View(qrcode)|
    modifies qrcode
    ensures IsQrCode(qrcode[..]) && Size(qrcode[..]) == old(Size(qrcode[..]))
    ensures View(qrcode) == Colored(old(View(qrcode)), marked, colors)
  {
    hide Value, View, ColoredBefore, Colored, Size, IsQrCode, Index;
    var n := GetSize(qrcode);
    ghost var g := View(qrcode);
    ColoredNone(g, marked, colors);
    for y := 0 to n
      invariant IsQrCode(qrcode[..]) && Size(qrcode[..]) == n
      invariant ColoredBefore(g, marked, colors, y * n, View(qrcode))
    {
      for x := 0 to n
        invariant IsQrCode(qrcode[..]) && Size(qrcode[..]) == n
        invariant ColoredBefore(g, marked, colors, y * n + x, View(qrcode))
      {
        var i := Index(n, x, y);
        IndexIs(n, x, y);
        ColorNext(g, marked, colors, i, View(qrcode));
        if marked[i] {
          SetModuleBounded(qrcode, x, y, colors[i]);
        }
      }
      MulStep(n, y);
    }
    ColoredAll(g, marked, colors, View(qrcode));
  }

  /** Clears the grid, stores its side length and marks the function modules dark. */
  method InitializeFunctionModules(pattern: seq<bool>, version: nat, qrcode: array<Byte>)
    requires IsVersion(version) && |pattern| == SideLength(version) * SideLength(version)
    requires BufferLen(version) <= qrcode.Length
    modifies qrcode
    ensures IsQrCode(qrcode[..]) && Size(qrcode[..]) == SideLength(version)
    ensures View(qrcode) == pattern
  {
    hide Value, ToBits, Pow2;
    var n := SideLength(version);
    ZeroBytes(qrcode, BufferLen(version));
    Pow2Of8();
    ValueOfBits(n, 8);
    ghost var zeros := qrcode[..];
    qrcode[0] := ToBits(n, 8);
    assert IsQrCode(qrcode[..]);
    ClearedGrid(zeros, BufferLen(version), qrcode[..]);
    DrawModules(pattern, pattern, qrcode);
  }

  lemma ClearedGrid(zeros: seq<Byte>, size: nat, q: seq<Byte>)
    requires Holds(zeros, size, []) && IsQrCode(q) && |q| == |zeros| && q[1..] == zeros[1..]
    requires 8 * (size - 1) >= Size(q) * Size(q)
    ensures Modules(q) == seq(Size(q) * Size(q), _ => false)
  {
    hide Size;
    forall i | 0 <= i < |Modules(q)|
      ensures !Modules(q)[i]
    {
      ZeroByteAt(zeros, size, i / 8, 7 - i % 8);
      assert q[1..][i / 8] == zeros[1..][i / 8];
    }
  }

  lemma ZeroByteAt(zeros: seq<Byte>, size: nat, j: nat, bit: nat)
    requires Holds(zeros, size, []) && j + 1 < size && bit < 8
    ensures !zeros[j + 1][bit]
  {
    var k := 8 * (j + 1) + bit;
    assert !([] + Zeros(8 * size))[k];
    assert DataBits(zeros)[k] == zeros[j + 1][bit];
  }

  // ----- the encoder

  lemma HeldBytes(q: seq<Byte>, size: nat, bits: seq<bool>, n: nat)
    requires Holds(q, size, bits) && |bits| == 8 * n && n <= size
    ensures n <= |q| && DataBits(q[..n]) == bits
  {
    forall i | 0 <= i < 8 * n
      ensures DataBits(q[..n])[i] == bits[i]
    {
      assert (bits + Zeros(8 * size - |bits|))[i] == DataBits(q)[..8 * size][i];
    }
  }

  lemma BufferGrows(version: nat, maxVersion: nat)
    requires version <= maxVersion
    ensures BufferLen(version) <= BufferLen(maxVersion)
  {
    var m, n := SideLength(version), SideLength(maxVersion);
    SquareGrows(m, n);
  }

  lemma SquareGrows(m: nat, n: nat)
    requires m <= n
    ensures m * m <= n * n
  {
  }

  lemma LayoutSmall(l: Layout)
    requires l.Valid()
    ensures l.DataLen() <= l.rawCodewords
  {
  }

  lemma TablesAt(t: Tables, e: nat, v: nat)
    requires AreTables(t) && e < 4 && 1 <= v <= 40
    ensures |t.layouts| == |t.formatWords| == 4 && |t.functionModules| == |t.functionColors| == |t.layouts[e]| == 41
    ensures FitsVersion(t.functionModules[v], t.functionColors[v], t.layouts[e][v], v)
    ensures CapacitiesOf(t)[e][v] == t.layouts[e][v].DataLen()
    ensures AreFormatWords(t.formatWords[e])
  {
  }

  /** The data bytes of the segments. */
  function DataBytes(segs: seq<Segment>, version: nat, capacity: nat): (data: Poly)
    requires IsVersion(version) && AreValid(segs) && StreamSize(segs, version) <= 8 * capacity
    ensures |data| == capacity
  {
    ToBytes(EncodedBits(segs, version, capacity), capacity)
  }

  lemma BytesOfBits(bits: seq<bool>, data: seq<Byte>, n: nat)
    requires |bits| == 8 * n && |data| == n && DataBits(data) == bits
    ensures ToBytes(bits, n) == data
  {
    hide DataBits, ToBytes;
    ToBytesInverse(data, []);
    assert bits + [] == bits;
  }

  /** From segments to interleaved codewords. */
  method WriteCodewords(segs: seq<Segment>, version: nat, l: Layout, qrcode: array<Byte>, tempBuffer: array<Byte>)
    requires IsVersion(version) && AreValid(segs) && CountsFit(segs, version)
    requires l.Valid() && StreamSize(segs, version) <= 8 * l.DataLen()
    requires l.rawCodewords <= BufferLen(version) <= qrcode.Length && BufferLen(version) <= tempBuffer.Length
    requires tempBuffer != qrcode
    modifies qrcode, tempBuffer
    ensures tempBuffer[..l.rawCodewords] == Interleaved(l, DataBytes(segs, version, l.DataLen()))
    ensures DataBits(DataBytes(segs, version, l.DataLen())) == EncodedBits(segs, version, l.DataLen())
  {
    hide DataBits, Interleaved, Holds, EncodedBits, StreamSize, CountsFit, AreValid, Layout.DataLen, Layout.Valid,
      BufferLen, ToBytes;
    LayoutSmall(l);
    WriteDataBits(segs, version, l.DataLen(), BufferLen(version), qrcode);
    ghost var bits := EncodedBits(segs, version, l.DataLen());
    HeldBytes(qrcode[..], BufferLen(version), bits, l.DataLen());
    BytesOfBits(bits, qrcode[..l.DataLen()], l.DataLen());
    AddEccAndInterleave(qrcode, l, tempBuffer);
  }

  /** Draws the codewords, and then the light parts of the function modules. */
  method DrawSymbol(version: nat, pattern: seq<bool>, colors: seq<bool>, l: Layout, tempBuffer: array<Byte>,
                    qrcode: array<Byte>)
    requires IsVersion(version) && FitsVersion(pattern, colors, l, version)
    requires tempBuffer != qrcode && BufferLen(version) <= tempBuffer.Length && BufferLen(version) <= qrcode.Length
    modifies qrcode
    ensures IsQrCode(qrcode[..]) && Size(qrcode[..]) == SideLength(version)
    ensures View(qrcode)
         == Colored(Drawn(pattern, SideLength(version), DataBits(tempBuffer[..l.rawCodewords])), pattern, colors)
  {
    hide Value, View, Size, DataBits, Drawn, Free, CoversFormat, BufferLen, IsQrCode, Layout.Valid, Colored;
    InitializeFunctionModules(pattern, version, qrcode);
    var drawn := DrawCodewords(tempBuffer, l.rawCodewords, qrcode);
    assert drawn == 8 * l.rawCodewords;
    DrawModules(pattern, colors, qrcode);
  }

  /** Marks the function modules in the other buffer and masks. */
  method MaskSymbol(version: nat, pattern: seq<bool>, mask: int, words: seq<seq<bool>>, tempBuffer: array<Byte>,
                    qrcode: array<Byte>)
    returns (chosen: int)
    requires IsVersion(version) && |pattern| == SideLength(version) * SideLength(version)
    requires CoversFormat(pattern, SideLength(version))
    requires IsQrCode(qrcode[..]) && Size(qrcode[..]) == SideLength(version)
    requires tempBuffer != qrcode && BufferLen(version) <= tempBuffer.Length && -1 <= mask <= 7 && AreFormatWords(words)
    modifies qrcode, tempBuffer
    ensures IsQrCode(qrcode[..]) && Size(qrcode[..]) == SideLength(version)
    ensures 0 <= chosen < 8 && (mask != -1 ==> chosen == mask)
    ensures mask == -1 ==> IsBestBelow(pattern, old(View(qrcode)), SideLength(version), words, chosen, 8)
    ensures View(qrcode) == Finished(pattern, old(View(qrcode)), SideLength(version), words, chosen)
  {
    hide Value, View, Size, CoversFormat, BufferLen, IsQrCode, Finished, AreFormatWords, MaskScore;
    InitializeFunctionModules(pattern, version, tempBuffer);
    chosen := ChooseMask(tempBuffer, qrcode, mask, words);
  }

  lemma FitsParts(pattern: seq<bool>, colors: seq<bool>, l: Layout, version: nat)
    requires FitsVersion(pattern, colors, l, version)
    ensures var n := SideLength(version);
      && |pattern| == |colors| == n * n && CoversFormat(pattern, n)
      && l.Valid() && l.rawCodewords <= BufferLen(version)
      && ScanSize(n) && 8 * l.rawCodewords <= |Free(pattern, n)|
  {
  }

  lemma InvalidSize(q: seq<Byte>, version: nat)
    requires BufferLen(version) <= |q|
    ensures q != [] && Size(q[0 := ZERO]) == 0
  {
    ZeroValue(8);
  }

  lemma ChosenFits(segs: seq<Segment>, t: Tables, version: nat, level: nat)
    requires AreTables(t) && IsVersion(version) && level < 4 && Fits(segs, CapacitiesOf(t), version, level)
    ensures var l := t.layouts[level][version];
      l.Valid() && CountsFit(segs, version) && StreamSize(segs, version) <= 8 * l.DataLen()
  {
    TablesAt(t, level, version);
  }

  /** The unmasked symbol of the segments: their codewords along the scan, and the colored function modules. */
  function Unmasked(segs: seq<Segment>, version: nat, pattern: seq<bool>, colors: seq<bool>, l: Layout): (g: seq<bool>)
    requires IsVersion(version) && AreValid(segs) && FitsVersion(pattern, colors, l, version)
    requires StreamSize(segs, version) <= 8 * l.DataLen()
    ensures |g| == SideLength(version) * SideLength(version)
  {
    Colored(Drawn(pattern, SideLength(version), DataBits(Interleaved(l, DataBytes(segs, version, l.DataLen())))),
            pattern, colors)
  }

  lemma ColoredKeepsData(g: seq<bool>, marked: seq<bool>, colors: seq<bool>)
    requires |g| == |marked| == |colors|
    ensures SameData(marked, Colored(g, marked, colors), g)
  {
  }

  lemma UnmaskedIs(segs: seq<Segment>, version: nat, pattern: seq<bool>, colors: seq<bool>, l: Layout, g: seq<bool>)
    requires IsVersion(version) && AreValid(segs) && FitsVersion(pattern, colors, l, version)
    requires StreamSize(segs, version) <= 8 * l.DataLen()
    requires g == Colored(Drawn(pattern, SideLength(version),
                                DataBits(Interleaved(l, DataBytes(segs, version, l.DataLen())))), pattern, colors)
    ensures g == Unmasked(segs, version, pattern, colors, l)
    ensures SameData(pattern, g, Drawn(pattern, SideLength(version),
                                       DataBits(Interleaved(l, DataBytes(segs, version, l.DataLen())))))
  {
    hide Drawn, DataBits, Interleaved, DataBytes, StreamSize, Free, CoversFormat;
    ColoredKeepsData(Drawn(pattern, SideLength(version), DataBits(Interleaved(l, DataBytes(segs, version, l.DataLen())))),
                     pattern, colors);
  }

  /** The segments fit, and `symbol` is their symbol with this mask: the best one if `mask` is -1, else `mask`. */
  ghost predicate IsEncoded(symbol: seq<bool>, segs: seq<Segment>, t: Tables, version: nat, level: nat, mask: int,
                            chosen: nat)
    requires AreValid(segs) && AreTables(t) && IsVersion(version) && level < 4 && chosen < 8
  {
    var pattern, colors, l := t.functionModules[version], t.functionColors[version], t.layouts[level][version];
    var n, words := SideLength(version), t.formatWords[level];
    && FitsVersion(pattern, colors, l, version)
    && StreamSize(segs, version) <= 8 * l.DataLen()
    && var g := Unmasked(segs, version, pattern, colors, l);
    && symbol == Finished(pattern, g, n, words, chosen)
    && if mask == -1 then IsBestBelow(pattern, g, n, words, chosen, 8) else chosen == mask
  }

  lemma EncodedIs(symbol: seq<bool>, segs: seq<Segment>, t: Tables, version: nat, level: nat, mask: int, chosen: nat)
    requires AreValid(segs) && AreTables(t) && IsVersion(version) && level < 4 && chosen < 8
    requires var pattern, colors, l := t.functionModules[version], t.functionColors[version], t.layouts[level][version];
      && FitsVersion(pattern, colors, l, version) && StreamSize(segs, version) <= 8 * l.DataLen()
      && var g := Unmasked(segs, version, pattern, colors, l);
      && symbol == Finished(pattern, g, SideLength(version), t.formatWords[level], chosen)
      && if mask == -1 then IsBestBelow(pattern, g, SideLength(version), t.formatWords[level], chosen, 8)
         else chosen == mask
    ensures IsEncoded(symbol, segs, t, version, level, mask, chosen)
  {
    hide Unmasked, Finished, IsBestBelow, StreamSize, FitsVersion;
  }

  /** Fails, leaving an invalid size, exactly when no version of the range fits.  Otherwise the symbol has the
      size of the least version that fits and the highest level that a boost allows; its modules are exactly those
      that the segments, version, level and mask determine, with the best mask if none was asked for; and
      reading it gives back the segments. */
  method EncodeSegmentsAdvanced(segs: seq<Segment>, t: Tables, ecl: nat, minVersion: nat, maxVersion: nat, mask: int,
                                boostEcl: bool, tempBuffer: array<Byte>, qrcode: array<Byte>)
    returns (ok: bool, version: nat, level: nat, chosen: int)
    requires AreWellFormed(segs) && AreValid(segs) && AreTables(t) && ecl < 4 && -1 <= mask <= 7
    requires 1 <= minVersion <= maxVersion <= 40
    requires tempBuffer != qrcode
    requires BufferLen(maxVersion) <= tempBuffer.Length && BufferLen(maxVersion) <= qrcode.Length
    modifies tempBuffer, qrcode
    ensures ok <==> exists v: nat | minVersion <= v <= maxVersion :: Fits(segs, CapacitiesOf(t), v, ecl)
    ensures !ok ==> Size(qrcode[..]) == 0
    ensures ok ==> minVersion <= version <= maxVersion && level < 4 && 0 <= chosen < 8
    ensures ok ==> Fits(segs, CapacitiesOf(t), version, level)
                   && forall v: nat | minVersion <= v < version :: !Fits(segs, CapacitiesOf(t), v, ecl)
    ensures ok && !boostEcl ==> level == ecl
    ensures ok && boostEcl ==>
      ecl <= level && forall e: nat | level < e < 4 :: !Fits(segs, CapacitiesOf(t), version, e)
    ensures ok ==> IsQrCode(qrcode[..]) && IsEncoded(View(qrcode), segs, t, version, level, mask, chosen)
    ensures ok ==> IsQrCode(qrcode[..]) && Size(qrcode[..]) == SideLength(version)
    ensures ok ==>
      FitsVersion(t.functionModules[version], t.functionColors[version], t.layouts[level][version], version)
      && ReadSymbol(View(qrcode), t.functionModules[version], SideLength(version), t.layouts[level][version], chosen,
                    version) == Contents(segs)
  {
    hide Value, View, Size, AreTables, FitsVersion, CapacitiesOf, BufferLen, Fits, StreamSize, CountsFit, IsQrCode,
      SideLength, DataBits, Interleaved, EncodedBits, Finished, CoversFormat, AreFormatWords, ReadSymbol,
      AreWellFormed, AreValid, AreCapacities, Layout.DataLen, Layout.Valid, Contents, SameData, DataBytes, Drawn,
      Colored, Unmasked, IsBestBelow, IsEncoded;
    var dataUsedBits;
    chosen := mask;
    ok, version, level, dataUsedBits := SelectVersion(segs, CapacitiesOf(t), ecl, minVersion, maxVersion, boostEcl);
    if !ok {
      InvalidSize(qrcode[..], maxVersion);
      qrcode[0] := ZERO;
      return;
    }
    BufferGrows(version, maxVersion);
    TablesAt(t, level, version);
    var pattern, colors, l := t.functionModules[version], t.functionColors[version], t.layouts[level][version];
    FitsParts(pattern, colors, l, version);
    ChosenFits(segs, t, version, level);
    WriteCodewords(segs, version, l, qrcode, tempBuffer);
    DrawSymbol(version, pattern, colors, l, tempBuffer, qrcode);
    ghost var g := View(qrcode);
    UnmaskedIs(segs, version, pattern, colors, l, g);
    chosen := MaskSymbol(version, pattern, mask, t.formatWords[level], tempBuffer, qrcode);
    SymbolRoundTrip(segs, version, l, DataBytes(segs, version, l.DataLen()), pattern, SideLength(version), g,
                    t.formatWords[level], chosen);
    EncodedIs(View(qrcode), segs, t, version, level, mask, chosen);
  }
}
