/** Encoding a text or bytes: one segment is built in the temporary buffer and encoded from there. */
module TextEncoder {
  import opened Bytes
  import opened Grid
  import opened Segments
  import opened BitStream
  import opened Selection
  import opened Symbol
  import opened Encoder

  /** The characters of a C string are bytes. */
  predicate IsByteText(text: string) {
    forall k | 0 <= k < |text| :: text[k] as int < 256
  }

  function TextBytes(text: string): (data: seq<Byte>)
    requires IsByteText(text)
    ensures |data| == |text|
  {
    seq(|text|, k requires 0 <= k < |text| => ToBits(text[k] as int, 8))
  }

  function TextMode(text: string): (mode: Mode)
    ensures !mode.Eci?
  {
    if IsNumeric(text) then Numeric else if IsAlphanumeric(text) then Alphanumeric else Byte8
  }

  /** The payload of a text's segment. */
  function TextPayload(text: string): seq<bool>
    requires IsByteText(text)
  {
    if IsNumeric(text) then
      NumericIsAlphanumeric(text);
      GroupBits(NUMERIC, TextDigits(text))
    else if IsAlphanumeric(text) then GroupBits(ALPHANUMERIC, TextDigits(text))
    else DataBits(TextBytes(text))
  }

  // ----- reading a text

  function BytesText(data: seq<Byte>): string {
    seq(|data|, k requires 0 <= k < |data| => (ValueBound(data[k]); Pow2Of8(); Value(data[k]) as char))
  }

  /** The text of a segment that has been read. */
  ghost function TextOf(c: Content): string {
    if c.mode.Byte8? then
      if |c.payload| < 8 * c.numChars then "" else BytesText(ToBytes(c.payload, c.numChars))
    else
      var ds := DecodeGroups(if c.mode.Numeric? then NUMERIC else ALPHANUMERIC, c.numChars, c.payload);
      if AreDigits(ds, 45) then TextOfDigits(ds) else ""
  }

  ghost function TextOfAll(cs: seq<Content>): string {
    if cs == [] then "" else TextOf(cs[0]) + TextOfAll(cs[1..])
  }

  lemma BytesTextInverse(text: string)
    requires IsByteText(text)
    ensures BytesText(TextBytes(text)) == text
  {
    hide Value, ToBits, Pow2;
    Pow2Of8();
    forall k | 0 <= k < |text|
      ensures BytesText(TextBytes(text))[k] == text[k]
    {
      ValueOfBits(text[k] as int, 8);
    }
  }

  /** The bytes of a text are the numbers of its characters. */
  lemma TextByteValue(text: string, k: nat)
    requires IsByteText(text) && k < |text|
    ensures Value(TextBytes(text)[k]) == text[k] as int
  {
    hide Value, ToBits, Pow2;
    Pow2Of8();
    ValueOfBits(text[k] as int, 8);
  }

  /** Reading the segment of a text gives back the text. */
  lemma TextRead(text: string)
    requires IsByteText(text)
    ensures TextOf(Content(TextMode(text), |text|, TextPayload(text))) == text
  {
    hide DecodeGroups, GroupBits, TextOfDigits, TextDigits, DataBits, ToBytes, BytesText, TextBytes, IsNumeric,
      IsAlphanumeric;
    var payload := TextPayload(text);
    assert payload + [] == payload;
    if TextMode(text) == Numeric {
      NumericIsAlphanumeric(text);
      TextRoundTrip(NUMERIC, text, []);
    } else if TextMode(text) == Alphanumeric {
      TextRoundTrip(ALPHANUMERIC, text, []);
    } else {
      ToBytesInverse(TextBytes(text), []);
      BytesTextInverse(text);
    }
  }

  // ----- what fits

  /** One segment of this mode and length fits the version at the level. */
  predicate SegmentFits(mode: Mode, numChars: nat, c: Capacities, version: nat, level: nat)
    requires AreCapacities(c) && IsVersion(version) && level < 4 && !mode.Eci?
  {
    var bits, cc := CalcSegmentBitLength(mode, numChars), NumCharCountBits(mode, version);
    && bits != LENGTH_OVERFLOW && numChars < Pow2(cc)
    && 4 + cc + bits <= INT16_MAX && 4 + cc + bits <= 8 * c[level][version]
  }

  /** An empty text needs no segment. */
  predicate TextFits(text: string, c: Capacities, version: nat, level: nat)
    requires AreCapacities(c) && IsVersion(version) && level < 4
  {
    text == "" || SegmentFits(TextMode(text), |text|, c, version, level)
  }

  lemma SegmentFitsIff(s: Segment, c: Capacities, version: nat, level: nat)
    requires AreCapacities(c) && IsVersion(version) && level < 4 && !s.mode.Eci?
    requires s.Valid() && s.bitLength == CalcSegmentBitLength(s.mode, s.numChars)
    ensures Fits([s], c, version, level) <==> SegmentFits(s.mode, s.numChars, c, version, level)
  {
    hide Pow2, NumCharCountBits, CalcSegmentBitLength;
    assert StreamSize([s][..0], version) == 0;
    assert StreamSize([s], version) == SegmentSize(s, version);
  }

  /** A segment that does not fit the buffer for a version does not fit any version up to it. */
  lemma TooLongForBuffer(mode: Mode, numChars: nat, t: Tables, version: nat, maxVersion: nat, level: nat)
    requires AreTables(t) && 1 <= version <= maxVersion <= 40 && level < 4 && !mode.Eci?
    requires CalcSegmentBitLength(mode, numChars) > 8 * BufferLen(maxVersion)
    ensures !SegmentFits(mode, numChars, CapacitiesOf(t), version, level)
  {
    hide CapacitiesOf, AreTables, BufferLen, CalcSegmentBitLength, FitsVersion;
    TablesAt(t, level, version);
    FitsParts(t.functionModules[version], t.functionColors[version], t.layouts[level][version], version);
    LayoutSmall(t.layouts[level][version]);
    BufferGrows(version, maxVersion);
  }

  // ----- the C functions

  lemma OneContent(s: Segment)
    requires s.Valid()
    ensures Contents([s]) == [ContentOf(s)]
    ensures WellFormed(s) ==> AreWellFormed([s]) && AreValid([s])
  {
    hide WellFormed;
  }

  method EncodeBinary(dataAndTemp: array<Byte>, dataLen: nat, qrcode: array<Byte>, t: Tables, ecl: nat, minVersion: nat,
                      maxVersion: nat, mask: int, boostEcl: bool)
    returns (ok: bool, version: nat, level: nat, chosen: int, ghost segs: seq<Segment>)
    requires AreTables(t) && ecl < 4 && -1 <= mask <= 7 && 1 <= minVersion <= maxVersion <= 40
    requires dataAndTemp != qrcode && dataLen <= dataAndTemp.Length
    requires BufferLen(maxVersion) <= dataAndTemp.Length && BufferLen(maxVersion) <= qrcode.Length
    modifies dataAndTemp, qrcode
    ensures ok <==> exists v: nat | minVersion <= v <= maxVersion :: SegmentFits(Byte8, dataLen, CapacitiesOf(t), v, ecl)
    ensures !ok ==> Size(qrcode[..]) == 0
    ensures ok ==> minVersion <= version <= maxVersion && level < 4 && 0 <= chosen < 8
    ensures ok ==> SegmentFits(Byte8, dataLen, CapacitiesOf(t), version, level)
                   && forall v: nat | minVersion <= v < version :: !SegmentFits(Byte8, dataLen, CapacitiesOf(t), v, ecl)
    ensures ok && !boostEcl ==> level == ecl
    ensures ok && boostEcl ==>
      ecl <= level && forall e: nat | level < e < 4 :: !SegmentFits(Byte8, dataLen, CapacitiesOf(t), version, e)
    ensures ok ==> AreValid(segs) && Contents(segs) == [Content(Byte8, dataLen, DataBits(old(dataAndTemp[..dataLen])))]
                   && IsQrCode(qrcode[..]) && IsEncoded(View(qrcode), segs, t, version, level, mask, chosen)
    ensures ok ==> IsQrCode(qrcode[..]) && Size(qrcode[..]) == SideLength(version)
    ensures ok ==>
      FitsVersion(t.functionModules[version], t.functionColors[version], t.layouts[level][version], version)
      && ReadSymbol(View(qrcode), t.functionModules[version], SideLength(version), t.layouts[level][version], chosen,
                    version) == [Content(Byte8, dataLen, DataBits(old(dataAndTemp[..dataLen])))]
  {
    hide Value, View, Size, IsQrCode, AreTables, CapacitiesOf, BufferLen, FitsVersion, ReadSymbol, Fits, SegmentFits,
      Contents, AreWellFormed, AreValid, AreCapacities, IsEncoded, SideLength, DataBits;
    ok, version, level, chosen, segs := false, 0, 0, 0, [];
    var bitLength := CalcSegmentBitLength(Byte8, dataLen);
    if bitLength == LENGTH_OVERFLOW {
      InvalidSize(qrcode[..], maxVersion);
      qrcode[0] := ZERO;
      OverflowFitsNothing(Byte8, dataLen);
      return;
    }
    var seg := Segment(Byte8, dataLen, dataAndTemp[..], bitLength);
    segs := [seg];
    ByteSegment(seg);
    OneContent(seg);
    forall v: nat, e: nat | 1 <= v <= 40 && e < 4
      ensures Fits([seg], CapacitiesOf(t), v, e) <==> SegmentFits(Byte8, dataLen, CapacitiesOf(t), v, e)
    {
      SegmentFitsIff(seg, CapacitiesOf(t), v, e);
    }
    ok, version, level, chosen :=
      EncodeSegmentsAdvanced([seg], t, ecl, minVersion, maxVersion, mask, boostEcl, dataAndTemp, qrcode);
  }

  lemma OverflowFitsNothing(mode: Mode, numChars: nat)
    requires !mode.Eci? && CalcSegmentBitLength(mode, numChars) == LENGTH_OVERFLOW
    ensures forall c, v: nat, e: nat | AreCapacities(c) && IsVersion(v) && e < 4 :: !SegmentFits(mode, numChars, c, v, e)
  {
  }

  lemma ByteSegment(s: Segment)
    requires s.mode == Byte8 && s.numChars <= |s.data|
    requires s.bitLength == CalcSegmentBitLength(Byte8, s.numChars)
    ensures s.Valid() && WellFormed(s) && s.Payload() == DataBits(s.data[..s.numChars])
  {
  }

  // ----- the text

  const SIZE_MAX := 0xFFFF_FFFF

  function CalcSegmentBufferSize(mode: Mode, numChars: nat): nat
    requires !mode.Eci?
  {
    var bits := CalcSegmentBitLength(mode, numChars);
    if bits == LENGTH_OVERFLOW then SIZE_MAX else (bits + 7) / 8
  }

  lemma BufferTooSmall(mode: Mode, numChars: nat, t: Tables, maxVersion: nat, level: nat)
    requires AreTables(t) && 1 <= maxVersion <= 40 && level < 4 && !mode.Eci?
    requires CalcSegmentBufferSize(mode, numChars) > BufferLen(maxVersion)
    ensures forall v: nat | 1 <= v <= maxVersion :: !SegmentFits(mode, numChars, CapacitiesOf(t), v, level)
  {
    hide CapacitiesOf, AreTables, BufferLen, CalcSegmentBitLength;
    if CalcSegmentBitLength(mode, numChars) == LENGTH_OVERFLOW {
      OverflowFitsNothing(mode, numChars);
    } else {
      forall v: nat | 1 <= v <= maxVersion
        ensures !SegmentFits(mode, numChars, CapacitiesOf(t), v, level)
      {
        TooLongForBuffer(mode, numChars, t, v, maxVersion, level);
      }
    }
  }

  /** The bits fit the buffer. */
  lemma BufferLargeEnough(mode: Mode, numChars: nat, maxVersion: nat)
    requires maxVersion <= 40 && !mode.Eci? && CalcSegmentBufferSize(mode, numChars) <= BufferLen(maxVersion)
    ensures CalcSegmentBitLength(mode, numChars) != LENGTH_OVERFLOW
    ensures CalcSegmentBitLength(mode, numChars) <= 8 * BufferLen(maxVersion)
  {
    hide CalcSegmentBitLength;
    SquareGrows(SideLength(maxVersion), 177);
  }

  /** The segment holds the text. */
  ghost predicate HoldsText(s: Segment, text: string)
    requires IsByteText(text)
  {
    && s.mode == TextMode(text) && s.numChars == |text| && WellFormed(s)
    && s.bitLength == CalcSegmentBitLength(s.mode, s.numChars)
    && s.Payload() == TextPayload(text)
  }

  lemma HeldTextRead(s: Segment, text: string)
    requires IsByteText(text) && HoldsText(s, text)
    ensures AreWellFormed([s]) && AreValid([s]) && !s.mode.Eci?
    ensures TextOfAll(Contents([s])) == text
  {
    hide TextOf, TextPayload, IsNumeric, IsAlphanumeric, WellFormed;
    WellFormedIsValid(s);
    OneContent(s);
    TextRead(text);
    assert TextOfAll([]) == "";
    assert [ContentOf(s)][1..] == [];
  }

  /** Copies the characters to the buffer. */
  method CopyText(text: string, buffer: array<Byte>)
    requires IsByteText(text) && |text| <= buffer.Length
    modifies buffer
    ensures buffer[..|text|] == TextBytes(text)
  {
    hide ToBits;
    for i := 0 to |text|
      invariant forall k | 0 <= k < i :: buffer[k] == TextBytes(text)[k]
    {
      buffer[i] := ToBits(text[i] as int, 8);
    }
  }

  lemma TextSegment(s: Segment, text: string)
    requires IsByteText(text) && s.mode == TextMode(text) && s.numChars == |text|
    requires s.bitLength <= 8 * |s.data| && s.bitLength == CalcSegmentBitLength(s.mode, s.numChars)
    requires s.Payload() == TextPayload(text)
    ensures HoldsText(s, text)
  {
    hide TextPayload, IsNumeric, IsAlphanumeric, DataBits;
  }

  /** Builds the segment in the buffer, unless the buffer for the highest version is too short for it. */
  method MakeText(text: string, tempBuffer: array<Byte>, maxVersion: nat) returns (made: bool, seg: Segment)
    requires IsByteText(text) && 1 <= maxVersion <= 40 && BufferLen(maxVersion) <= tempBuffer.Length
    modifies tempBuffer
    ensures made ==> HoldsText(seg, text) && seg.data == tempBuffer[..]
    ensures !made ==> CalcSegmentBufferSize(TextMode(text), |text|) > BufferLen(maxVersion)
  {
    hide CalcSegmentBitLength, BufferLen, GroupBits, TextDigits, DataBits, IsNumeric, IsAlphanumeric, TextBytes,
      CalcSegmentBufferSize, HoldsText;
    made, seg := true, Segment(Byte8, 0, [], 0);
    if CalcSegmentBufferSize(TextMode(text), |text|) <= BufferLen(maxVersion) {
      BufferLargeEnough(TextMode(text), |text|, maxVersion);
    }
    if IsNumeric(text) {
      if CalcSegmentBufferSize(Numeric, |text|) > BufferLen(maxVersion) {
        return false, seg;
      }
      var bitLength, numChars := MakeNumeric(text, tempBuffer);
      seg := Segment(Numeric, numChars, tempBuffer[..], bitLength);
    } else if IsAlphanumeric(text) {
      if CalcSegmentBufferSize(Alphanumeric, |text|) > BufferLen(maxVersion) {
        return false, seg;
      }
      var bitLength, numChars := MakeAlphanumeric(text, tempBuffer);
      seg := Segment(Alphanumeric, numChars, tempBuffer[..], bitLength);
    } else {
      ByteBufferSize(|text|, maxVersion);
      if |text| > BufferLen(maxVersion) {
        return false, seg;
      }
      CopyText(text, tempBuffer);
      var bitLength := CalcSegmentBitLength(Byte8, |text|);
      if bitLength == LENGTH_OVERFLOW {
        return false, seg;
      }
      seg := Segment(Byte8, |text|, tempBuffer[..], bitLength);
      ByteSegment(seg);
    }
    TextSegment(seg, text);
  }

  lemma ByteBufferSize(n: nat, maxVersion: nat)
    requires maxVersion <= 40
    ensures CalcSegmentBitLength(Byte8, n) == LENGTH_OVERFLOW || n > BufferLen(maxVersion)
      ==> CalcSegmentBufferSize(Byte8, n) > BufferLen(maxVersion)
    ensures CalcSegmentBitLength(Byte8, n) != LENGTH_OVERFLOW ==> CalcSegmentBitLength(Byte8, n) == 8 * n
  {
    SquareGrows(SideLength(maxVersion), 177);
  }

  /** Encodes a text, as one segment of the most compact mode, built in the buffer that the encoder uses for the
      codewords.  It fails exactly when no version of the range has room; otherwise reading the symbol gives back
      the text. */
  method EncodeText(text: string, tempBuffer: array<Byte>, qrcode: array<Byte>, t: Tables, ecl: nat, minVersion: nat,
                    maxVersion: nat, mask: int, boostEcl: bool)
    returns (ok: bool, version: nat, level: nat, chosen: int, ghost segs: seq<Segment>)
    requires IsByteText(text) && AreTables(t) && ecl < 4 && -1 <= mask <= 7 && 1 <= minVersion <= maxVersion <= 40
    requires tempBuffer != qrcode
    requires BufferLen(maxVersion) <= tempBuffer.Length && BufferLen(maxVersion) <= qrcode.Length
    modifies tempBuffer, qrcode
    ensures ok <==> exists v: nat | minVersion <= v <= maxVersion :: TextFits(text, CapacitiesOf(t), v, ecl)
    ensures !ok ==> Size(qrcode[..]) == 0
    ensures ok ==> minVersion <= version <= maxVersion && level < 4 && 0 <= chosen < 8
    ensures ok ==> TextFits(text, CapacitiesOf(t), version, level)
                   && forall v: nat | minVersion <= v < version :: !TextFits(text, CapacitiesOf(t), v, ecl)
    ensures ok && !boostEcl ==> level == ecl
    ensures ok && boostEcl ==>
      ecl <= level && forall e: nat | level < e < 4 :: !TextFits(text, CapacitiesOf(t), version, e)
    ensures ok ==> AreValid(segs) && TextOfAll(Contents(segs)) == text
                   && IsQrCode(qrcode[..]) && IsEncoded(View(qrcode), segs, t, version, level, mask, chosen)
    ensures ok ==> IsQrCode(qrcode[..]) && Size(qrcode[..]) == SideLength(version)
    ensures ok ==>
      FitsVersion(t.functionModules[version], t.functionColors[version], t.layouts[level][version], version)
      && TextOfAll(ReadSymbol(View(qrcode), t.functionModules[version], SideLength(version), t.layouts[level][version],
                              chosen, version)) == text
  {
    hide Value, View, Size, IsQrCode, AreTables, CapacitiesOf, BufferLen, FitsVersion, ReadSymbol, Fits, SegmentFits,
      Contents, AreWellFormed, AreValid, AreCapacities, IsEncoded, SideLength, DataBits, TextOfAll, HoldsText,
      TextMode, TextFits;
    segs := [];
    if text == "" {
      EmptyFits(CapacitiesOf(t));
      ok, version, level, chosen :=
        EncodeSegmentsAdvanced([], t, ecl, minVersion, maxVersion, mask, boostEcl, tempBuffer, qrcode);
      return;
    }
    var made, seg := MakeText(text, tempBuffer, maxVersion);
    if !made {
      InvalidSize(qrcode[..], maxVersion);
      qrcode[0] := ZERO;
      TooLongText(text, t, maxVersion, ecl);
      return false, 0, 0, 0, [];
    }
    segs := [seg];
    HeldTextRead(seg, text);
    HeldTextFits(seg, text, CapacitiesOf(t));
    ok, version, level, chosen :=
      EncodeSegmentsAdvanced([seg], t, ecl, minVersion, maxVersion, mask, boostEcl, tempBuffer, qrcode);
  }

  lemma TooLongText(text: string, t: Tables, maxVersion: nat, level: nat)
    requires AreTables(t) && 1 <= maxVersion <= 40 && level < 4 && text != ""
    requires CalcSegmentBufferSize(TextMode(text), |text|) > BufferLen(maxVersion)
    ensures forall v: nat | 1 <= v <= maxVersion :: !TextFits(text, CapacitiesOf(t), v, level)
  {
    hide AreTables, CapacitiesOf, TextMode, SegmentFits;
    BufferTooSmall(TextMode(text), |text|, t, maxVersion, level);
  }

  lemma HeldTextFits(s: Segment, text: string, c: Capacities)
    requires IsByteText(text) && text != "" && HoldsText(s, text) && AreCapacities(c)
    ensures forall v: nat, e: nat | 1 <= v <= 40 && e < 4 :: Fits([s], c, v, e) <==> TextFits(text, c, v, e)
  {
    hide Fits, SegmentFits, TextMode, TextPayload;
    WellFormedIsValid(s);
    forall v: nat, e: nat | 1 <= v <= 40 && e < 4
      ensures Fits([s], c, v, e) <==> TextFits(text, c, v, e)
    {
      SegmentFitsIff(s, c, v, e);
    }
  }

  lemma EmptyFits(c: Capacities)
    requires AreCapacities(c)
    ensures forall v: nat, e: nat | 1 <= v <= 40 && e < 4 :: Fits([], c, v, e) && TextFits("", c, v, e)
    ensures AreWellFormed([]) && AreValid([]) && TextOfAll(Contents([])) == ""
  {
  }

  // ----- the choice of the mode

  /** The mode has a character or a group of them for everything in the text. */
  predicate CanHold(mode: Mode, text: string) {
    (mode == Numeric && IsNumeric(text)) || (mode == Alphanumeric && IsAlphanumeric(text)) || mode == Byte8
  }

  /** No other mode that can hold a text needs as few bits. */
  lemma ModeIsShortest(text: string, mode: Mode)
    requires CanHold(mode, text) && mode != TextMode(text) && text != ""
    ensures CanHold(TextMode(text), text)
    ensures CalcSegmentBitLength(mode, |text|) != LENGTH_OVERFLOW ==>
      0 <= CalcSegmentBitLength(TextMode(text), |text|) < CalcSegmentBitLength(mode, |text|)
  {
    if IsNumeric(text) {
      NumericIsAlphanumeric(text);
    }
  }
}
