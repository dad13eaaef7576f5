/** The data bit string of a symbol: segments, terminator and padding, and reading it back. */
module BitStream {
  import opened Bytes
  import opened BitBuffer
  import opened Segments

  /** A segment; its payload is the first `bitLength` bits of `data`. */
  datatype Segment = Segment(mode: Mode, numChars: nat, data: seq<Byte>, bitLength: nat) {

    ghost predicate Valid() {
      bitLength <= 8 * |data| && numChars <= INT16_MAX && bitLength <= INT16_MAX
    }

    function Payload(): (bits: seq<bool>)
      requires bitLength <= 8 * |data|
      ensures |bits| == bitLength
    {
      DataBits(data)[..bitLength]
    }
  }

  ghost predicate AreValid(segs: seq<Segment>) {
    forall k | 0 <= k < |segs| :: segs[k].Valid()
  }

  predicate IsVersion(version: nat) {
    1 <= version <= 40
  }

  /** The width of the character count field. */
  function NumCharCountBits(mode: Mode, version: nat): (bits: nat)
    requires IsVersion(version)
    ensures bits <= 16
  {
    var i := (version + 7) / 17;
    match mode
    case Numeric => [10, 12, 14][i]
    case Alphanumeric => [9, 11, 13][i]
    case Byte8 => [8, 16, 16][i]
    case Kanji => [8, 10, 12][i]
    case Eci => 0
  }

  // ----- the number of bits

  function SegmentSize(s: Segment, version: nat): nat
    requires IsVersion(version)
  {
    4 + NumCharCountBits(s.mode, version) + s.bitLength
  }

  function StreamSize(segs: seq<Segment>, version: nat): nat
    requires IsVersion(version)
  {
    if segs == [] then 0 else StreamSize(segs[..|segs| - 1], version) + SegmentSize(segs[|segs| - 1], version)
  }

  /** The character counts fit their fields. */
  ghost predicate CountsFit(segs: seq<Segment>, version: nat)
    requires IsVersion(version)
  {
    forall k | 0 <= k < |segs| :: segs[k].numChars < Pow2(NumCharCountBits(segs[k].mode, version))
  }

  ghost predicate Encodable(segs: seq<Segment>, version: nat)
    requires IsVersion(version)
  {
    CountsFit(segs, version) && StreamSize(segs, version) <= INT16_MAX
  }

  lemma {:induction false} StreamSizeGrows(segs: seq<Segment>, version: nat, k: nat)
    requires IsVersion(version) && k <= |segs|
    ensures StreamSize(segs[..k], version) <= StreamSize(segs, version)
  {
    if k < |segs| {
      var most := segs[..|segs| - 1];
      StreamSizeGrows(most, version, k);
      assert most[..k] == segs[..k];
    } else {
      assert segs[..k] == segs;
    }
  }

  /** The number of bits of the segments, or LENGTH_OVERFLOW exactly when a count does not fit its field or
      there are more than INT16_MAX bits. */
  method GetTotalBits(segs: seq<Segment>, version: nat) returns (result: int)
    requires IsVersion(version) && AreValid(segs)
    ensures Encodable(segs, version) ==> result == StreamSize(segs, version)
    ensures !Encodable(segs, version) ==> result == LENGTH_OVERFLOW
  {
    hide Pow2, NumCharCountBits;
    result := 0;
    for i := 0 to |segs|
      invariant result == StreamSize(segs[..i], version) <= INT16_MAX
      invariant CountsFit(segs[..i], version)
    {
      assert segs[..i + 1][..i] == segs[..i];
      var ccbits := NumCharCountBits(segs[i].mode, version);
      StreamSizeGrows(segs, version, i + 1);
      if segs[i].numChars >= Pow2(ccbits) {
        return LENGTH_OVERFLOW;
      }
      result := result + 4 + ccbits + segs[i].bitLength;
      if result > INT16_MAX {
        return LENGTH_OVERFLOW;
      }
    }
    assert segs[..|segs|] == segs;
  }

  // ----- the bits

  function SegmentBits(s: Segment, version: nat): (bits: seq<bool>)
    requires IsVersion(version) && s.bitLength <= 8 * |s.data|
    ensures |bits| == SegmentSize(s, version)
  {
    ToBits(s.mode.Indicator(), 4) + ToBits(s.numChars, NumCharCountBits(s.mode, version)) + s.Payload()
  }

  function StreamBits(segs: seq<Segment>, version: nat): (bits: seq<bool>)
    requires IsVersion(version) && AreValid(segs)
    ensures |bits| == StreamSize(segs, version)
  {
    if segs == [] then []
    else StreamBits(segs[..|segs| - 1], version) + SegmentBits(segs[|segs| - 1], version)
  }

  /** Padding bytes: 0xEC and 0x11 in turn. */
  function PadByte(k: nat): Byte {
    if k % 2 == 0 then [true, true, true, false, true, true, false, false]
    else [false, false, false, true, false, false, false, true]
  }

  function PadBits(n: nat): (bits: seq<bool>)
    ensures |bits| == 8 * n
  {
    if n == 0 then [] else PadBits(n - 1) + PadByte(n - 1)
  }

  function TerminatorSize(used: nat, capacity: nat): nat
    requires used <= 8 * capacity
  {
    if 8 * capacity - used > 4 then 4 else 8 * capacity - used
  }

  /** The number of bytes used by the segments and the terminator. */
  function UsedBytes(used: nat, capacity: nat): (n: nat)
    requires used <= 8 * capacity
    ensures used + TerminatorSize(used, capacity) <= 8 * n <= 8 * capacity
  {
    (used + TerminatorSize(used, capacity) + 7) / 8
  }

  /** The whole data bit string, filling `capacity` bytes exactly. */
  function EncodedBits(segs: seq<Segment>, version: nat, capacity: nat): (bits: seq<bool>)
    requires IsVersion(version) && AreValid(segs) && StreamSize(segs, version) <= 8 * capacity
    ensures |bits| == 8 * capacity
  {
    var used := StreamSize(segs, version);
    var bytes := UsedBytes(used, capacity);
    StreamBits(segs, version) + Zeros(8 * bytes - used) + PadBits(capacity - bytes)
  }

  // ----- writing

  lemma IndicatorFits(mode: Mode)
    ensures mode.Indicator() < Pow2(4)
  {
    assert Pow2(4) == 16;
  }

  lemma OneBit(bit: bool)
    ensures (if bit then 1 else 0) < Pow2(1) && ToBits(if bit then 1 else 0, 1) == [bit]
  {
    assert ToBits(0, 0) == [];
    assert Pow2(1) == 2;
  }

  method AppendSegment(s: Segment, version: nat, qrcode: array<Byte>, bitLen: nat, ghost size: nat, ghost bits: seq<bool>)
    returns (bitLen': nat)
    requires IsVersion(version) && s.Valid() && s.numChars < Pow2(NumCharCountBits(s.mode, version))
    requires Holds(qrcode[..], size, bits) && bitLen == |bits| && bitLen + SegmentSize(s, version) <= 8 * size
    modifies qrcode
    ensures Holds(qrcode[..], size, bits + SegmentBits(s, version)) && bitLen' == bitLen + SegmentSize(s, version)
    ensures forall k | size <= k < qrcode.Length :: qrcode[k] == old(qrcode[k])
  {
    hide Holds, Pow2, ToBits, DataBits, NumCharCountBits, OrBits;
    HoldsSize(qrcode[..], size, bits);
    var ccbits := NumCharCountBits(s.mode, version);
    IndicatorFits(s.mode);
    bitLen' := AppendBitsToBuffer(s.mode.Indicator(), 4, qrcode, bitLen);
    bitLen' := AppendBitsToBuffer(s.numChars, ccbits, qrcode, bitLen');
    ghost var header := bits + ToBits(s.mode.Indicator(), 4) + ToBits(s.numChars, ccbits);
    assert header + s.Payload()[..0] == header;
    for j := 0 to s.bitLength
      invariant bitLen' == bitLen + 4 + ccbits + j
      invariant Holds(qrcode[..], size, header + s.Payload()[..j])
      invariant forall k | size <= k < qrcode.Length :: qrcode[k] == old(qrcode[k])
    {
      var bit := s.data[j / 8][j % 8];
      PayloadBit(s, j);
      OneBit(bit);
      bitLen' := AppendBitsToBuffer(if bit then 1 else 0, 1, qrcode, bitLen');
      assert header + s.Payload()[..j + 1] == header + s.Payload()[..j] + [bit];
    }
    assert s.Payload()[..s.bitLength] == s.Payload();
    assert header + s.Payload() == bits + SegmentBits(s, version);
  }

  lemma HoldsSize(buffer: seq<Byte>, size: nat, bits: seq<bool>)
    requires Holds(buffer, size, bits)
    ensures size <= |buffer|
  {
  }

  lemma PayloadBit(s: Segment, j: nat)
    requires s.Valid() && j < s.bitLength
    ensures s.Payload()[j] == s.data[j / 8][j % 8]
  {
  }

  lemma ZeroBits(n: nat)
    ensures 0 < Pow2(n) && ToBits(0, n) == Zeros(n)
  {
  }

  lemma PadValue(b: Byte)
    ensures Value(b) < Pow2(8) && ToBits(Value(b), 8) == b
  {
    ValueBound(b);
    BitsOfValue(b);
  }

  method AppendSegments(segs: seq<Segment>, version: nat, size: nat, qrcode: array<Byte>) returns (bitLen: nat)
    requires IsVersion(version) && AreValid(segs) && CountsFit(segs, version)
    requires StreamSize(segs, version) <= 8 * size && Holds(qrcode[..], size, [])
    modifies qrcode
    ensures Holds(qrcode[..], size, StreamBits(segs, version)) && bitLen == StreamSize(segs, version)
    ensures forall k | size <= k < qrcode.Length :: qrcode[k] == old(qrcode[k])
  {
    hide Holds, Pow2, NumCharCountBits, SegmentBits, SegmentSize;
    bitLen := 0;
    for i := 0 to |segs|
      invariant bitLen == StreamSize(segs[..i], version)
      invariant Holds(qrcode[..], size, StreamBits(segs[..i], version))
      invariant forall k | size <= k < qrcode.Length :: qrcode[k] == old(qrcode[k])
    {
      assert segs[..i + 1][..i] == segs[..i];
      StreamSizeGrows(segs, version, i + 1);
      bitLen := AppendSegment(segs[i], version, qrcode, bitLen, size, StreamBits(segs[..i], version));
    }
    assert segs[..|segs|] == segs;
  }

  /** Adds the terminator and zeros up to a whole number of bytes. */
  method AppendTerminator(qrcode: array<Byte>, used: nat, capacity: nat, size: nat, ghost bits: seq<bool>)
    returns (bitLen: nat)
    requires Holds(qrcode[..], size, bits) && used == |bits| <= 8 * capacity && capacity <= size
    modifies qrcode
    ensures bitLen == 8 * UsedBytes(used, capacity)
    ensures Holds(qrcode[..], size, bits + Zeros(bitLen - used))
    ensures forall k | size <= k < qrcode.Length :: qrcode[k] == old(qrcode[k])
  {
    hide Holds, Pow2, ToBits, OrBits, DataBits, Zeros;
    HoldsSize(qrcode[..], size, bits);
    var terminatorBits := 8 * capacity - used;
    if terminatorBits > 4 {
      terminatorBits := 4;
    }
    ZeroBits(terminatorBits);
    bitLen := AppendBitsToBuffer(0, terminatorBits, qrcode, used);
    var align := (8 - bitLen % 8) % 8;
    ZeroBits(align);
    AlignedSize(bitLen, capacity);
    bitLen := AppendBitsToBuffer(0, align, qrcode, bitLen);
    ZerosJoin(bits, terminatorBits, align);
  }

  lemma AlignedSize(n: nat, capacity: nat)
    requires n <= 8 * capacity
    ensures n + (8 - n % 8) % 8 == 8 * ((n + 7) / 8) <= 8 * capacity
  {
  }

  lemma ZerosJoin(bits: seq<bool>, m: nat, n: nat)
    ensures bits + Zeros(m) + Zeros(n) == bits + Zeros(m + n)
  {
  }

  /** Adds alternating padding bytes until the capacity is reached. */
  method AppendPadding(qrcode: array<Byte>, bytes: nat, capacity: nat, size: nat, ghost bits: seq<bool>)
    requires Holds(qrcode[..], size, bits) && |bits| == 8 * bytes && bytes <= capacity <= size
    modifies qrcode
    ensures Holds(qrcode[..], size, bits + PadBits(capacity - bytes))
    ensures forall k | size <= k < qrcode.Length :: qrcode[k] == old(qrcode[k])
  {
    hide Holds, Pow2, ToBits, OrBits, DataBits, PadByte;
    HoldsSize(qrcode[..], size, bits);
    var padByte, bitLen := PadByte(0), 8 * bytes;
    ghost var n := 0;
    assert bits + PadBits(0) == bits;
    while bitLen < 8 * capacity
      invariant n <= capacity - bytes && bitLen == 8 * (bytes + n)
      invariant padByte == PadByte(n)
      invariant Holds(qrcode[..], size, bits + PadBits(n))
      invariant forall k | size <= k < qrcode.Length :: qrcode[k] == old(qrcode[k])
      decreases 8 * capacity - bitLen
    {
      PadValue(padByte);
      bitLen := AppendBitsToBuffer(Value(padByte), 8, qrcode, bitLen);
      assert bits + PadBits(n) + padByte == bits + PadBits(n + 1);
      NextPad(n);
      padByte := Xor(padByte, Xor(PadByte(0), PadByte(1)));
      n := n + 1;
    }
  }

  /** Writes the data bit string for a symbol whose data fit; `size` bytes of the buffer are cleared first. */
  method WriteDataBits(segs: seq<Segment>, version: nat, capacity: nat, size: nat, qrcode: array<Byte>)
    requires IsVersion(version) && AreValid(segs) && CountsFit(segs, version)
    requires StreamSize(segs, version) <= 8 * capacity && capacity <= size <= qrcode.Length
    modifies qrcode
    ensures Holds(qrcode[..], size, EncodedBits(segs, version, capacity))
    ensures forall k | size <= k < qrcode.Length :: qrcode[k] == old(qrcode[k])
  {
    hide Holds, PadBits, StreamBits, StreamSize, UsedBytes;
    ZeroBytes(qrcode, size);
    var used := AppendSegments(segs, version, size, qrcode);
    var bitLen := AppendTerminator(qrcode, used, capacity, size, StreamBits(segs, version));
    AppendPadding(qrcode, bitLen / 8, capacity, size, StreamBits(segs, version) + Zeros(bitLen - used));
  }

  lemma NextPad(n: nat)
    ensures Xor(PadByte(n), Xor(PadByte(0), PadByte(1))) == PadByte(n + 1)
  {
    XorCancels(PadByte(0), PadByte(1));
    XorCommutes(PadByte(0), PadByte(1));
    XorCancels(PadByte(1), PadByte(0));
  }

  // ----- reading

  /** What a reader learns about a segment. */
  datatype Content = Content(mode: Mode, numChars: nat, payload: seq<bool>)

  function ContentOf(s: Segment): Content
    requires s.bitLength <= 8 * |s.data|
  {
    Content(s.mode, s.numChars, s.Payload())
  }

  function Contents(segs: seq<Segment>): (c: seq<Content>)
    requires AreValid(segs)
    ensures |c| == |segs|
  {
    seq(|segs|, k requires 0 <= k < |segs| => ContentOf(segs[k]))
  }

  datatype Option<T> = None | Some(value: T)

  function ModeOfIndicator(v: nat): Option<Mode> {
    match v
    case 1 => Some(Numeric)
    case 2 => Some(Alphanumeric)
    case 4 => Some(Byte8)
    case 7 => Some(Eci)
    case 8 => Some(Kanji)
    case _ => None
  }

  /** The number of payload bits of a segment, given the bits that follow its header. */
  function PayloadLength(mode: Mode, numChars: nat, bits: seq<bool>): int {
    if mode.Eci? then EciLength(bits) else CalcSegmentBitLength(mode, numChars)
  }

  /** The payload has the length that its mode and character count say. */
  ghost predicate WellFormed(s: Segment) {
    s.Valid() && PayloadLength(s.mode, s.numChars, s.Payload()) == s.bitLength
  }

  /** Reads segments until a terminator or the end of the bits. */
  function Decode(bits: seq<bool>, version: nat): seq<Content>
    requires IsVersion(version)
    decreases |bits|
  {
    if |bits| < 4 then []
    else
      match ModeOfIndicator(Value(bits[..4]))
      case None => []
      case Some(mode) =>
        var cc := NumCharCountBits(mode, version);
        if |bits| < 4 + cc then []
        else
          var numChars := Value(bits[4..4 + cc]);
          var rest := bits[4 + cc..];
          var length := PayloadLength(mode, numChars, rest);
          if length < 0 || |rest| < length then []
          else [Content(mode, numChars, rest[..length])] + Decode(rest[length..], version)
  }

  lemma PayloadLengthKnown(s: Segment, more: seq<bool>)
    requires WellFormed(s)
    ensures PayloadLength(s.mode, s.numChars, s.Payload() + more) == s.bitLength
  {
    if s.mode.Eci? {
      assert |s.Payload()| >= 8;
      assert (s.Payload() + more)[0] == s.Payload()[0] && (s.Payload() + more)[1] == s.Payload()[1];
    }
  }

  /** One segment at the front is read, and reading goes on after it. */
  lemma DecodeSegment(s: Segment, version: nat, more: seq<bool>)
    requires IsVersion(version) && WellFormed(s) && s.numChars < Pow2(NumCharCountBits(s.mode, version))
    ensures Decode(SegmentBits(s, version) + more, version) == [ContentOf(s)] + Decode(more, version)
  {
    hide Value, ToBits, Pow2, NumCharCountBits, PayloadLength, WellFormed, Segment.Payload;
    WellFormedIsValid(s);
    var cc := NumCharCountBits(s.mode, version);
    var bits := SegmentBits(s, version) + more;
    SegmentParts(s, version, more);
    IndicatorFits(s.mode);
    ValueOfBits(s.mode.Indicator(), 4);
    ValueOfBits(s.numChars, cc);
    PayloadLengthKnown(s, more);
    assert (s.Payload() + more)[..s.bitLength] == s.Payload();
    assert (s.Payload() + more)[s.bitLength..] == more;
  }

  lemma WellFormedIsValid(s: Segment)
    requires WellFormed(s)
    ensures s.Valid()
  {
  }

  lemma SegmentParts(s: Segment, version: nat, more: seq<bool>)
    requires IsVersion(version) && s.bitLength <= 8 * |s.data|
    ensures var bits, cc := SegmentBits(s, version) + more, NumCharCountBits(s.mode, version);
      |bits| >= 4 + cc && bits[..4] == ToBits(s.mode.Indicator(), 4) && bits[4..4 + cc] == ToBits(s.numChars, cc)
      && bits[4 + cc..] == s.Payload() + more
  {
    hide ToBits, NumCharCountBits, Segment.Payload;
  }

  ghost predicate AreWellFormed(segs: seq<Segment>) {
    forall k | 0 <= k < |segs| :: WellFormed(segs[k])
  }

  lemma {:induction false} DecodeStream(segs: seq<Segment>, version: nat, more: seq<bool>)
    requires IsVersion(version) && AreWellFormed(segs) && AreValid(segs) && CountsFit(segs, version)
    ensures Decode(StreamBits(segs, version) + more, version) == Contents(segs) + Decode(more, version)
    decreases |segs|
  {
    hide WellFormed, Pow2, NumCharCountBits, Decode, SegmentBits, ContentOf;
    if segs == [] {
      assert StreamBits(segs, version) + more == more;
    } else {
      var m := |segs| - 1;
      var s := segs[m];
      assert StreamBits(segs, version) + more == StreamBits(segs[..m], version) + (SegmentBits(s, version) + more);
      DecodeStream(segs[..m], version, SegmentBits(s, version) + more);
      DecodeSegment(s, version, more);
      assert Contents(segs) == Contents(segs[..m]) + [ContentOf(s)];
    }
  }

  lemma DecodeEnd(bits: seq<bool>, version: nat)
    requires IsVersion(version)
    requires |bits| >= 4 ==> bits[..4] == Zeros(4)
    ensures Decode(bits, version) == []
  {
    if |bits| >= 4 {
      ZeroBits(4);
      ValueOfBits(0, 4);
    }
  }

  /** Reading the data bit string gives back the segments. */
  lemma StreamRoundTrip(segs: seq<Segment>, version: nat, capacity: nat)
    requires IsVersion(version) && AreWellFormed(segs) && AreValid(segs) && CountsFit(segs, version)
    requires StreamSize(segs, version) <= 8 * capacity
    ensures Decode(EncodedBits(segs, version, capacity), version) == Contents(segs)
  {
    hide WellFormed, Decode, NumCharCountBits, StreamBits, StreamSize, Pow2;
    var used := StreamSize(segs, version);
    var bytes := UsedBytes(used, capacity);
    var more := Zeros(8 * bytes - used) + PadBits(capacity - bytes);
    assert EncodedBits(segs, version, capacity) == StreamBits(segs, version) + more;
    DecodeStream(segs, version, more);
    if |more| >= 4 {
      assert 8 * bytes - used >= 4;
      assert more[..4] == Zeros(4);
    }
    DecodeEnd(more, version);
  }
}
