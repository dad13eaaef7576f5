/** The data bit string in the numbers of ISO/IEC 18004: mode indicators, widths of the character counts, lengths of the
    payloads, characters, terminator and padding. */
module StreamLayout {
  import opened Bytes
  import opened Grid
  import opened Segments
  import opened BitStream

  // ----- headers

  /** The number of bits of a segment besides its payload, by mode, for versions 1-9, 10-26 and 27-40. */
  lemma HeaderSize(s: Segment, version: nat)
    requires IsVersion(version)
    ensures var header := StreamSize([s], version) - s.bitLength;
      match s.mode
      case Numeric => header == if version <= 9 then 14 else if version <= 26 then 16 else 18
      case Alphanumeric => header == if version <= 9 then 13 else if version <= 26 then 15 else 17
      case Byte8 => header == if version <= 9 then 12 else 20
      case Kanji => header == if version <= 9 then 12 else if version <= 26 then 14 else 16
      case Eci => header == 4
  {
    assert StreamSize([s][..0], version) == 0;
  }

  /** The four bits that begin a segment. */
  lemma IndicatorBits(s: Segment, version: nat)
    requires IsVersion(version) && s.Valid()
    ensures AreValid([s]) && |StreamBits([s], version)| >= 4
    ensures StreamBits([s], version)[..4] ==
      match s.mode
      case Numeric => [false, false, false, true]
      case Alphanumeric => [false, false, true, false]
      case Byte8 => [false, true, false, false]
      case Kanji => [true, false, false, false]
      case Eci => [false, true, true, true]
  {
    hide NumCharCountBits, ToBits;
    OneSegment(s, version);
    FourBits(s.mode.Indicator());
  }

  lemma OneSegment(s: Segment, version: nat)
    requires IsVersion(version) && s.Valid()
    ensures AreValid([s]) && StreamBits([s], version) == SegmentBits(s, version)
  {
    assert StreamBits([s][..0], version) == [];
  }

  lemma FourBits(v: nat)
    ensures ToBits(v, 4) == [v / 8 % 2 == 1, v / 4 % 2 == 1, v / 2 % 2 == 1, v % 2 == 1]
  {
    assert ToBits(v / 2, 3) == ToBits(v / 2 / 2, 2) + [v / 2 % 2 == 1];
    assert ToBits(v / 4, 2) == ToBits(v / 4 / 2, 1) + [v / 4 % 2 == 1];
    assert ToBits(v / 8, 1) == ToBits(v / 8 / 2, 0) + [v / 8 % 2 == 1];
    assert v / 2 / 2 == v / 4 && v / 4 / 2 == v / 8;
  }

  /** After the indicator comes the number of characters, up to where the payload begins. */
  lemma CountAndPayload(s: Segment, version: nat)
    requires IsVersion(version) && s.Valid() && s.numChars < Pow2(NumCharCountBits(s.mode, version))
    ensures AreValid([s])
    ensures var bits, header := StreamBits([s], version), StreamSize([s], version) - s.bitLength;
      4 <= header <= |bits| && Value(bits[4..header]) == s.numChars && bits[header..] == s.Payload()
  {
    hide NumCharCountBits, Pow2, Value, ToBits;
    OneSegment(s, version);
    assert StreamSize([s][..0], version) == 0;
    var w := NumCharCountBits(s.mode, version);
    ValueOfBits(s.numChars, w);
    var bits := SegmentBits(s, version);
    assert bits[4..4 + w] == ToBits(s.numChars, w);
  }

  /** Every segment lies where the segments before it end. */
  lemma {:induction false} SegmentInStream(segs: seq<Segment>, version: nat, k: nat)
    requires IsVersion(version) && AreValid(segs) && k < |segs|
    ensures var start, size := StreamSize(segs[..k], version), StreamSize([segs[k]], version);
      AreValid([segs[k]]) && start + size <= |StreamBits(segs, version)|
      && StreamBits(segs, version)[start..start + size] == StreamBits([segs[k]], version)
    decreases |segs|
  {
    hide SegmentBits, SegmentSize, Segment.Valid;
    OneSegment(segs[k], version);
    assert StreamSize([segs[k]][..0], version) == 0;
    var n := |segs| - 1;
    if k < n {
      SegmentInStream(segs[..n], version, k);
      assert segs[..n][..k] == segs[..k];
    }
  }

  // ----- terminator and padding

  /** After the segments come up to four zeros, zeros to the end of the byte, and the bytes 0xEC and 0x11 in turn. */
  lemma EncodedTail(segs: seq<Segment>, version: nat, capacity: nat) returns (bytes: nat)
    requires IsVersion(version) && AreValid(segs) && StreamSize(segs, version) <= 8 * capacity
    ensures var e, used := EncodedBits(segs, version, capacity), StreamSize(segs, version);
      && |e| == 8 * capacity && e[..used] == StreamBits(segs, version)
      && used <= 8 * bytes <= 8 * capacity
      && (8 * bytes - used >= 4 || bytes == capacity) && 8 * bytes - used < 12
      && (forall i | used <= i < 8 * bytes :: !e[i])
      && (forall j | bytes <= j < capacity ::
            e[8 * j..8 * j + 8] == ToBits(if (j - bytes) % 2 == 0 then 0xEC else 0x11, 8))
  {
    hide StreamSize, StreamBits, ToBits, UsedBytes, TerminatorSize, EncodedBits, PadBits;
    var used := StreamSize(segs, version);
    bytes := UsedBytes(used, capacity);
    UsedBytesAre(used, capacity);
    EncodedParts(segs, version, capacity);
    forall j | bytes <= j < capacity
      ensures EncodedBits(segs, version, capacity)[8 * j..8 * j + 8]
           == ToBits(if (j - bytes) % 2 == 0 then 0xEC else 0x11, 8)
    {
      PaddingAt(EncodedBits(segs, version, capacity), bytes, capacity, j);
    }
  }

  lemma PaddingAt(e: seq<bool>, bytes: nat, capacity: nat, j: nat)
    requires bytes <= j < capacity && |e| == 8 * capacity && e[8 * bytes..] == PadBits(capacity - bytes)
    ensures e[8 * j..8 * j + 8] == ToBits(if (j - bytes) % 2 == 0 then 0xEC else 0x11, 8)
  {
    hide ToBits, PadBits, PadByte;
    PadBitsAt(capacity - bytes, j - bytes);
    PadByteBits(j - bytes);
    SliceOfTail(e, 8 * bytes, 8 * (j - bytes));
  }

  lemma UsedBytesAre(used: nat, capacity: nat)
    requires used <= 8 * capacity
    ensures var bytes := UsedBytes(used, capacity);
      used <= 8 * bytes <= 8 * capacity && (8 * bytes - used >= 4 || bytes == capacity) && 8 * bytes - used < 12
  {
  }

  lemma EncodedParts(segs: seq<Segment>, version: nat, capacity: nat)
    requires IsVersion(version) && AreValid(segs) && StreamSize(segs, version) <= 8 * capacity
    ensures var e, used := EncodedBits(segs, version, capacity), StreamSize(segs, version);
      var bytes := UsedBytes(used, capacity);
      && |e| == 8 * capacity && e[..used] == StreamBits(segs, version)
      && (forall i | used <= i < 8 * bytes :: !e[i])
      && e[8 * bytes..] == PadBits(capacity - bytes)
  {
    hide StreamSize, StreamBits, UsedBytes, TerminatorSize, PadBits;
  }

  lemma SliceOfTail(e: seq<bool>, start: nat, k: nat)
    requires start + k + 8 <= |e|
    ensures e[start..][k..k + 8] == e[start + k..start + k + 8]
  {
  }

  lemma {:induction false} PadBitsAt(n: nat, j: nat)
    requires j < n
    ensures PadBits(n)[8 * j..8 * j + 8] == PadByte(j)
  {
    hide PadByte;
    if j < n - 1 {
      PadBitsAt(n - 1, j);
    }
  }

  lemma PadByteBits(k: nat)
    ensures PadByte(k) == ToBits(if k % 2 == 0 then 0xEC else 0x11, 8)
  {
    hide ToBits;
    var v := if k % 2 == 0 then 0xEC else 0x11;
    EightBits(v);
    FourBits(v / 16);
    FourBits(v);
  }

  lemma EightBits(v: nat)
    ensures ToBits(v, 8) == ToBits(v / 16, 4) + ToBits(v, 4)
  {
    hide ToBits;
    NextBits(v, 7);
    NextBits(v / 2, 6);
    NextBits(v / 4, 5);
    NextBits(v / 8, 4);
    NextBits(v, 3);
    NextBits(v / 2, 2);
    NextBits(v / 4, 1);
    NextBits(v / 8, 0);
    assert v / 2 / 2 == v / 4 && v / 4 / 2 == v / 8 && v / 8 / 2 == v / 16;
    NoBits(v / 16);
  }

  lemma NextBits(v: nat, n: nat)
    ensures ToBits(v, n + 1) == ToBits(v / 2, n) + [v % 2 == 1]
  {
  }

  lemma NoBits(v: nat)
    ensures ToBits(v, 0) == []
  {
  }

  // ----- payloads

  /** The payload of n characters has ceil(10n/3), ceil(11n/2), 8n or 13n bits, unless these or the characters are more
      than 32767. */
  lemma PayloadLengths(n: nat)
    ensures var r := CalcSegmentBitLength(Numeric, n);
      (r == LENGTH_OVERFLOW <==> n > 9830) && (r != LENGTH_OVERFLOW ==> 3 * r - 3 < 10 * n <= 3 * r)
    ensures var r := CalcSegmentBitLength(Alphanumeric, n);
      (r == LENGTH_OVERFLOW <==> n > 5957) && (r != LENGTH_OVERFLOW ==> 2 * r - 2 < 11 * n <= 2 * r)
    ensures CalcSegmentBitLength(Byte8, n) == if n > 4095 then LENGTH_OVERFLOW else 8 * n
    ensures CalcSegmentBitLength(Kanji, n) == if n > 2520 then LENGTH_OVERFLOW else 13 * n
  {
  }

  /** The 45 characters of alphanumeric mode, in their order. */
  const CHARSET: string := "0123456789" + "ABCDEFGHIJKLMNOPQRSTUVWXYZ" + " $%*+-./:"

  lemma CharsetIs(d: nat)
    requires d < 45
    ensures |CHARSET| == 45 && CharOfDigit(d) == CHARSET[d] && CharsetIndex(CHARSET[d]) == d
  {
    hide CharsetIndex;
    CharsetInverse(d, CharOfDigit(d));
    if d == 0 {} else if d == 1 {} else if d == 2 {} else if d == 3 {} else if d == 4 {} else if d == 5 {}
    else if d == 6 {} else if d == 7 {} else if d == 8 {} else if d == 9 {} else if d == 10 {}
    else if d == 11 {} else if d == 12 {} else if d == 13 {} else if d == 14 {} else if d == 15 {}
    else if d == 16 {} else if d == 17 {} else if d == 18 {} else if d == 19 {} else if d == 20 {}
    else if d == 21 {} else if d == 22 {} else if d == 23 {} else if d == 24 {} else if d == 25 {}
    else if d == 26 {} else if d == 27 {} else if d == 28 {} else if d == 29 {} else if d == 30 {}
    else if d == 31 {} else if d == 32 {} else if d == 33 {} else if d == 34 {} else if d == 35 {}
    else if d == 36 {} else if d == 37 {} else if d == 38 {} else if d == 39 {} else if d == 40 {}
    else if d == 41 {} else if d == 42 {} else if d == 43 {} else {}
  }

  /** Three digits make ten bits, two seven and one four; two characters make eleven bits and one six. */
  lemma GroupsOfText(a: nat, b: nat, c: nat)
    ensures GroupBits(NUMERIC, [a, b, c]) == ToBits(100 * a + 10 * b + c, 10)
    ensures GroupBits(NUMERIC, [a, b]) == ToBits(10 * a + b, 7)
    ensures GroupBits(NUMERIC, [a]) == ToBits(a, 4)
    ensures GroupBits(ALPHANUMERIC, [a, b]) == ToBits(45 * a + b, 11)
    ensures GroupBits(ALPHANUMERIC, [a]) == ToBits(a, 6)
  {
    hide ToBits, FromDigits, GroupBits;
    OneGroup(NUMERIC, [a, b, c]);
    OneGroup(NUMERIC, [a, b]);
    OneGroup(NUMERIC, [a]);
    OneGroup(ALPHANUMERIC, [a, b]);
    OneGroup(ALPHANUMERIC, [a]);
    DigitsValue(a, b, c, 10);
    DigitsValue(a, b, c, 45);
  }

  lemma DigitsValue(a: nat, b: nat, c: nat, base: nat)
    ensures FromDigits([a], base) == a && FromDigits([a, b], base) == a * base + b
    ensures FromDigits([a, b, c], base) == (a * base + b) * base + c
  {
    assert [a, b, c][..2] == [a, b] && [a, b][..1] == [a] && [a][..0] == [];
  }

  /** The designator of an assignment value is one byte, two that begin with 10, or three that begin with 110. */
  lemma EciValue(v: nat)
    requires v < 1000000
    ensures |EciBits(v)| == if v < 128 then 8 else if v < 16384 then 16 else 24
    ensures Value(EciBits(v)) == if v < 128 then v else if v < 16384 then 0x8000 + v else 0xC0_0000 + v
  {
    hide Value, ToBits, Pow2;
    EciPowers();
    Pow2Add(11, 10);
    if v < 128 {
      ValueOfBits(v, 8);
    } else if v < 16384 {
      ValueOfBits(v, 14);
      ValueConcat([true, false], ToBits(v, 14));
      Prefixes();
    } else {
      ValueOfBits(v / 1024, 11);
      ValueOfBits(v % 1024, 10);
      ValueConcat(ToBits(v / 1024, 11), ToBits(v % 1024, 10));
      ValueConcat([true, true, false], ToBits(v / 1024, 11) + ToBits(v % 1024, 10));
      Prefixes();
    }
  }

  lemma Prefixes()
    ensures Value([true, false]) == 2 && Value([true, true, false]) == 6
  {
    assert [true, true, false][..2] == [true, true] && [true, true][..1] == [true] && [true, false][..1] == [true];
    assert [true][..0] == [];
  }

  // ----- the packed grid

  /** Module `i` is bit `i % 8` of byte `i / 8 + 1`, counted from the least significant bit. */
  lemma ModuleBit(q: seq<Byte>, i: nat)
    requires IsQrCode(q) && i < Size(q) * Size(q)
    ensures i / 8 + 1 < |q| && Pow2(i % 8) > 0
    ensures Modules(q)[i] <==> Value(q[i / 8 + 1]) / Pow2(i % 8) % 2 == 1
  {
    hide Value, Pow2, Size;
    ModuleAt(q, i);
    BitValue(q[i / 8 + 1], i % 8);
  }

  /** The bits of a sequence of bytes are those of the first byte, then those of the second, and so on, each from the
      most significant on. */
  lemma BitsOfByte(data: seq<Byte>, j: nat, k: nat)
    requires j < |data| && k < 8
    ensures Pow2(k) > 0 && (DataBits(data)[8 * j + 7 - k] <==> Value(data[j]) / Pow2(k) % 2 == 1)
  {
    hide Value, Pow2;
    BitValue(data[j], k);
    assert (8 * j + (7 - k)) / 8 == j && (8 * j + (7 - k)) % 8 == 7 - k;
  }
}
