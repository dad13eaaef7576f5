/** Segments of text: groups of characters as digits of a number, each number in a fixed count of bits. */
module Segments {
  import opened Arithmetic
  import opened Bytes
  import opened BitBuffer

  datatype Mode = Numeric | Alphanumeric | Byte8 | Kanji | Eci {

    /** The mode indicator that starts a segment. */
    function Indicator(): nat {
      match this
      case Numeric => 1
      case Alphanumeric => 2
      case Byte8 => 4
      case Kanji => 8
      case Eci => 7
    }
  }

  const INT16_MAX := 32767
  const LENGTH_OVERFLOW := -1

  /** The number of data bits of a segment, or LENGTH_OVERFLOW; ECI segments have at most this many. */
  function CalcSegmentBitLength(mode: Mode, numChars: nat): (bits: int)
    requires mode.Eci? ==> numChars == 0
  {
    if numChars > INT16_MAX then LENGTH_OVERFLOW
    else
      var result :=
        match mode
        case Numeric => (numChars * 10 + 2) / 3
        case Alphanumeric => (numChars * 11 + 1) / 2
        case Byte8 => numChars * 8
        case Kanji => numChars * 13
        case Eci => 3 * 8;
      if result > INT16_MAX then LENGTH_OVERFLOW else result
  }

  // ----- groups of digits

  /** Digits in some base, taken `group` at a time. */
  datatype Coding = Coding(base: nat, group: nat) {

    /** The number of bits for a group of `k` digits. */
    function Width(k: nat): nat {
      if base == 10 then (if k == 0 then 0 else 3 * k + 1)
      else if k == 2 then 11
      else if k == 1 then 6
      else 0
    }
  }

  const NUMERIC := Coding(10, 3)
  const ALPHANUMERIC := Coding(45, 2)

  ghost predicate IsCoding(c: Coding) {
    c == NUMERIC || c == ALPHANUMERIC
  }

  ghost predicate AreDigits(ds: seq<nat>, base: nat) {
    forall k | 0 <= k < |ds| :: ds[k] < base
  }

  /** The number with these digits. */
  function FromDigits(ds: seq<nat>, base: nat): nat {
    if ds == [] then 0 else FromDigits(ds[..|ds| - 1], base) * base + ds[|ds| - 1]
  }

  /** The last `k` digits of a number. */
  function ToDigits(v: nat, k: nat, base: nat): (ds: seq<nat>)
    requires base > 0
    ensures |ds| == k
    decreases k
  {
    if k == 0 then []
    else
      DivMod(v, base);
      ToDigits(v / base, k - 1, base) + [v % base]
  }

  lemma {:induction false} DigitsRoundTrip(ds: seq<nat>, base: nat)
    requires base > 0 && AreDigits(ds, base)
    ensures ToDigits(FromDigits(ds, base), |ds|, base) == ds
  {
    if ds != [] {
      var m := |ds| - 1;
      DigitsRoundTrip(ds[..m], base);
      LastDigit(FromDigits(ds[..m], base), base, ds[m]);
    }
  }

  lemma LastDigit(v: nat, base: nat, d: nat)
    requires d < base
    ensures (v * base + d) / base == v && (v * base + d) % base == d
  {
    DivModUnique(d, v, base);
  }

  /** The bits of the digits, group by group. */
  function GroupBits(c: Coding, ds: seq<nat>): seq<bool>
    requires c.group > 0
  {
    if |ds| < c.group then ToBits(FromDigits(ds, c.base), c.Width(|ds|))
    else ToBits(FromDigits(ds[..c.group], c.base), c.Width(c.group)) + GroupBits(c, ds[c.group..])
  }

  /** Reads `n` digits back, group by group. */
  function DecodeGroups(c: Coding, n: nat, bits: seq<bool>): (ds: seq<nat>)
    requires c.group > 0 && c.base > 0
    ensures |ds| == n
  {
    var k := if n < c.group then n else c.group;
    var w := if c.Width(k) <= |bits| then c.Width(k) else |bits|;
    var ds := ToDigits(Value(bits[..w]), k, c.base);
    if n < c.group then ds else ds + DecodeGroups(c, n - k, bits[w..])
  }

  /** A group of digits fits its bits. */
  lemma GroupFits(c: Coding, ds: seq<nat>)
    requires IsCoding(c) && |ds| <= c.group && AreDigits(ds, c.base)
    ensures FromDigits(ds, c.base) < Pow2(c.Width(|ds|))
  {
    PowersOfTwo();
    if |ds| > 0 {
      var a := ds[..|ds| - 1];
      if |a| > 0 {
        var b := a[..|a| - 1];
        if |b| > 0 {
          assert b[..|b| - 1] == [];
        }
      }
    }
  }

  lemma PowersOfTwo()
    ensures Pow2(0) == 1 && Pow2(4) == 16 && Pow2(6) == 64 && Pow2(7) == 128 && Pow2(10) == 1024 && Pow2(11) == 2048
  {
    assert Pow2(4) == 16;
    assert Pow2(8) == 256;
  }

  lemma {:induction false} GroupBitsLength(c: Coding, ds: seq<nat>)
    requires IsCoding(c)
    ensures |GroupBits(c, ds)| == if c == NUMERIC then (|ds| * 10 + 2) / 3 else (|ds| * 11 + 1) / 2
    decreases |ds|
  {
    if |ds| >= c.group {
      GroupBitsLength(c, ds[c.group..]);
    }
  }

  /** One group at the front is decoded, and decoding goes on after it. */
  lemma DecodeGroup(c: Coding, n: nat, head: seq<nat>, bits: seq<bool>)
    requires IsCoding(c) && AreDigits(head, c.base)
    requires |head| == if n < c.group then n else c.group
    ensures var group := ToBits(FromDigits(head, c.base), c.Width(|head|));
      DecodeGroups(c, n, group + bits) == head + if n < c.group then [] else DecodeGroups(c, n - |head|, bits)
  {
    hide FromDigits, ToDigits, Value, Pow2, ToBits, Coding.Width;
    GroupFits(c, head);
    DigitsRoundTrip(head, c.base);
    var group := ToBits(FromDigits(head, c.base), c.Width(|head|));
    ValueOfBits(FromDigits(head, c.base), c.Width(|head|));
    assert (group + bits)[..|group|] == group && (group + bits)[|group|..] == bits;
  }

  /** Decoding the groups returns the digits, whatever follows them. */
  lemma {:induction false} GroupsRoundTrip(c: Coding, ds: seq<nat>, rest: seq<bool>)
    requires IsCoding(c) && AreDigits(ds, c.base)
    ensures DecodeGroups(c, |ds|, GroupBits(c, ds) + rest) == ds
    decreases |ds|
  {
    hide FromDigits, DecodeGroups, ToBits, Coding.Width;
    if |ds| < c.group {
      DecodeGroup(c, |ds|, ds, rest);
    } else {
      var k := c.group;
      GroupsRoundTrip(c, ds[k..], rest);
      DecodeGroup(c, |ds|, ds[..k], GroupBits(c, ds[k..]) + rest);
      var group := ToBits(FromDigits(ds[..k], c.base), c.Width(k));
      assert GroupBits(c, ds) + rest == group + (GroupBits(c, ds[k..]) + rest);
      assert ds == ds[..k] + ds[k..];
    }
  }

  /** Complete groups can be encoded one after another. */
  lemma {:induction false} GroupBitsAppend(c: Coding, ds: seq<nat>, more: seq<nat>)
    requires IsCoding(c) && |ds| % c.group == 0
    ensures GroupBits(c, ds + more) == GroupBits(c, ds) + GroupBits(c, more)
    decreases |ds|
  {
    hide FromDigits, ToBits, GroupBits;
    if ds == [] {
      assert ds + more == more;
      NoDigits(c);
    } else {
      var g := c.group;
      GroupBitsAppend(c, ds[g..], more);
      FirstGroup(c, ds);
      FirstGroup(c, ds + more);
      assert (ds + more)[..g] == ds[..g] && (ds + more)[g..] == ds[g..] + more;
    }
  }

  lemma FirstGroup(c: Coding, ds: seq<nat>)
    requires IsCoding(c) && |ds| >= c.group
    ensures GroupBits(c, ds)
         == ToBits(FromDigits(ds[..c.group], c.base), c.Width(c.group)) + GroupBits(c, ds[c.group..])
  {
    hide FromDigits, ToBits;
  }

  lemma NoDigits(c: Coding)
    requires IsCoding(c)
    ensures GroupBits(c, []) == []
  {
  }

  // ----- characters

  /** The characters of alphanumeric mode after the digits and the capital letters. */
  const SYMBOLS: string := " $%*+-./:"

  /** The position of a character in "0123456789ABCDEFGHIJKLMNOPQRSTUVWXYZ $%*+-./:", or -1. */
  function CharsetIndex(c: char): (d: int)
    ensures -1 <= d < 45
  {
    if '0' <= c <= '9' then c as int - '0' as int
    else if 'A' <= c <= 'Z' then c as int - 'A' as int + 10
    else match c
      case ' ' => 36
      case '$' => 37
      case '%' => 38
      case '*' => 39
      case '+' => 40
      case '-' => 41
      case '.' => 42
      case '/' => 43
      case ':' => 44
      case _ => -1
  }

  function CharOfDigit(d: nat): char
    requires d < 45
  {
    if d < 10 then ('0' as int + d) as char
    else if d < 36 then ('A' as int + d - 10) as char
    else SYMBOLS[d - 36]
  }

  /** The characters and their positions determine each other. */
  lemma CharsetInverse(d: nat, c: char)
    requires d < 45
    ensures CharOfDigit(d) == c <==> CharsetIndex(c) == d
  {
  }

  predicate IsNumeric(text: string) {
    forall k | 0 <= k < |text| :: '0' <= text[k] <= '9'
  }

  predicate IsAlphanumeric(text: string) {
    forall k | 0 <= k < |text| :: CharsetIndex(text[k]) >= 0
  }

  lemma NumericIsAlphanumeric(text: string)
    requires IsNumeric(text)
    ensures IsAlphanumeric(text)
  {
  }

  function TextDigits(text: string): (ds: seq<nat>)
    requires IsAlphanumeric(text)
    ensures |ds| == |text| && AreDigits(ds, 45)
    ensures IsNumeric(text) ==> AreDigits(ds, 10)
  {
    seq(|text|, k requires 0 <= k < |text| => CharsetIndex(text[k]))
  }

  function TextOfDigits(ds: seq<nat>): (text: string)
    requires AreDigits(ds, 45)
    ensures |text| == |ds|
  {
    seq(|ds|, k requires 0 <= k < |ds| => CharOfDigit(ds[k]))
  }

  lemma TextDigitsInverse(text: string)
    requires IsAlphanumeric(text)
    ensures TextOfDigits(TextDigits(text)) == text
  {
    hide CharOfDigit, CharsetIndex;
    forall k | 0 <= k < |text|
      ensures CharOfDigit(TextDigits(text)[k]) == text[k]
    {
      CharsetInverse(TextDigits(text)[k], text[k]);
    }
  }

  /** Decoding a numeric or alphanumeric segment returns the text. */
  lemma TextRoundTrip(c: Coding, text: string, rest: seq<bool>)
    requires IsCoding(c) && IsAlphanumeric(text) && (c == NUMERIC ==> IsNumeric(text))
    ensures var ds := DecodeGroups(c, |text|, GroupBits(c, TextDigits(text)) + rest);
      AreDigits(ds, 45) && TextOfDigits(ds) == text
  {
    hide DecodeGroups, GroupBits, TextOfDigits, TextDigits;
    GroupsRoundTrip(c, TextDigits(text), rest);
    TextDigitsInverse(text);
  }

  // ----- building segments

  /** A segment of digits in groups: the bits of the complete groups have been written. */
  ghost predicate GroupsWritten(c: Coding, ds: seq<nat>, i: nat, count: nat, value: nat, buffer: seq<Byte>, size: nat,
                                bitLen: nat)
    requires IsCoding(c)
  {
    && count <= c.group && count <= i <= |ds| && (i - count) % c.group == 0
    && value == FromDigits(ds[i - count..i], c.base)
    && bitLen == |GroupBits(c, ds[..i - count])|
    && Holds(buffer, size, GroupBits(c, ds[..i - count]))
  }

  ghost predicate FitsBuffer(c: Coding, ds: seq<nat>, size: nat)
    requires IsCoding(c)
  {
    AreDigits(ds, c.base) && size == (|GroupBits(c, ds)| + 7) / 8
  }

  /** The bits of a group that is now complete fit in the buffer and extend the bits before it. */
  lemma GroupCompleted(c: Coding, ds: seq<nat>, start: nat, end: nat)
    requires IsCoding(c) && AreDigits(ds, c.base)
    requires start < end <= |ds| && start % c.group == 0
    requires end == start + c.group || (end == |ds| && end < start + c.group)
    ensures var bits := ToBits(FromDigits(ds[start..end], c.base), c.Width(end - start));
      GroupBits(c, ds[..end]) == GroupBits(c, ds[..start]) + bits
    ensures FromDigits(ds[start..end], c.base) < Pow2(c.Width(end - start))
    ensures |GroupBits(c, ds[..end])| <= |GroupBits(c, ds)|
    ensures |GroupBits(c, ds[..end])| == |GroupBits(c, ds[..start])| + c.Width(end - start)
  {
    hide FromDigits, ToBits, GroupBits, Pow2;
    var group := ds[start..end];
    GroupFits(c, group);
    GroupBitsAppend(c, ds[..start], group);
    assert ds[..start] + group == ds[..end];
    OneGroup(c, group);
    GroupBitsLength(c, ds[..end]);
    GroupBitsLength(c, ds);
  }

  lemma OneGroup(c: Coding, ds: seq<nat>)
    requires IsCoding(c) && |ds| <= c.group
    ensures GroupBits(c, ds) == ToBits(FromDigits(ds, c.base), c.Width(|ds|))
  {
    hide ToBits, FromDigits;
    if |ds| == c.group {
      assert ds[..c.group] == ds && ds[c.group..] == [];
      NoDigits(c);
    }
  }

  lemma NextDigit(c: Coding, ds: seq<nat>, start: nat, i: nat)
    requires start <= i < |ds|
    ensures FromDigits(ds[start..i + 1], c.base) == FromDigits(ds[start..i], c.base) * c.base + ds[i]
    ensures start == i ==> FromDigits(ds[start..i], c.base) == 0
  {
    assert ds[start..i + 1][..i - start] == ds[start..i];
  }

  lemma NothingWritten(c: Coding, ds: seq<nat>, buffer: seq<Byte>, size: nat)
    requires IsCoding(c) && Holds(buffer, size, [])
    ensures GroupsWritten(c, ds, 0, 0, 0, buffer, size, 0)
  {
    assert ds[..0] == [] && ds[0..0] == [];
    NoDigits(c);
  }

  /** One more digit. */
  lemma DigitAdded(c: Coding, ds: seq<nat>, i: nat, count: nat, value: nat, buffer: seq<Byte>, size: nat, bitLen: nat)
    requires IsCoding(c) && FitsBuffer(c, ds, size) && count < c.group && i < |ds|
    requires count <= i && GroupsWritten(c, ds, i, count, value, buffer, size, bitLen)
    ensures GroupsWritten(c, ds, i + 1, count + 1, value * c.base + ds[i], buffer, size, bitLen)
  {
    hide GroupBits, Pow2, DataBits;
    NextDigit(c, ds, i - count, i);
  }

  /** The number of a complete group, or of the shorter last one, fits its bits and the bits fit the buffer. */
  lemma GroupToAppend(c: Coding, ds: seq<nat>, i: nat, count: nat, value: nat, buffer: seq<Byte>, size: nat, bitLen: nat)
    requires IsCoding(c) && FitsBuffer(c, ds, size) && 0 < count <= i <= |ds|
    requires count == c.group || (count < c.group && i == |ds|)
    requires GroupsWritten(c, ds, i, count, value, buffer, size, bitLen)
    ensures value < Pow2(c.Width(count)) && bitLen + c.Width(count) <= 8 * size <= 8 * |buffer|
    ensures Holds(buffer, size, GroupBits(c, ds[..i - count])) && bitLen == |GroupBits(c, ds[..i - count])|
  {
    hide GroupBits, Pow2, DataBits;
    GroupCompleted(c, ds, i - count, i);
  }

  /** The bits of a group have been appended. */
  lemma GroupAdded(c: Coding, ds: seq<nat>, i: nat, count: nat, value: nat, before: seq<Byte>, after: seq<Byte>,
                   size: nat, bitLen: nat)
    requires IsCoding(c) && FitsBuffer(c, ds, size) && 0 < count <= i <= |ds|
    requires bitLen >= c.Width(count)
    requires GroupsWritten(c, ds, i, count, value, before, size, bitLen - c.Width(count))
    requires count == c.group || i == |ds|
    requires Holds(after, size, GroupBits(c, ds[..i - count]) + ToBits(value, c.Width(count)))
    ensures Holds(after, size, GroupBits(c, ds[..i])) && bitLen == |GroupBits(c, ds[..i])|
    ensures count == c.group ==> GroupsWritten(c, ds, i, 0, 0, after, size, bitLen)
  {
    hide GroupBits, Pow2, DataBits, ToBits, Holds, FromDigits;
    GroupCompleted(c, ds, i - count, i);
    if count == c.group {
      GroupEnds(c, i);
      NoDigitsYet(c, ds, i);
    }
  }

  lemma GroupEnds(c: Coding, i: nat)
    requires IsCoding(c) && i >= c.group && (i - c.group) % c.group == 0
    ensures i % c.group == 0
  {
  }

  lemma NoDigitsYet(c: Coding, ds: seq<nat>, i: nat)
    requires i <= |ds|
    ensures FromDigits(ds[i..i], c.base) == 0
  {
  }

  /** Appends the number of a group, the last `count` of the first `i` digits. */
  method AppendGroup(value: nat, numBits: nat, buf: array<Byte>, bitLen: nat, ghost c: Coding, ghost ds: seq<nat>,
                     ghost i: nat, ghost count: nat, ghost size: nat)
    returns (bitLen': nat)
    requires IsCoding(c) && FitsBuffer(c, ds, size) && 0 < count <= i <= |ds| && numBits == c.Width(count)
    requires count == c.group || (count < c.group && i == |ds|)
    requires GroupsWritten(c, ds, i, count, value, buf[..], size, bitLen)
    modifies buf
    ensures Holds(buf[..], size, GroupBits(c, ds[..i])) && bitLen' == |GroupBits(c, ds[..i])|
    ensures count == c.group ==> GroupsWritten(c, ds, i, 0, 0, buf[..], size, bitLen')
    ensures forall k | size <= k < buf.Length :: buf[k] == old(buf[k])
  {
    hide Holds, GroupBits, ToBits, DataBits, FromDigits, GroupsWritten, OrBits, Pow2;
    ghost var before := buf[..];
    GroupToAppend(c, ds, i, count, value, before, size, bitLen);
    bitLen' := AppendBitsToBuffer(value, numBits, buf, bitLen);
    GroupAdded(c, ds, i, count, value, before, buf[..], size, bitLen');
  }

  lemma CompleteGroups(c: Coding, ds: seq<nat>, value: nat, buffer: seq<Byte>, size: nat, bitLen: nat)
    requires IsCoding(c) && GroupsWritten(c, ds, |ds|, 0, value, buffer, size, bitLen)
    ensures Holds(buffer, size, GroupBits(c, ds[..|ds|])) && bitLen == |GroupBits(c, ds[..|ds|])|
  {
  }

  lemma AllWritten(c: Coding, ds: seq<nat>, buffer: seq<Byte>, size: nat, bitLen: nat)
    requires IsCoding(c) && Holds(buffer, size, GroupBits(c, ds[..|ds|])) && bitLen == |GroupBits(c, ds[..|ds|])|
    ensures bitLen == |GroupBits(c, ds)| <= |DataBits(buffer)| && DataBits(buffer)[..bitLen] == GroupBits(c, ds)
  {
    assert ds[..|ds|] == ds;
    HoldsPrefix(buffer, size, GroupBits(c, ds));
  }

  method MakeNumeric(digits: string, buf: array<Byte>) returns (bitLength: nat, numChars: nat)
    requires IsNumeric(digits) && CalcSegmentBitLength(Numeric, |digits|) != LENGTH_OVERFLOW
    requires CalcSegmentBitLength(Numeric, |digits|) <= 8 * buf.Length
    modifies buf
    ensures numChars == |digits| && bitLength == CalcSegmentBitLength(Numeric, |digits|)
    ensures IsAlphanumeric(digits) && DataBits(buf[..])[..bitLength] == GroupBits(NUMERIC, TextDigits(digits))
    ensures forall k | (bitLength + 7) / 8 <= k < buf.Length :: buf[k] == old(buf[k])
  {
    hide Holds, GroupBits, ToBits, DataBits, FromDigits, TextDigits, CharsetIndex, GroupsWritten;
    NumericIsAlphanumeric(digits);
    ghost var c, ds := NUMERIC, TextDigits(digits);
    numChars := |digits|;
    var bitLen := CalcSegmentBitLength(Numeric, numChars);
    var size := (bitLen + 7) / 8;
    GroupBitsLength(c, ds);
    ZeroBytes(buf, size);
    bitLength := 0;
    var accumData: nat, accumCount: nat := 0, 0;
    NothingWritten(c, ds, buf[..], size);
    for i := 0 to numChars
      invariant GroupsWritten(c, ds, i, accumCount, accumData, buf[..], size, bitLength)
      invariant accumCount < 3 && accumCount <= i
      invariant forall k | size <= k < buf.Length :: buf[k] == old(buf[k])
    {
      DigitOf(digits, i);
      DigitAdded(c, ds, i, accumCount, accumData, buf[..], size, bitLength);
      accumData := accumData * 10 + (digits[i] as int - '0' as int);
      accumCount := accumCount + 1;
      if accumCount == 3 {
        bitLength := AppendGroup(accumData, 10, buf, bitLength, c, ds, i + 1, accumCount, size);
        accumData := 0;
        accumCount := 0;
      }
    }
    if accumCount > 0 {
      bitLength := AppendGroup(accumData, accumCount * 3 + 1, buf, bitLength, c, ds, numChars, accumCount, size);
    } else {
      CompleteGroups(c, ds, accumData, buf[..], size, bitLength);
    }
    AllWritten(c, ds, buf[..], size, bitLength);
    assert (bitLength + 7) / 8 == size;
  }

  method MakeAlphanumeric(text: string, buf: array<Byte>) returns (bitLength: nat, numChars: nat)
    requires IsAlphanumeric(text) && CalcSegmentBitLength(Alphanumeric, |text|) != LENGTH_OVERFLOW
    requires CalcSegmentBitLength(Alphanumeric, |text|) <= 8 * buf.Length
    modifies buf
    ensures numChars == |text| && bitLength == CalcSegmentBitLength(Alphanumeric, |text|)
    ensures IsAlphanumeric(text) && DataBits(buf[..])[..bitLength] == GroupBits(ALPHANUMERIC, TextDigits(text))
    ensures forall k | (bitLength + 7) / 8 <= k < buf.Length :: buf[k] == old(buf[k])
  {
    hide Holds, GroupBits, ToBits, DataBits, FromDigits, TextDigits, CharsetIndex, GroupsWritten;
    ghost var c, ds := ALPHANUMERIC, TextDigits(text);
    numChars := |text|;
    var bitLen := CalcSegmentBitLength(Alphanumeric, numChars);
    var size := (bitLen + 7) / 8;
    GroupBitsLength(c, ds);
    ZeroBytes(buf, size);
    bitLength := 0;
    var accumData: nat, accumCount: nat := 0, 0;
    NothingWritten(c, ds, buf[..], size);
    for i := 0 to numChars
      invariant GroupsWritten(c, ds, i, accumCount, accumData, buf[..], size, bitLength)
      invariant accumCount < 2 && accumCount <= i
      invariant forall k | size <= k < buf.Length :: buf[k] == old(buf[k])
    {
      DigitAt(text, i);
      DigitAdded(c, ds, i, accumCount, accumData, buf[..], size, bitLength);
      accumData := accumData * 45 + CharsetIndex(text[i]);
      accumCount := accumCount + 1;
      if accumCount == 2 {
        bitLength := AppendGroup(accumData, 11, buf, bitLength, c, ds, i + 1, accumCount, size);
        accumData := 0;
        accumCount := 0;
      }
    }
    if accumCount > 0 {
      bitLength := AppendGroup(accumData, 6, buf, bitLength, c, ds, numChars, accumCount, size);
    } else {
      CompleteGroups(c, ds, accumData, buf[..], size, bitLength);
    }
    AllWritten(c, ds, buf[..], size, bitLength);
    assert (bitLength + 7) / 8 == size;
  }

  lemma DigitAt(text: string, i: nat)
    requires IsAlphanumeric(text) && i < |text|
    ensures TextDigits(text)[i] == CharsetIndex(text[i])
  {
  }

  lemma DigitOf(text: string, i: nat)
    requires IsNumeric(text) && i < |text|
    ensures IsAlphanumeric(text) && TextDigits(text)[i] == text[i] as int - '0' as int
  {
  }

  lemma HoldsPrefix(buffer: seq<Byte>, size: nat, bits: seq<bool>)
    requires Holds(buffer, size, bits)
    ensures |bits| <= |DataBits(buffer)| && DataBits(buffer)[..|bits|] == bits
  {
    assert DataBits(buffer)[..|bits|] == DataBits(buffer)[..8 * size][..|bits|];
  }

  // ----- ECI designators

  /** The length of an ECI designator, told by its first bits. */
  function EciLength(bits: seq<bool>): nat {
    if bits == [] || !bits[0] then 8
    else if |bits| == 1 || !bits[1] then 16
    else 24
  }

  /** The designator of an ECI assignment value: one, two or three bytes. */
  function EciBits(v: nat): seq<bool> {
    if v < 128 then ToBits(v, 8)
    else if v < 16384 then [true, false] + ToBits(v, 14)
    else [true, true, false] + (ToBits(v / 1024, 11) + ToBits(v % 1024, 10))
  }

  function DecodeEci(bits: seq<bool>): nat
    requires |bits| == EciLength(bits)
  {
    if |bits| == 8 then Value(bits) else if |bits| == 16 then Value(bits[2..]) else Value(bits[3..])
  }

  lemma {:induction false} ShiftedOut(v: nat, k: nat)
    requires v < Pow2(k)
    ensures ShiftRight(v, k) == 0
  {
    if k > 0 {
      ShiftedOut(v / 2, k - 1);
    }
  }

  lemma TopBitClear(v: nat)
    requires v < 128
    ensures !ToBits(v, 8)[0]
  {
    PowersOfTwo();
    ToBitsAt(v, 8, 0);
    ShiftedOut(v, 7);
  }

  /** The designator tells its own length and its value. */
  lemma EciRoundTrip(v: nat)
    requires v < 1000000
    ensures |EciBits(v)| == EciLength(EciBits(v)) && DecodeEci(EciBits(v)) == v
  {
    hide ToBits, Value, Pow2;
    EciPowers();
    if v < 128 {
      TopBitClear(v);
      ValueOfBits(v, 8);
    } else if v < 16384 {
      ValueOfBits(v, 14);
      assert EciBits(v)[2..] == ToBits(v, 14);
    } else {
      var high, low := ToBits(v / 1024, 11), ToBits(v % 1024, 10);
      ValueOfBits(v / 1024, 11);
      ValueOfBits(v % 1024, 10);
      ValueConcat(high, low);
      assert EciBits(v)[3..] == high + low;
    }
  }

  lemma EciPowers()
    ensures Pow2(1) == 2 && Pow2(2) == 4 && Pow2(3) == 8 && Pow2(8) == 256 && Pow2(10) == 1024 && Pow2(11) == 2048
    ensures Pow2(14) == 16384
  {
    assert Pow2(4) == 16;
    assert Pow2(8) == 256;
    assert Pow2(12) == 4096;
  }

  method MakeEci(assignVal: nat, buf: array<Byte>) returns (bitLength: nat)
    requires assignVal < 1000000 && |EciBits(assignVal)| <= 8 * buf.Length
    modifies buf
    ensures bitLength == |EciBits(assignVal)| && DataBits(buf[..])[..bitLength] == EciBits(assignVal)
    ensures forall k | (bitLength + 7) / 8 <= k < buf.Length :: buf[k] == old(buf[k])
  {
    hide Holds, ToBits, Pow2, DataBits, OrBits;
    EciPowers();
    EciPrefixes();
    bitLength := 0;
    if assignVal < 128 {
      ZeroBytes(buf, 1);
      bitLength := AppendBitsToBuffer(assignVal, 8, buf, bitLength);
      assert [] + ToBits(assignVal, 8) == EciBits(assignVal);
      HoldsPrefix(buf[..], 1, EciBits(assignVal));
    } else if assignVal < 16384 {
      ZeroBytes(buf, 2);
      bitLength := AppendBitsToBuffer(2, 2, buf, bitLength);
      bitLength := AppendBitsToBuffer(assignVal, 14, buf, bitLength);
      assert [] + ToBits(2, 2) + ToBits(assignVal, 14) == EciBits(assignVal);
      HoldsPrefix(buf[..], 2, EciBits(assignVal));
    } else {
      ZeroBytes(buf, 3);
      bitLength := AppendBitsToBuffer(6, 3, buf, bitLength);
      bitLength := AppendBitsToBuffer(assignVal / 1024, 11, buf, bitLength);
      bitLength := AppendBitsToBuffer(assignVal % 1024, 10, buf, bitLength);
      assert [] + ToBits(6, 3) + ToBits(assignVal / 1024, 11) + ToBits(assignVal % 1024, 10) == EciBits(assignVal);
      HoldsPrefix(buf[..], 3, EciBits(assignVal));
    }
  }

  lemma EciPrefixes()
    ensures ToBits(2, 2) == [true, false] && ToBits(6, 3) == [true, true, false]
  {
    assert ToBits(0, 0) == [] && ToBits(1, 1) == [true] && ToBits(3, 2) == [true, true];
  }
}
