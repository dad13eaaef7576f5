/** The fields and the immediates of an instruction word, as the simulator extracts them with shifts and masks,
    and the extension and assembly of bytes. */
module Instructions {
  import opened Arithmetic
  import opened Bytes
  import opened Words
  import opened Memory
  import opened Alu
  import Division

  /** Bits `lo` to `hi` of a word, moved to the low end. */
  function Field(x: Word, lo: nat, hi: nat): Word
    requires lo <= hi < 32 && hi - lo < 30
  {
    And(ShiftRight32(x, lo), LowMask(hi - lo + 1))
  }

  /** A word of `n` ones at the low end. */
  function LowMask(n: nat): Word
    requires n < 32
  {
    MaskFits(n);
    Pow2(n) - 1
  }

  lemma MaskFits(n: nat)
    requires n < 32
    ensures 0 < Pow2(n) <= 0x8000_0000
  {
    hide Pow2;
    Pow2Of32();
    Pow2Positive(n);
    Pow2Positive(31 - n);
    Pow2Add(n, 31 - n);
    MulOrder(1, Pow2(31 - n), Pow2(n));
    MulCommutative(Pow2(31 - n), Pow2(n));
  }

  /** Sign-extends a number of `n` bits. */
  function SignExtend(num: Word, n: nat): Word
    requires 1 <= n < 32
  {
    MaskFits(n - 1);
    Or(num, if And(num, Pow2(n - 1)) != 0 then ShiftLeft32(ALL_ONES, n) else 0)
  }

  function Opcode(inst: Word): Word {
    Field(inst, 2, 6)
  }

  /** A register number: five bits. */
  function Register(inst: Word, lo: nat): (r: Word)
    requires lo < 28
    ensures r < 32
  {
    FieldBound(inst, lo, lo + 4);
    Pow2Of32();
    Field(inst, lo, lo + 4)
  }

  function Rd(inst: Word): Word {
    Register(inst, 7)
  }

  function Rs1(inst: Word): Word {
    Register(inst, 15)
  }

  function Rs2(inst: Word): Word {
    Register(inst, 20)
  }

  function Funct3(inst: Word): (r: Word)
    ensures r < 8
  {
    FieldBound(inst, 12, 14);
    Field(inst, 12, 14)
  }

  function Funct7(inst: Word): Word {
    Field(inst, 25, 31)
  }

  function ImmI(inst: Word): Word {
    Field(inst, 20, 31)
  }

  function ImmS(inst: Word): Word {
    Or(ShiftLeft32(Field(inst, 25, 31), 5), Field(inst, 7, 11))
  }

  function ImmB(inst: Word): Word {
    Or(Or(Or(ShiftLeft32(Field(inst, 8, 11), 1), ShiftLeft32(Field(inst, 25, 30), 5)),
          ShiftLeft32(Field(inst, 7, 7), 11)), ShiftLeft32(Field(inst, 31, 31), 12))
  }

  function ImmU(inst: Word): Word {
    And(inst, ShiftLeft32(ALL_ONES, 12))
  }

  function ImmJ(inst: Word): Word {
    Or(Or(Or(ShiftLeft32(Field(inst, 21, 30), 1), ShiftLeft32(Field(inst, 20, 20), 11)),
          ShiftLeft32(Field(inst, 12, 19), 12)), ShiftLeft32(Field(inst, 31, 31), 20))
  }

  // ----- the bits of a word under the operators

  lemma BitsOfFromBits(b: seq<bool>)
    requires |b| == 32
    ensures Bits(FromBits(b)) == b
  {
    hide Pow2, Value, ToBits;
    BitsOfValue(b);
  }

  lemma WordOfBits(w: Word, b: seq<bool>)
    requires Bits(w) == b
    ensures w == FromBits(b)
  {
    BitsInverse(w);
  }

  lemma OrBits(a: Word, b: Word)
    ensures Bits(Or(a, b)) == seq(32, i requires 0 <= i < 32 => Bits(a)[i] || Bits(b)[i])
  {
    hide Bits, FromBits;
    BitsOfFromBits(seq(32, i requires 0 <= i < 32 => Bits(a)[i] || Bits(b)[i]));
  }

  lemma OrFourBits(p: Word, q: Word, r: Word, s: Word)
    ensures Bits(Or(Or(Or(p, q), r), s))
         == seq(32, i requires 0 <= i < 32 => Bits(p)[i] || Bits(q)[i] || Bits(r)[i] || Bits(s)[i])
  {
    hide Bits, Or;
    OrBits(p, q);
    OrBits(Or(p, q), r);
    OrBits(Or(Or(p, q), r), s);
  }

  lemma AndBits(a: Word, b: Word)
    ensures Bits(And(a, b)) == seq(32, i requires 0 <= i < 32 => Bits(a)[i] && Bits(b)[i])
  {
    hide Bits, FromBits;
    BitsOfFromBits(seq(32, i requires 0 <= i < 32 => Bits(a)[i] && Bits(b)[i]));
  }

  lemma LeftShiftBits(w: Word, n: nat)
    requires n < 32
    ensures Bits(ShiftLeft32(w, n)) == Bits(w)[n..] + Repeat(false, n)
  {
    hide Pow2, Value, ToBits;
    var b := Bits(w);
    ValueOfZeros(n, b[n..]);
    SplitValue(w, n);
    Pow2Add(32 - n, n);
    Pow2Of32();
    Pow2Positive(n);
    ShiftedOutBits(Value(b[..n]), Value(b[n..]), Pow2(32 - n), Pow2(n));
    BitsOfValue(b[n..] + Repeat(false, n));
  }

  lemma MaskBits(n: nat)
    requires n < 32
    ensures Bits(LowMask(n)) == Repeat(false, 32 - n) + Repeat(true, n)
  {
    hide Pow2, Value, ToBits;
    ValueOfOnes(n);
    ValueOfZeros(32 - n, Repeat(true, n));
    BitsOfValue(Repeat(false, 32 - n) + Repeat(true, n));
  }

  lemma FieldBits(x: Word, lo: nat, hi: nat)
    requires lo <= hi < 32 && hi - lo < 30
    ensures Bits(Field(x, lo, hi)) == Repeat(false, 31 - hi + lo) + Bits(x)[31 - hi..32 - lo]
  {
    hide Bits, And, ShiftRight32, LowMask;
    var n := hi - lo + 1;
    ShiftedBits(x, lo);
    MaskBits(n);
    AndBits(ShiftRight32(x, lo), LowMask(n));
  }

  /** A word whose high bits are zero is the value of the others. */
  lemma LowBits(w: Word, b: seq<bool>)
    requires |b| <= 32 && Bits(w) == Repeat(false, 32 - |b|) + b
    ensures w == Value(b) < Pow2(|b|)
  {
    hide Pow2, Value, ToBits;
    BitsInverse(w);
    ValueOfZeros(32 - |b|, b);
    ValueBound(b);
  }

  lemma FieldBound(x: Word, lo: nat, hi: nat)
    requires lo <= hi < 32 && hi - lo < 30
    ensures Field(x, lo, hi) < Pow2(hi - lo + 1)
  {
    hide Pow2, Value, ToBits, Bits, Field;
    FieldBits(x, lo, hi);
    LowBits(Field(x, lo, hi), Bits(x)[31 - hi..32 - lo]);
  }

  lemma FieldValue(x: Word, lo: nat, hi: nat)
    requires lo <= hi < 32 && hi - lo < 30
    ensures Pow2(lo) > 0 && Pow2(hi - lo + 1) > 0
    ensures Field(x, lo, hi) == x / Pow2(lo) % Pow2(hi - lo + 1)
  {
    hide Pow2, Value, ToBits, Bits, Field;
    var b, n := Bits(x), hi - lo + 1;
    Pow2Positive(lo);
    Pow2Positive(n);
    FieldBits(x, lo, hi);
    LowBits(Field(x, lo, hi), b[31 - hi..32 - lo]);
    SplitValue(x, 32 - lo);
    DivModUnique(Value(b[32 - lo..]), Value(b[..32 - lo]), Pow2(lo));
    assert b[..32 - lo] == b[..31 - hi] + b[31 - hi..32 - lo];
    ValueConcat(b[..31 - hi], b[31 - hi..32 - lo]);
    DivModUnique(Value(b[31 - hi..32 - lo]), Value(b[..31 - hi]), Pow2(n));
  }

  // ----- sign extension

  lemma OneBit(n: nat)
    requires n < 31
    ensures Pow2(n) < TWO32
    ensures Bits(Pow2(n)) == Repeat(false, 31 - n) + [true] + Repeat(false, n)
  {
    hide Pow2, Value, ToBits;
    MaskFits(n);
    Division.ValueOfBit(true);
    ValueOfZeros(31 - n, [true]);
    ValueOfZeros(n, Repeat(false, 31 - n) + [true]);
    BitsOfValue(Repeat(false, 31 - n) + [true] + Repeat(false, n));
  }

  lemma ZeroBits()
    ensures Bits(0) == Repeat(false, 32)
  {
    hide Pow2, Value, ToBits;
    ValueOfZeros(32, []);
    BitsOfValue(Repeat(false, 32));
  }

  /** The sign test picks out bit `n - 1`. */
  lemma SignTest(num: Word, n: nat)
    requires 1 <= n < 32
    ensures Pow2(n - 1) < TWO32
    ensures And(num, Pow2(n - 1)) != 0 <==> Bits(num)[32 - n]
  {
    hide Pow2, Bits, And;
    OneBit(n - 1);
    AndBits(num, Pow2(n - 1));
    ZeroBits();
    var r := Bits(And(num, Pow2(n - 1)));
    assert r[32 - n] == Bits(num)[32 - n];
    if !Bits(num)[32 - n] {
      assert r == Repeat(false, 32);
      BitsInverse(0);
      BitsInverse(And(num, Pow2(n - 1)));
    }
  }

  /** Sign extension repeats bit `n - 1` of a number of `n` bits. */
  lemma SignExtendBits(num: Word, b: seq<bool>)
    requires 1 <= |b| < 32 && Bits(num) == Repeat(false, 32 - |b|) + b
    ensures Bits(SignExtend(num, |b|)) == Repeat(b[0], 32 - |b|) + b
  {
    hide Pow2, Bits, And, Or, ShiftLeft32;
    var n := |b|;
    SignTest(num, n);
    OnesShifted(n);
    ZeroBits();
    var high := if And(num, Pow2(n - 1)) != 0 then ShiftLeft32(ALL_ONES, n) else 0;
    OrBits(num, high);
    assert Bits(high) == Repeat(b[0], 32 - n) + Repeat(false, n);
  }

  /** The extended I immediate ends in the shift amount. */
  lemma ImmediateShiftAmount(inst: Word)
    ensures SignExtend(ImmI(inst), 12) % 32 == Rs2(inst)
  {
    hide Pow2, Value, ToBits, Bits, Field, SignExtend, ImmI;
    var in2 := SignExtend(ImmI(inst), 12);
    ShiftAmountIsMod(in2);
    ImmediateIBits(inst);
    assert Bits(in2)[27..] == Bits(inst)[7..12];
    FieldBits(inst, 20, 24);
    LowBits(Rs2(inst), Bits(inst)[7..12]);
  }

  /** The number represented in two's complement by a word's low bits. */
  lemma SignExtendValue(num: Word, n: nat)
    requires 1 <= n < 32 && num < Pow2(n)
    ensures Signed(SignExtend(num, n)) == if num < Pow2(n - 1) then num else num - Pow2(n)
  {
    hide Pow2, Value, ToBits, SignExtend;
    var b := Bits(num);
    SplitValue(num, 32 - n);
    HighPartZero(Value(b[..32 - n]), Value(b[32 - n..]), Pow2(n));
    ValueOfZeros(32 - n, []);
    assert Repeat(false, 32 - n) + [] == Repeat(false, 32 - n);
    ValueInjective(b[..32 - n], Repeat(false, 32 - n));
    var low := b[32 - n..];
    assert b == Repeat(false, 32 - n) + low;
    SignExtendBits(num, low);
    var w := SignExtend(num, n);
    SignBit(w);
    LeadingBit(low);
    BitsInverse(w);
    ValueConcat(Repeat(low[0], 32 - n), low);
    if low[0] {
      ValueOfOnes(32 - n);
      Pow2Add(32 - n, n);
      Pow2Of32();
      OnesTimes(Pow2(32 - n), Pow2(n));
    } else {
      ValueOfZeros(32 - n, low);
    }
  }

  lemma HighPartZero(high: nat, low: nat, p: nat)
    requires high * p + low < p
    ensures high == 0
  {
    if high > 0 {
      MulOrder(1, high, p);
      MulCommutative(high, p);
    }
  }

  lemma OnesTimes(p: nat, q: nat)
    requires p > 0
    ensures (p - 1) * q == p * q - q
  {
  }

  lemma LeadingBit(b: seq<bool>)
    requires b != []
    ensures b[0] <==> Value(b) >= Pow2(|b| - 1)
  {
    hide Pow2, Value;
    assert b == [b[0]] + b[1..];
    ValueConcat([b[0]], b[1..]);
    Division.ValueOfBit(b[0]);
    ValueBound(b[1..]);
  }

  // ----- immediates

  /** The five immediates are made of the bits that Figure 2.4 of the RISC-V instruction set manual (version 2.2,
      section 2.3) names, most significant first. */
  lemma ImmediateIBits(inst: Word)
    ensures Bits(SignExtend(ImmI(inst), 12)) == Repeat(Bits(inst)[0], 20) + Bits(inst)[..12]
  {
    hide Pow2, Bits, Field, SignExtend;
    FieldBits(inst, 20, 31);
    SignExtendBits(ImmI(inst), Bits(inst)[..12]);
  }

  lemma ImmediateSBits(inst: Word)
    ensures Bits(SignExtend(ImmS(inst), 12))
         == Repeat(Bits(inst)[0], 20) + Bits(inst)[..7] + Bits(inst)[20..25]
  {
    hide Pow2, Bits, Field, SignExtend, Or, ShiftLeft32;
    var b := Bits(inst);
    FieldBits(inst, 25, 31);
    FieldBits(inst, 7, 11);
    LeftShiftBits(Field(inst, 25, 31), 5);
    OrBits(ShiftLeft32(Field(inst, 25, 31), 5), Field(inst, 7, 11));
    var imm := b[..7] + b[20..25];
    assert Bits(ImmS(inst)) == Repeat(false, 20) + imm;
    SignExtendBits(ImmS(inst), imm);
  }

  /** A shifted field: zeros, the field's bits, and zeros. */
  lemma ShiftedFieldBits(inst: Word, lo: nat, hi: nat, n: nat)
    requires lo <= hi < 32 && hi - lo + n < 30
    ensures Bits(ShiftLeft32(Field(inst, lo, hi), n))
         == Repeat(false, 31 - hi + lo - n) + Bits(inst)[31 - hi..32 - lo] + Repeat(false, n)
  {
    hide Pow2, Bits, Field, ShiftLeft32;
    FieldBits(inst, lo, hi);
    LeftShiftBits(Field(inst, lo, hi), n);
  }

  /** Or-ing a field in above the bits `low` puts its bits before them. */
  lemma FieldAbove(inst: Word, acc: Word, low: seq<bool>, lo: nat, hi: nat)
    requires lo <= hi < 32 && hi - lo + |low| < 30 && Bits(acc) == Repeat(false, 32 - |low|) + low
    ensures Bits(Or(acc, ShiftLeft32(Field(inst, lo, hi), |low|)))
         == Repeat(false, 31 - hi + lo - |low|) + (Bits(inst)[31 - hi..32 - lo] + low)
  {
    hide Pow2, Bits, Field, ShiftLeft32, Or;
    ShiftedFieldBits(inst, lo, hi, |low|);
    OrBits(acc, ShiftLeft32(Field(inst, lo, hi), |low|));
  }

  /** The lowest field is shifted by one. */
  lemma LowestField(inst: Word, lo: nat, hi: nat)
    requires lo <= hi < 32 && hi - lo + 1 < 30
    ensures Bits(ShiftLeft32(Field(inst, lo, hi), 1))
         == Repeat(false, 30 - hi + lo) + (Bits(inst)[31 - hi..32 - lo] + [false])
  {
    hide Pow2, Bits, Field, ShiftLeft32;
    ShiftedFieldBits(inst, lo, hi, 1);
    assert Repeat(false, 1) == [false];
  }

  lemma ImmediateBBits(inst: Word)
    ensures Bits(SignExtend(ImmB(inst), 13))
         == Repeat(Bits(inst)[0], 20) + [Bits(inst)[24]] + Bits(inst)[1..7] + Bits(inst)[20..24] + [false]
  {
    hide Pow2, Bits, Field, SignExtend, Or, ShiftLeft32;
    var b := Bits(inst);
    var p := ShiftLeft32(Field(inst, 8, 11), 1);
    var low1 := b[20..24] + [false];
    LowestField(inst, 8, 11);
    var q, low2 := Or(p, ShiftLeft32(Field(inst, 25, 30), 5)), b[1..7] + low1;
    FieldAbove(inst, p, low1, 25, 30);
    var r, low3 := Or(q, ShiftLeft32(Field(inst, 7, 7), 11)), b[24..25] + low2;
    FieldAbove(inst, q, low2, 7, 7);
    FieldAbove(inst, r, low3, 31, 31);
    SignExtendBits(ImmB(inst), b[0..1] + low3);
    SignAbove(b[0], 19, b[0..1], low3);
    assert b[24..25] == [b[24]];
  }

  lemma SignAbove(v: bool, n: nat, top: seq<bool>, low: seq<bool>)
    requires top == [v]
    ensures Repeat(v, n) + (top + low) == Repeat(v, n + 1) + low
  {
    assert Repeat(v, n) + [v] == Repeat(v, n + 1);
  }

  lemma ImmediateUBits(inst: Word)
    ensures Bits(ImmU(inst)) == Bits(inst)[..20] + Repeat(false, 12)
  {
    hide Pow2, Bits, And, ShiftLeft32;
    OnesShifted(12);
    AndBits(inst, ShiftLeft32(ALL_ONES, 12));
  }

  lemma ImmediateJBits(inst: Word)
    ensures Bits(SignExtend(ImmJ(inst), 21))
         == Repeat(Bits(inst)[0], 12) + Bits(inst)[12..20] + [Bits(inst)[11]] + Bits(inst)[1..11] + [false]
  {
    hide Pow2, Bits, Field, SignExtend, Or, ShiftLeft32;
    var b := Bits(inst);
    var p := ShiftLeft32(Field(inst, 21, 30), 1);
    var low1 := b[1..11] + [false];
    LowestField(inst, 21, 30);
    var q, low2 := Or(p, ShiftLeft32(Field(inst, 20, 20), 11)), b[11..12] + low1;
    FieldAbove(inst, p, low1, 20, 20);
    var r, low3 := Or(q, ShiftLeft32(Field(inst, 12, 19), 12)), b[12..20] + low2;
    FieldAbove(inst, q, low2, 12, 19);
    FieldAbove(inst, r, low3, 31, 31);
    SignExtendBits(ImmJ(inst), b[0..1] + low3);
    SignAbove(b[0], 11, b[0..1], low3);
    assert b[11..12] == [b[11]];
  }

  /** Fields of the immediate and of the masked opcode are fields of the instruction. */
  lemma NestedFields(inst: Word)
    ensures Field(ImmI(inst), 5, 11) == Funct7(inst)
    ensures And(ImmI(inst), LowMask(5)) == Rs2(inst)
    ensures Field(And(inst, LowMask(7)), 0, 1) == Field(inst, 0, 1)
    ensures ShiftRight32(And(inst, LowMask(7)), 2) == Opcode(inst)
  {
    hide Pow2, Bits, Field, And, ShiftRight32, LowMask, FromBits;
    FieldBits(inst, 20, 31);
    FieldBits(ImmI(inst), 5, 11);
    FieldBits(inst, 25, 31);
    WordOfBits(Funct7(inst), Bits(Field(ImmI(inst), 5, 11)));
    WordOfBits(Field(ImmI(inst), 5, 11), Bits(Funct7(inst)));
    MaskBits(5);
    AndBits(ImmI(inst), LowMask(5));
    FieldBits(inst, 20, 24);
    WordOfBits(And(ImmI(inst), LowMask(5)), Bits(Rs2(inst)));
    WordOfBits(Rs2(inst), Bits(Rs2(inst)));
    NestedOpcode(inst);
  }

  lemma NestedOpcode(inst: Word)
    ensures Field(And(inst, LowMask(7)), 0, 1) == Field(inst, 0, 1)
    ensures ShiftRight32(And(inst, LowMask(7)), 2) == Opcode(inst)
  {
    hide Pow2, Bits, Field, And, ShiftRight32, LowMask, FromBits;
    var opcode := And(inst, LowMask(7));
    MaskBits(7);
    AndBits(inst, LowMask(7));
    FieldBits(opcode, 0, 1);
    FieldBits(inst, 0, 1);
    WordOfBits(Field(opcode, 0, 1), Bits(Field(inst, 0, 1)));
    WordOfBits(Field(inst, 0, 1), Bits(Field(inst, 0, 1)));
    ShiftedBits(opcode, 2);
    FieldBits(inst, 2, 6);
    WordOfBits(ShiftRight32(opcode, 2), Bits(Opcode(inst)));
    WordOfBits(Opcode(inst), Bits(Opcode(inst)));
  }

  // ----- bytes of a word

  /** The bytes of a word that a store writes, lowest first. */
  function BytesOf(v: Word, count: nat): (bytes: seq<Octet>)
    requires count <= 4
    ensures |bytes| == count
  {
    seq(count, k requires 0 <= k < count => ByteOf(v, k))
  }

  function ByteOf(v: Word, k: nat): Octet
    requires k < 4
  {
    FieldBound(v, 8 * k, 8 * k + 7);
    Pow2Of8();
    Field(v, 8 * k, 8 * k + 7)
  }

  /** The word that a load makes of one, two or four bytes, lowest first. */
  function Assemble(b: seq<Octet>): Word
    requires |b| == 1 || |b| == 2 || |b| == 4
  {
    if |b| == 1 then b[0]
    else if |b| == 2 then Or(b[0], ShiftLeft32(b[1], 8))
    else Or(Or(Or(b[0], ShiftLeft32(b[1], 8)), ShiftLeft32(b[2], 16)), ShiftLeft32(b[3], 24))
  }

  /** The bits of bytes, the highest byte first. */
  function ByteBits(b: seq<Octet>): (bits: seq<bool>)
    ensures |bits| == 8 * |b|
  {
    if b == [] then [] else ByteBits(b[1..]) + ToBits(b[0], 8)
  }

  lemma OctetBits(b: Octet)
    ensures Bits(b) == Repeat(false, 24) + ToBits(b, 8)
  {
    hide Pow2, Value, ToBits;
    Pow2Of8();
    ValueOfBits(b, 8);
    ValueOfZeros(24, ToBits(b, 8));
    BitsOfValue(Repeat(false, 24) + ToBits(b, 8));
  }

  lemma ShiftedOctetBits(b: Octet, n: nat)
    requires n <= 24
    ensures Bits(ShiftLeft32(b, n)) == Repeat(false, 24 - n) + ToBits(b, 8) + Repeat(false, n)
  {
    hide ToBits, Bits, ShiftLeft32;
    OctetBits(b);
    LeftShiftBits(b, n);
  }

  lemma AssembleBits(b: seq<Octet>)
    requires |b| == 1 || |b| == 2 || |b| == 4
    ensures Bits(Assemble(b)) == Repeat(false, 32 - 8 * |b|) + ByteBits(b)
  {
    hide ToBits, Bits, ShiftLeft32, Or, ByteBits;
    OctetBits(b[0]);
    if |b| > 1 {
      ShiftedOctetBits(b[1], 8);
    }
    if |b| == 1 {
      OneByte(b);
    } else if |b| == 2 {
      OrBits(b[0], ShiftLeft32(b[1], 8));
      TwoBytes(b);
    } else {
      ShiftedOctetBits(b[2], 16);
      ShiftedOctetBits(b[3], 24);
      OrFourBits(b[0], ShiftLeft32(b[1], 8), ShiftLeft32(b[2], 16), ShiftLeft32(b[3], 24));
      FourBytes(b);
    }
  }

  lemma OneByte(b: seq<Octet>)
    requires |b| == 1
    ensures ByteBits(b) == ToBits(b[0], 8)
  {
    hide ToBits;
    assert ByteBits(b[1..]) == [];
  }

  lemma TwoBytes(b: seq<Octet>)
    requires |b| == 2
    ensures ByteBits(b) == ToBits(b[1], 8) + ToBits(b[0], 8)
  {
    hide ToBits;
    assert ByteBits(b[1..]) == ToBits(b[1], 8) by {
      assert b[1..][1..] == [];
    }
  }

  lemma FourBytes(b: seq<Octet>)
    requires |b| == 4
    ensures ByteBits(b) == ToBits(b[3], 8) + ToBits(b[2], 8) + ToBits(b[1], 8) + ToBits(b[0], 8)
  {
    hide ToBits;
    assert ByteBits(b[2..]) == ToBits(b[3], 8) + ToBits(b[2], 8) by {
      assert b[2..][1..] == [b[3]] && [b[3]][1..] == [];
    }
    assert b[1..][1..] == b[2..];
  }

  /** Bytes are determined by the bits. */
  lemma {:induction false} ByteBitsInjective(b: seq<Octet>, c: seq<Octet>)
    requires |b| == |c| && ByteBits(b) == ByteBits(c)
    ensures b == c
  {
    hide ToBits;
    if b != [] {
      var n := 8 * (|b| - 1);
      assert ByteBits(b)[..n] == ByteBits(b[1..]) && ByteBits(b)[n..] == ToBits(b[0], 8);
      assert ByteBits(c)[..n] == ByteBits(c[1..]) && ByteBits(c)[n..] == ToBits(c[0], 8);
      ByteBitsInjective(b[1..], c[1..]);
      Pow2Of8();
      ValueOfBits(b[0], 8);
      ValueOfBits(c[0], 8);
    }
  }

  lemma AssembleInjective(b: seq<Octet>, c: seq<Octet>)
    requires |b| == |c| && (|b| == 1 || |b| == 2 || |b| == 4)
    ensures Assemble(b) == Assemble(c) ==> b == c
  {
    hide Bits, Assemble, ByteBits;
    AssembleBits(b);
    AssembleBits(c);
    if Assemble(b) == Assemble(c) {
      var n := 32 - 8 * |b|;
      assert ByteBits(b) == Bits(Assemble(b))[n..] == ByteBits(c);
      ByteBitsInjective(b, c);
    }
  }

  lemma ByteOfBits(v: Word, k: nat)
    requires k < 4
    ensures ToBits(ByteOf(v, k), 8) == Bits(v)[24 - 8 * k..32 - 8 * k]
  {
    hide Bits, ToBits, Field;
    FieldBits(v, 8 * k, 8 * k + 7);
    OctetBits(ByteOf(v, k));
    assert Bits(ByteOf(v, k))[24..] == ToBits(ByteOf(v, k), 8);
  }

  /** The low bytes of a word, as a number. */
  function Truncate(v: Word, count: nat): Word {
    if count == 1 then v % 0x100 else if count == 2 then v % 0x10000 else v
  }

  lemma TruncateIsMod(v: Word, count: nat)
    requires count == 1 || count == 2 || count == 4
    ensures Pow2(8 * count) > 0 && Truncate(v, count) == v % Pow2(8 * count)
  {
    hide Pow2;
    Pow2Of8();
    Pow2Of32();
    Pow2Add(8, 8);
  }

  /** Assembling the low bytes of a word gives its low bits: the word itself when there are four. */
  lemma AssembleBytesOf(v: Word, count: nat)
    requires count == 1 || count == 2 || count == 4
    ensures Assemble(BytesOf(v, count)) == Truncate(v, count)
  {
    hide Bits, ToBits, Assemble, ByteBits, Pow2, Value, Truncate;
    var b := BytesOf(v, count);
    TruncateIsMod(v, count);
    AssembleBits(b);
    BytesOfBits(v, count);
    LowBits(Assemble(b), ByteBits(b));
    SplitValue(v, 32 - 8 * count);
    ValueBound(ByteBits(b));
    DivModUnique(Value(ByteBits(b)), Value(Bits(v)[..32 - 8 * count]), Pow2(8 * count));
  }

  lemma BytesOfBits(v: Word, count: nat)
    requires count == 1 || count == 2 || count == 4
    ensures ByteBits(BytesOf(v, count)) == Bits(v)[32 - 8 * count..]
  {
    hide Bits, ToBits, ByteOf, ByteBits;
    ByteOfBits(v, 0);
    var b := BytesOf(v, count);
    if count > 1 {
      ByteOfBits(v, 1);
    }
    if count == 1 {
      OneByte(b);
    } else if count == 2 {
      TwoBytes(b);
    } else {
      ByteOfBits(v, 2);
      ByteOfBits(v, 3);
      FourBytes(b);
    }
  }

  lemma ImmediatePowers()
    ensures Pow2(11) == 0x800 && Pow2(12) == 0x1000
  {
    assert Pow2(6) == 64;
  }

  lemma FieldPowers()
    ensures Pow2(2) == 4 && Pow2(5) == 32 && Pow2(7) == 128 && Pow2(12) == 0x1000 && Pow2(15) == 0x8000
    ensures Pow2(20) == 0x10_0000
  {
    ImmediatePowers();
    assert Pow2(16) == 0x1_0000;
  }
}
