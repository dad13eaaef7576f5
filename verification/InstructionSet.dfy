/** What the instructions compute, in the numbers of the RISC-V instruction set manual, version 2.2: the results of
    register instructions by arithmetic on their operands, and opcodes, fields, branches, jumps and loads. */
module InstructionSet {
  import opened Arithmetic
  import opened Bytes
  import opened Words
  import opened Memory
  import opened Instructions
  import opened Simulator
  import Alu
  import Divider
  import opened Division

  /** Bit `k` of a word. */
  function Bit(w: Word, k: nat): int
    requires k < 32
  {
    Pow2Positive(k);
    w / Pow2(k) % 2
  }

  lemma BitIs(w: Word, k: nat)
    requires k < 32
    ensures Bit(w, k) == if Bits(w)[31 - k] then 1 else 0
  {
    hide Pow2, Value, ToBits;
    BitsInverse(w);
    BitValue(Bits(w), k);
  }

  // ----- bitwise instructions

  lemma XorBits(a: Word, b: Word)
    ensures Bits(Xor32(a, b)) == seq(32, i requires 0 <= i < 32 => Bits(a)[i] != Bits(b)[i])
  {
    hide Bits, FromBits;
    BitsOfFromBits(seq(32, i requires 0 <= i < 32 => Bits(a)[i] != Bits(b)[i]));
  }

  /** The three results are those of these bitwise operators. */
  lemma BitwiseResults(a: Word, b: Word)
    ensures OpResult(4, 0x00, a, b) == Xor32(a, b)
    ensures OpResult(6, 0x00, a, b) == Or(a, b)
    ensures OpResult(7, 0x00, a, b) == And(a, b)
  {
    hide Xor32, Or, And;
  }

  /** XOR, OR and AND, bit by bit: the sum modulo 2, the maximum and the product, in simulator and ALU. */
  lemma BitwiseMeaning(a: Word, b: Word, k: nat, ready: bool)
    requires k < 32
    ensures Bit(OpResult(4, 0x00, a, b), k) == (Bit(a, k) + Bit(b, k)) % 2
    ensures Bit(OpResult(6, 0x00, a, b), k) == if Bit(a, k) >= Bit(b, k) then Bit(a, k) else Bit(b, k)
    ensures Bit(OpResult(7, 0x00, a, b), k) == Bit(a, k) * Bit(b, k)
    ensures forall f3 | f3 == 4 || f3 == 6 || f3 == 7 ::
      Alu.Out(Divider.Inputs(a, b, false, ready, f3, 0x00)) == OpResult(f3, 0x00, a, b)
  {
    hide Bit, Bits, Xor32, Or, And, OpResult, Alu.Out;
    BitwiseResults(a, b);
    XorBits(a, b);
    OrBits(a, b);
    AndBits(a, b);
    BitIs(a, k);
    BitIs(b, k);
    BitIs(Xor32(a, b), k);
    BitIs(Or(a, b), k);
    BitIs(And(a, b), k);
    forall f3 | f3 == 4 || f3 == 6 || f3 == 7
      ensures Alu.Out(Divider.Inputs(a, b, false, ready, f3, 0x00)) == OpResult(f3, 0x00, a, b)
    {
      Alu.AluRefinesSimulator(Divider.Inputs(a, b, false, ready, f3, 0x00));
    }
  }

  function XorOf(p: seq<bool>, q: seq<bool>): (r: seq<bool>)
    requires |p| == |q|
    ensures |r| == |p|
  {
    seq(|p|, i requires 0 <= i < |p| => p[i] != q[i])
  }

  function OrOf(p: seq<bool>, q: seq<bool>): (r: seq<bool>)
    requires |p| == |q|
    ensures |r| == |p|
  {
    seq(|p|, i requires 0 <= i < |p| => p[i] || q[i])
  }

  function AndOf(p: seq<bool>, q: seq<bool>): (r: seq<bool>)
    requires |p| == |q|
    ensures |r| == |p|
  {
    seq(|p|, i requires 0 <= i < |p| => p[i] && q[i])
  }

  lemma LastBits(p: seq<bool>, q: seq<bool>)
    requires |p| == |q| > 0
    ensures var n := |p| - 1;
      && XorOf(p, q)[..n] == XorOf(p[..n], q[..n]) && XorOf(p, q)[n] == (p[n] != q[n])
      && OrOf(p, q)[..n] == OrOf(p[..n], q[..n]) && OrOf(p, q)[n] == (p[n] || q[n])
      && AndOf(p, q)[..n] == AndOf(p[..n], q[..n]) && AndOf(p, q)[n] == (p[n] && q[n])
  {
  }

  /** Adding without carries, and the carries. */
  lemma {:induction false} ValueSums(p: seq<bool>, q: seq<bool>)
    requires |p| == |q|
    ensures Value(XorOf(p, q)) + 2 * Value(AndOf(p, q)) == Value(p) + Value(q)
    ensures Value(OrOf(p, q)) + Value(AndOf(p, q)) == Value(p) + Value(q)
  {
    hide Value, Pow2, XorOf, OrOf, AndOf;
    var x, o, a := XorOf(p, q), OrOf(p, q), AndOf(p, q);
    if |p| == 0 {
      EmptyValue();
      assert p == [] == q == x == o == a;
    } else {
      var n := |p| - 1;
      ValueSums(p[..n], q[..n]);
      LastBits(p, q);
      LastDigitOf(p);
      LastDigitOf(q);
      LastDigitOf(x);
      LastDigitOf(o);
      LastDigitOf(a);
    }
  }

  lemma BitwiseSums(a: Word, b: Word)
    ensures OpResult(4, 0x00, a, b) + 2 * OpResult(7, 0x00, a, b) == a + b
    ensures OpResult(6, 0x00, a, b) + OpResult(7, 0x00, a, b) == a + b
  {
    hide Value, Bits, OpResult;
    BitwiseResults(a, b);
    BitsInverse(a);
    BitsInverse(b);
    ValueSums(Bits(a), Bits(b));
    assert XorOf(Bits(a), Bits(b)) == seq(32, i requires 0 <= i < 32 => Bits(a)[i] != Bits(b)[i]);
    assert OrOf(Bits(a), Bits(b)) == seq(32, i requires 0 <= i < 32 => Bits(a)[i] || Bits(b)[i]);
    assert AndOf(Bits(a), Bits(b)) == seq(32, i requires 0 <= i < 32 => Bits(a)[i] && Bits(b)[i]);
  }

  // ----- arithmetic and comparison

  /** The signed value is the number between -2^31 and 2^31 that is congruent to the word. */
  lemma SignedMeaning(w: Word, x: int)
    ensures Signed(w) == x <==> -0x8000_0000 <= x < 0x8000_0000 && (x - w) % TWO32 == 0
  {
  }

  lemma SumMeaning(a: Word, b: Word)
    ensures (OpResult(0, 0x00, a, b) - (a + b)) % TWO32 == 0
    ensures (OpResult(0, 0x20, a, b) - (a - b)) % TWO32 == 0
  {
  }

  /** SLT and SLTU give 1 for smaller and 0 for greater or equal. */
  lemma ComparisonMeaning(a: Word, b: Word)
    ensures OpResult(2, 0x00, a, b) == (if Signed(a) < Signed(b) then 1 else 0)
    ensures OpResult(3, 0x00, a, b) == (if a < b then 1 else 0)
    ensures OpResult(2, 0x00, a, b) + OpResult(2, 0x00, b, a) == (if a == b then 0 else 1)
    ensures OpResult(3, 0x00, a, b) + OpResult(3, 0x00, b, a) == (if a == b then 0 else 1)
  {
  }

  // ----- shifts

  /** SLL multiplies and SRL divides by the power of two that the low five bits of the second operand name. */
  lemma ShiftMeaning(a: Word, b: Word)
    ensures Pow2(b % 32) > 0
    ensures (OpResult(1, 0x00, a, b) - a * Pow2(b % 32)) % TWO32 == 0
    ensures OpResult(5, 0x00, a, b) == a / Pow2(b % 32)
  {
    hide Pow2;
    Pow2Positive(b % 32);
    CongruentSum(a * Pow2(b % 32), a * Pow2(b % 32));
    Zero();
  }

  lemma SraBits(a: Word, s: nat)
    requires s < 32
    ensures Bits(Sra(a, s)) == Repeat(Bits(a)[0], s) + Bits(a)[..32 - s]
  {
    hide Bits, FromBits, Sra, Alu.ShiftAmount;
    var b := Bits(a);
    Alu.ArithmeticRightShift(a, s);
    Alu.ShiftAmountIsMod(s);
    var shl := Alu.ArithmeticShiftRight([b[0]] + b, s);
    assert shl[1..] == Repeat(b[0], s) + b[..32 - s];
    BitsOfFromBits(shl[1..]);
  }

  lemma FloorUnique(q: int, r: nat, d: nat)
    requires r < d
    ensures (q * d + r) / d == q
  {
    var x := q * d + r;
    var k := x / d;
    FloorParts(x, d);
    if k > q {
      MulOrder(1, k - q, d);
      Difference(k, q, d);
    } else if k < q {
      MulOrder(1, q - k, d);
      Difference(q, k, d);
    }
  }

  lemma FloorParts(x: int, d: nat)
    requires d > 0
    ensures x == x / d * d + x % d && 0 <= x % d < d
  {
  }

  lemma Difference(k: int, q: int, d: nat)
    ensures (k - q) * d == k * d - q * d
  {
  }

  /** SRA divides the signed value by a power of two, rounding down. */
  lemma SraMeaning(a: Word, s: Word)
    requires s < 32
    ensures Pow2(s) > 0 && Signed(OpResult(5, 0x20, a, s)) == Signed(a) / Pow2(s)
  {
    hide Pow2, Value, ToBits, Bits, Sra;
    Pow2Positive(s);
    var b, w := Bits(a), Sra(a, s);
    SraBits(a, s);
    Alu.SignBit(a);
    Alu.SignBit(w);
    Alu.SplitValue(a, 32 - s);
    var v, low := Value(b[..32 - s]), Value(b[32 - s..]);
    BitsInverse(w);
    ValueConcat(Repeat(b[0], s), b[..32 - s]);
    if b[0] {
      Alu.ValueOfOnes(s);
      Pow2Add(s, 32 - s);
      Pow2Of32();
      OnesTimes(Pow2(s), Pow2(32 - s));
      assert Bits(w)[0];
      NegativeQuotient(a, v, low, Pow2(s), Pow2(32 - s));
    } else {
      Alu.ValueOfZeros(s, b[..32 - s]);
      assert !Bits(w)[0];
      FloorUnique(v, low, Pow2(s));
    }
  }

  lemma NegativeQuotient(a: Word, v: nat, low: nat, p: nat, q: nat)
    requires a == v * p + low && low < p && p * q == TWO32
    ensures (a - TWO32) / p == v - q
  {
    assert (v - q) * p + low == v * p - q * p + low;
    MulCommutative(p, q);
    FloorUnique(v - q, low, p);
  }

  // ----- products

  lemma CongruentSigned(h: int)
    requires -0x8000_0000 <= h < 0x8000_0000
    ensures Signed(Wrap(h)) == h
  {
  }

  lemma HighAndLow(p: int)
    ensures p == p / TWO32 * TWO32 + Wrap(p)
  {
  }

  lemma ProductBounds(x: int, y: int)
    requires -0x8000_0000 <= x <= 0x8000_0000 && 0 <= y <= TWO32
    ensures -0x8000_0000 * TWO32 <= x * y <= 0x8000_0000 * TWO32
    ensures -0x8000_0000 < x < 0x8000_0000 && y > 0 ==> -0x8000_0000 * TWO32 < x * y < 0x8000_0000 * TWO32
  {
    var m := if x < 0 then -x else x;
    MulOrder(m, 0x8000_0000, y);
    MulOrder(y, TWO32, 0x8000_0000);
    MulOrder(y, TWO32, m);
  }

  lemma LowWordSame(a: Word, b: Word)
    ensures Wrap(Signed(a) * Signed(b)) == Wrap(Signed(a) * b) == Wrap(a * b)
  {
    hide Wrap;
    WordOf(a);
    WordOf(b);
    var k, l := if Signed(a) == a then 0 else 1, if Signed(b) == b then 0 else 1;
    assert Signed(a) * b == Signed(a) * Signed(b) + l * Signed(a) * TWO32;
    assert a * b == Signed(a) * b + k * b * TWO32;
    Alu.WrapMultiple(Signed(a) * Signed(b), l * Signed(a));
    Alu.WrapMultiple(Signed(a) * b, k * b);
  }

  lemma WordOf(a: Word)
    ensures a == Signed(a) || a == Signed(a) + TWO32
  {
  }

  /** The high word, signed for MULH and MULHSU, and the low word make the whole product. */
  lemma ProductMeaning(a: Word, b: Word)
    ensures var low := OpResult(0, 0x01, a, b);
      && Signed(a) * Signed(b) == Signed(OpResult(1, 0x01, a, b)) * TWO32 + low
      && Signed(a) * b == Signed(OpResult(2, 0x01, a, b)) * TWO32 + low
      && a * b == OpResult(3, 0x01, a, b) * TWO32 + low
  {
    hide Wrap, Signed, OpResult;
    ProductResults(a, b);
    LowWordSame(a, b);
    HighAndLow(Signed(a) * Signed(b));
    HighAndLow(Signed(a) * b);
    HighAndLow(a * b);
    SignedProductHigh(a, b);
    MixedProductHigh(a, b);
    ProductHigh(a, b);
  }

  lemma ProductResults(a: Word, b: Word)
    ensures OpResult(0, 0x01, a, b) == Wrap(Signed(a) * Signed(b))
    ensures OpResult(1, 0x01, a, b) == Wrap(Signed(a) * Signed(b) / TWO32)
    ensures OpResult(2, 0x01, a, b) == Wrap(Signed(a) * b / TWO32)
    ensures OpResult(3, 0x01, a, b) == Wrap(a * b / TWO32)
  {
    hide Wrap, Signed;
    Alu.MixedParts(a, b);
    Alu.ProductMod(Signed(a), b);
    var p := Signed(a) * b;
    Alu.AsSigned64Mod(p % TWO64);
    hide OpResult, Alu.AsSigned64;
    Alu.HighWord(Alu.AsSigned64(p % TWO64), p);
  }

  lemma SignedProductHigh(a: Word, b: Word)
    ensures Signed(Wrap(Signed(a) * Signed(b) / TWO32)) == Signed(a) * Signed(b) / TWO32
  {
    hide Wrap;
    var x, y := Signed(a), Signed(b);
    var m := if y < 0 then -y else y;
    ProductBounds(x, m);
    assert x * y == x * m || x * y == -(x * m);
    MulOrder(m, 0x8000_0000, if x < 0 then -x else x);
    MulOrder(if x < 0 then -x else x, 0x8000_0000, 0x8000_0000);
    CongruentSigned(x * y / TWO32);
  }

  lemma MixedProductHigh(a: Word, b: Word)
    ensures Signed(Wrap(Signed(a) * b / TWO32)) == Signed(a) * b / TWO32
  {
    hide Wrap;
    ProductBounds(Signed(a), b);
    var m := if Signed(a) < 0 then -Signed(a) else Signed(a);
    MulOrder(b + 1, TWO32, m);
    MulOrder(m, 0x8000_0000, b);
    assert Signed(a) * b < 0x8000_0000 * TWO32;
    CongruentSigned(Signed(a) * b / TWO32);
  }

  lemma ProductHigh(a: Word, b: Word)
    ensures Wrap(a * b / TWO32) == a * b / TWO32
  {
    MulOrder(a, TWO32 - 1, b);
    MulOrder(b, TWO32 - 1, TWO32 - 1);
    WordQuotient(a * b);
  }

  lemma WordQuotient(p: nat)
    requires p < TWO64
    ensures Wrap(p / TWO32) == p / TWO32
  {
  }

  // ----- quotients and remainders

  lemma TruncMeaning(x: int, y: int)
    requires y != 0
    ensures var q, r := TruncDiv(x, y), TruncMod(x, y);
      && x == y * q + r
      && Magnitude(r) < Magnitude(y) && (r == 0 || (r < 0 <==> x < 0))
      && Magnitude(q) <= Magnitude(x) && (Magnitude(y) > 1 && x != 0 ==> Magnitude(q) < Magnitude(x))
      && (y == 1 ==> q == x) && (y == -1 ==> q == -x && r == 0)
  {
    hide TruncDiv;
    SignedParts(x, y);
    var a, b := Magnitude(x), Magnitude(y);
    DivMod(a, b);
    QuotientSmaller(a, b);
    var k := a / b;
    if b > 1 && a > 0 {
      MulOrder(2, b, k);
      MulCommutative(b, k);
    }
    if b == 1 {
      DivModUnique(0, a, 1);
    }
  }

  /** Table 6.1 of the manual, and the identity that holds everywhere else: the dividend is the divisor times the
      quotient plus a remainder that is smaller than the divisor and has the sign of the dividend. */
  lemma DivisionMeaning(a: Word, b: Word)
    ensures var q, qu := OpResult(4, 0x01, a, b), OpResult(5, 0x01, a, b);
      var r, ru := OpResult(6, 0x01, a, b), OpResult(7, 0x01, a, b);
      if b == 0 then q == 0xFFFF_FFFF == qu && r == a == ru
      else
        a == b * qu + ru && ru < b
        && if a == 0x8000_0000 && b == 0xFFFF_FFFF then q == 0x8000_0000 && r == 0
           else
             Signed(a) == Signed(b) * Signed(q) + Signed(r)
             && Magnitude(Signed(r)) < Magnitude(Signed(b))
             && (Signed(r) == 0 || (Signed(r) < 0 <==> Signed(a) < 0))
  {
    hide OpResult, TruncDiv, TruncMod, Wrap;
    Divider.GoldenDivision(4, a, b);
    Divider.GoldenDivision(5, a, b);
    Divider.GoldenDivision(6, a, b);
    Divider.GoldenDivision(7, a, b);
    if b != 0 {
      Divider.UnsignedResult(a, b);
      DivMod(a, b);
      MulCommutative(b, a / b);
      var x, y := Signed(a), Signed(b);
      TruncMeaning(x, y);
      if a == 0x8000_0000 && b == 0xFFFF_FFFF {
        WrapOverflow();
      } else {
        CongruentSigned(TruncDiv(x, y));
        CongruentSigned(TruncMod(x, y));
      }
    }
  }

  lemma WrapOverflow()
    ensures Wrap(0x8000_0000) == 0x8000_0000 && Wrap(0) == 0
  {
  }

  // ----- decoding

  lemma DecodingPowers()
    ensures Pow2(0) == 1 && Pow2(3) == 8 && Pow2(25) == 0x200_0000
  {
    FieldPowers();
    Pow2Add(5, 20);
  }

  /** The fields of an instruction as quotients and remainders. */
  lemma InstructionFields(inst: Word)
    ensures Rd(inst) == inst / 0x80 % 32 && Rs1(inst) == inst / 0x8000 % 32 && Rs2(inst) == inst / 0x10_0000 % 32
    ensures Funct3(inst) == inst / 0x1000 % 8 && Funct7(inst) == inst / 0x200_0000 % 128
    ensures ImmI(inst) == inst / 0x10_0000 % 0x1000 && ImmU(inst) % 0x1000 == 0 && ImmU(inst) / 0x1000 == inst / 0x1000
  {
    hide Field, Pow2, Bits, Value, ImmU;
    DecodingPowers();
    FieldPowers();
    FieldValue(inst, 7, 11);
    FieldValue(inst, 15, 19);
    FieldValue(inst, 20, 24);
    FieldValue(inst, 12, 14);
    FieldValue(inst, 25, 31);
    FieldValue(inst, 20, 31);
    UpperImmediate(inst);
  }

  lemma UpperImmediate(inst: Word)
    ensures ImmU(inst) % 0x1000 == 0 && ImmU(inst) / 0x1000 == inst / 0x1000
  {
    hide Pow2, Bits, Value, ImmU;
    FieldPowers();
    ImmediateUBits(inst);
    var b := Bits(inst);
    Alu.SplitValue(inst, 20);
    BitsInverse(ImmU(inst));
    Alu.ValueOfZeros(12, b[..20]);
    DivModUnique(Value(b[20..]), Value(b[..20]), 0x1000);
    DivModUnique(0, Value(b[..20]), 0x1000);
  }

  /** The seven low bits choose the kind of instruction, as in Table 19.1 of the manual; if the lowest two are not both
      set nothing happens, not even to the program counter, and the code is 1; other kinds are skipped with code 6. */
  lemma OpcodeMap(m: Machine, inst: Word, undefined: UndefinedShift)
    requires m.Valid()
    ensures Execute(m, inst, undefined) ==
      if inst % 4 != 3 then Outcome(NoEffect, m.pc, 1)
      else
        match inst % 128
        case 0x33 => Op(m, inst, undefined)
        case 0x13 => OpImm(m, inst)
        case 0x03 => Load(m, inst)
        case 0x23 => StoreTo(m, inst)
        case 0x63 => Branch(m, inst)
        case 0x6F => Jal(m, inst)
        case 0x67 => Jalr(m, inst)
        case 0x37 => Lui(m, inst)
        case 0x17 => Auipc(m, inst)
        case 0x73 => System(m, inst)
        case _ => Outcome(NoEffect, Wrap(m.pc + 4), 6)
  {
    hide Field, Pow2, Op, OpImm, Load, StoreTo, Branch, Jal, Jalr, Lui, Auipc, System, Wrap;
    DecodingPowers();
    FieldPowers();
    FieldValue(inst, 0, 1);
    FieldValue(inst, 2, 6);
    OpcodeParts(inst);
  }

  lemma OpcodeParts(inst: Word)
    ensures inst / 1 % 4 == inst % 4 && inst % 128 == inst / 4 % 32 * 4 + inst % 4
  {
  }

  /** ECALL returns -2 and EBREAK -1, as the header of the simulator says. */
  lemma SystemCodes(m: Machine, inst: Word)
    ensures inst == 0x73 ==> System(m, inst).code == -2
    ensures inst == 0x10_0073 ==> System(m, inst).code == -1
    ensures System(m, inst).code < 0 <==> inst / 0x10_0000 < 2
  {
    hide Wrap, ImmI;
    InstructionFields(inst);
    TopField(inst);
  }

  lemma TopField(inst: Word)
    ensures inst / 0x10_0000 % 0x1000 == inst / 0x10_0000
  {
  }

  // ----- branches and jumps

  /** Equality is a difference of zero; the other conditions are those of SLT and SLTU. */
  lemma BranchConditions(a: Word, b: Word)
    ensures Taken(0, a, b) <==> OpResult(0, 0x20, a, b) == 0
    ensures Taken(1, a, b) <==> OpResult(0, 0x20, a, b) != 0
    ensures Taken(4, a, b) <==> OpResult(2, 0x00, a, b) == 1
    ensures Taken(5, a, b) <==> OpResult(2, 0x00, a, b) == 0
    ensures Taken(6, a, b) <==> OpResult(3, 0x00, a, b) == 1
    ensures Taken(7, a, b) <==> OpResult(3, 0x00, a, b) == 0
    ensures !Taken(2, a, b) && !Taken(3, a, b)
  {
  }

  /** The offset of a branch: an even number of 13 bits, taken from the instruction as Figure 2.4 says. */
  function BranchOffset(inst: Word): Word {
    var b := Bits(inst);
    FromBits(Repeat(b[0], 20) + [b[24]] + b[1..7] + b[20..24] + [false])
  }

  function JumpOffset(inst: Word): Word {
    var b := Bits(inst);
    FromBits(Repeat(b[0], 12) + b[12..20] + [b[11]] + b[1..11] + [false])
  }

  function RegisterOffset(inst: Word): Word {
    FromBits(Repeat(Bits(inst)[0], 20) + Bits(inst)[..12])
  }

  lemma Offsets(inst: Word)
    ensures SignExtend(ImmB(inst), 13) == BranchOffset(inst)
    ensures SignExtend(ImmJ(inst), 21) == JumpOffset(inst)
    ensures SignExtend(ImmI(inst), 12) == RegisterOffset(inst)
  {
    hide Bits, FromBits, SignExtend, ImmB, ImmJ, ImmI;
    ImmediateBBits(inst);
    ImmediateJBits(inst);
    ImmediateIBits(inst);
    var b := Bits(inst);
    WordOfBits(SignExtend(ImmB(inst), 13), Repeat(b[0], 20) + [b[24]] + b[1..7] + b[20..24] + [false]);
    WordOfBits(SignExtend(ImmJ(inst), 21), Repeat(b[0], 12) + b[12..20] + [b[11]] + b[1..11] + [false]);
    WordOfBits(SignExtend(ImmI(inst), 12), Repeat(b[0], 20) + b[..12]);
  }

  lemma CongruentSum(x: int, y: int)
    ensures (Wrap(x) - y) % TWO32 == (x - y) % TWO32
  {
    Congruence(x, y, x / TWO32);
  }

  lemma Congruence(x: int, y: int, k: int)
    ensures (x - k * TWO32 - y) % TWO32 == (x - y) % TWO32
  {
  }

  /** Where the program goes on after a branch or a jump, relative to the program counter or the register, and the
      return address that a jump leaves. */
  lemma JumpMeaning(m: Machine, inst: Word)
    requires m.Valid()
    ensures var o, taken := Branch(m, inst), Taken(Funct3(inst), m.x[Rs1(inst)], m.x[Rs2(inst)]);
      o.effect.NoEffect? && (o.pc - (m.pc + if taken then BranchOffset(inst) else 4)) % TWO32 == 0
    ensures var o := Jal(m, inst);
      o.effect.SetRegister? && o.effect.rd == Rd(inst) && (o.effect.value - (m.pc + 4)) % TWO32 == 0
      && (o.pc - (m.pc + JumpOffset(inst))) % TWO32 == 0
    ensures var o := Jalr(m, inst);
      o.effect.SetRegister? && o.effect.rd == Rd(inst) && (o.effect.value - (m.pc + 4)) % TWO32 == 0
      && (o.pc - (m.x[Rs1(inst)] + RegisterOffset(inst))) % TWO32 == 0
  {
    hide Wrap, SignExtend, ImmB, ImmJ, ImmI, Register, Taken, BranchOffset, JumpOffset, RegisterOffset, Funct3;
    Offsets(inst);
    Zero();
    var step := if Taken(Funct3(inst), m.x[Rs1(inst)], m.x[Rs2(inst)]) then BranchOffset(inst) else 4;
    CongruentSum(m.pc + step, m.pc + step);
    CongruentSum(m.pc + 4, m.pc + 4);
    CongruentSum(m.pc + JumpOffset(inst), m.pc + JumpOffset(inst));
    CongruentSum(m.x[Rs1(inst)] + RegisterOffset(inst), m.x[Rs1(inst)] + RegisterOffset(inst));
  }

  lemma Zero()
    ensures 0 % TWO32 == 0
  {
  }

  /** LUI gives the upper twenty bits of the instruction followed by zeros, AUIPC adds the program counter; both go on
      with the next instruction. */
  lemma UpperMeaning(m: Machine, inst: Word)
    ensures var o := Lui(m, inst);
      o.effect == SetRegister(Rd(inst), inst / 0x1000 * 0x1000) && (o.pc - (m.pc + 4)) % TWO32 == 0
    ensures var o := Auipc(m, inst);
      o.effect.SetRegister? && o.effect.rd == Rd(inst)
      && (o.effect.value - (m.pc + inst / 0x1000 * 0x1000)) % TWO32 == 0 && (o.pc - (m.pc + 4)) % TWO32 == 0
  {
    hide Wrap, ImmU, Register;
    UpperImmediate(inst);
    UpperSame(inst);
    Zero();
    CongruentSum(m.pc + 4, m.pc + 4);
    CongruentSum(m.pc + ImmU(inst), m.pc + ImmU(inst));
  }

  lemma UpperSame(inst: Word)
    requires ImmU(inst) % 0x1000 == 0 && ImmU(inst) / 0x1000 == inst / 0x1000
    ensures ImmU(inst) == inst / 0x1000 * 0x1000
  {
    hide ImmU;
  }

  // ----- loads and stores

  lemma {:induction false} ByteBitsValue(b: seq<Octet>)
    ensures Value(ByteBits(b)) == if b == [] then 0 else Value(ByteBits(b[1..])) * 256 + b[0]
  {
    hide Value, ToBits, Pow2;
    if b == [] {
      EmptyValue();
    } else {
      Pow2Of8();
      ValueConcat(ByteBits(b[1..]), ToBits(b[0], 8));
      ValueOfBits(b[0], 8);
    }
  }

  /** Bytes are put together lowest first. */
  lemma AssembledValue(b: seq<Octet>)
    requires |b| == 1 || |b| == 2 || |b| == 4
    ensures |b| == 1 ==> Assemble(b) == b[0]
    ensures |b| == 2 ==> Assemble(b) == b[0] as int + 0x100 * (b[1] as int)
    ensures |b| == 4 ==>
      Assemble(b) == b[0] as int + 0x100 * (b[1] as int) + 0x1_0000 * (b[2] as int) + 0x100_0000 * (b[3] as int)
  {
    hide Value, Bits, ByteBits, Assemble, Pow2;
    AssembleBits(b);
    LowBits(Assemble(b), ByteBits(b));
    ByteBitsValue(b);
    ByteBitsValue(b[1..]);
    if |b| == 1 {
      assert b[1..] == [];
    } else {
      ByteBitsValue(b[1..][1..]);
      if |b| == 2 {
        assert b[1..][1..] == [];
      } else {
        ByteBitsValue(b[1..][1..][1..]);
        ByteBitsValue([]);
        assert b[1..][1..][1..][1..] == [];
      }
    }
  }

  /** The value of a byte or half-word in two's complement. */
  function TwosComplement(v: int, modulus: int): int {
    if 2 * v < modulus then v else v - modulus
  }

  /** What each load gives in terms of the bytes at its address. */
  lemma LoadMeaning(memory: seq<SegmentValue>, address: Word)
    requires AllWellSized(memory)
    ensures var b0, b1 := ReadByte(memory, address), ReadByte(memory, Wrap(address + 1));
      var b2, b3 := ReadByte(memory, Wrap(address + 2)), ReadByte(memory, Wrap(address + 3));
      && Signed(LoadValue(memory, address, 0)) == TwosComplement(b0, 0x100)
      && Signed(LoadValue(memory, address, 1)) == TwosComplement(b0 + 0x100 * b1, 0x1_0000)
      && LoadValue(memory, address, 2) == b0 + 0x100 * b1 + 0x1_0000 * b2 + 0x100_0000 * b3
      && LoadValue(memory, address, 4) == b0
      && LoadValue(memory, address, 5) == b0 + 0x100 * b1
  {
    hide ReadByte, Assemble, Wrap, SignExtend, Signed, Pow2;
    LoadPowers();
    AddressItself(address);
    AssembledValue(ReadBytes(memory, address, 1));
    AssembledValue(ReadBytes(memory, address, 2));
    AssembledValue(ReadBytes(memory, address, 4));
    SignExtendValue(ReadByte(memory, address), 8);
    SignExtendValue(ReadByte(memory, address) + 0x100 * ReadByte(memory, Wrap(address + 1)), 16);
  }

  lemma AddressItself(address: Word)
    ensures Wrap(address + 0) == address
  {
  }

  lemma LoadPowers()
    ensures Pow2(7) == 0x80 && Pow2(8) == 0x100 && Pow2(15) == 0x8000 && Pow2(16) == 0x1_0000
  {
    FieldPowers();
    Pow2Of8();
    Pow2Add(8, 8);
  }

  /** A store writes the low bytes of the register, lowest first. */
  lemma StoreMeaning(v: Word, n: nat, k: nat)
    requires n <= 4 && k < n
    ensures BytesOf(v, n)[k]
         == (if k == 0 then v else if k == 1 then v / 0x100 else if k == 2 then v / 0x1_0000 else v / 0x100_0000) % 0x100
  {
    hide Field, Pow2;
    DecodingPowers();
    LoadPowers();
    Pow2Add(8, 16);
    FieldValue(v, 8 * k, 8 * k + 7);
  }

  // ----- what is rejected

  /** The codes of instructions that change no register: 2 for unknown variants with funct7 0x20, 3 and 4 for immediate
      shifts with unknown upper bits; all other unknown values of funct7 are passed over with code 0. */
  lemma Rejections(m: Machine, inst: Word, undefined: UndefinedShift)
    requires m.Valid()
    ensures var f3, f7 := inst / 0x1000 % 8, inst / 0x200_0000 % 128;
      && (Op(m, inst, undefined).code == if f7 == 0x20 && f3 != 0 && f3 != 5 then 2 else 0)
      && (Op(m, inst, undefined).effect.NoEffect? <==> (f7 == 0x20 && f3 != 0 && f3 != 5) || f7 !in {0x00, 0x01, 0x20})
      && (OpImm(m, inst).code
          == if f3 == 1 && f7 != 0 then 3 else if f3 == 5 && f7 != 0 && f7 != 0x20 then 4 else 0)
      && (OpImm(m, inst).effect.NoEffect? <==> OpImm(m, inst).code != 0)
  {
    hide Register, Wrap, OpResult, Funct3, Funct7, ImmI, SignExtend;
    InstructionFields(inst);
  }
}
