/** The combinational part of the ALU: a shifter that only shifts right, one signed multiplier for four
    instructions, and the output multiplexer.  It computes what the simulator writes. */
module Alu {
  import opened Arithmetic
  import opened Bytes
  import opened Words
  import Division
  import opened Divider

  // ----- shifter

  function Reverse(b: seq<bool>): (r: seq<bool>)
    ensures |r| == |b|
  {
    seq(|b|, i requires 0 <= i < |b| => b[|b| - 1 - i])
  }

  /** `>>>` on a signed bit vector */
  function ArithmeticShiftRight(b: seq<bool>, n: nat): (r: seq<bool>)
    requires n < |b|
    ensures |r| == |b|
  {
    Repeat(b[0], n) + b[..|b| - n]
  }

  /** The shift amount: the low five bits of the second operand. */
  function ShiftAmount(in2: Word): (n: nat)
    ensures n < 32
  {
    Pow2Of32();
    ValueBound(Bits(in2)[27..]);
    Value(Bits(in2)[27..])
  }

  function ShifterOut(in1: Word, in2: Word, isLeft: bool, isSra: bool): Word {
    var shifterIn := if isLeft then Reverse(Bits(in1)) else Bits(in1);
    var shl := ArithmeticShiftRight([isSra && shifterIn[0]] + shifterIn, ShiftAmount(in2));
    FromBits(if isLeft then Reverse(shl[1..]) else shl[1..])
  }

  // ----- multiplier

  /** The operands are extended to 33 bits: with their sign bit, or with zero. */
  function MulOut(in1: Word, in2: Word, funct3: nat): (product: int)
    ensures 0 <= product < TWO64
  {
    var a := if funct3 <= 2 then Signed(in1) else in1;
    var b := if funct3 <= 1 then Signed(in2) else in2;
    a * b % TWO64
  }

  function MulLow(product: int): Word {
    Wrap(product)
  }

  function MulHigh(product: int): Word {
    Wrap(product / TWO32)
  }

  // ----- output

  /** The output for an instruction other than a division, whose output comes from the divider's registers. */
  function Out(i: Inputs): Word
    requires !i.IsDivision() && i.funct3 < 8
  {
    var m := i.IsMExtension();
    var isSra := i.funct7 == FUNCT7_ALT;
    match i.funct3
    case 0 =>
      if !i.isImm && i.funct7 == FUNCT7_ALT then Wrap(i.in1 - i.in2)
      else if m then MulLow(MulOut(i.in1, i.in2, 0))
      else Wrap(i.in1 + i.in2)
    case 1 => if m then MulHigh(MulOut(i.in1, i.in2, 1)) else ShifterOut(i.in1, i.in2, true, isSra)
    case 2 => if m then MulHigh(MulOut(i.in1, i.in2, 2)) else if Signed(i.in1) < Signed(i.in2) then 1 else 0
    case 3 => if m then MulHigh(MulOut(i.in1, i.in2, 3)) else if i.in1 < i.in2 then 1 else 0
    case 4 => Xor32(i.in1, i.in2)
    case 5 => ShifterOut(i.in1, i.in2, false, isSra)
    case 6 => Or(i.in1, i.in2)
    case _ => And(i.in1, i.in2)
  }

  // ----- the shifter computes the shifts of the simulator

  lemma ShiftAmountIsMod(in2: Word)
    ensures ShiftAmount(in2) == in2 % 32
  {
    hide Pow2, Value, ToBits;
    var b := Bits(in2);
    Pow2Of32();
    BitsInverse(in2);
    assert b == b[..27] + b[27..];
    ValueConcat(b[..27], b[27..]);
    ValueBound(b[27..]);
    DivModUnique(Value(b[27..]), Value(b[..27]), 32);
  }

  /** The value of the bits before and after a split. */
  lemma SplitValue(w: Word, k: nat)
    requires k <= 32
    ensures var b := Bits(w);
      w == Value(b[..k]) * Pow2(32 - k) + Value(b[k..]) && Value(b[k..]) < Pow2(32 - k)
  {
    hide Pow2, Value, ToBits;
    var b := Bits(w);
    BitsInverse(w);
    assert b == b[..k] + b[k..];
    ValueConcat(b[..k], b[k..]);
    ValueBound(b[k..]);
  }

  lemma {:induction false} ValueOfZeros(n: nat, b: seq<bool>)
    ensures Value(Repeat(false, n)) == 0
    ensures Value(Repeat(false, n) + b) == Value(b)
    ensures Value(b + Repeat(false, n)) == Value(b) * Pow2(n)
  {
    hide Pow2;
    if n == 0 {
      assert Repeat(false, 0) == [];
    } else {
      ValueOfZeros(n - 1, []);
      assert Repeat(false, n)[..n - 1] == Repeat(false, n - 1);
    }
    ValueConcat(Repeat(false, n), b);
    ValueConcat(b, Repeat(false, n));
    NoWeight(Pow2(|b|));
  }

  lemma NoWeight(p: nat)
    ensures 0 * p == 0
  {
  }

  lemma LeftShift(in1: Word, in2: Word)
    ensures ShifterOut(in1, in2, true, false) == ShiftLeft32(in1, in2 % 32)
  {
    hide Pow2, Value, ToBits;
    ShiftAmountIsMod(in2);
    var b, s := Bits(in1), ShiftAmount(in2);
    var shl := ArithmeticShiftRight([false] + Reverse(b), s);
    assert Reverse(shl[1..]) == b[s..] + Repeat(false, s);
    ValueOfZeros(s, b[s..]);
    SplitValue(in1, s);
    Pow2Add(32 - s, s);
    Pow2Of32();
    Pow2Positive(s);
    ShiftedOutBits(Value(b[..s]), Value(b[s..]), Pow2(32 - s), Pow2(s));
  }

  lemma ShiftedOutBits(high: nat, low: nat, p: nat, q: nat)
    requires p * q == TWO32 && low < p && q > 0
    ensures (high * p + low) * q % TWO32 == low * q
  {
    assert (high * p + low) * q == high * (p * q) + low * q;
    MulOrder(low + 1, p, q);
    MulStep(q, low);
    DivModUnique(low * q, high, TWO32);
  }

  lemma RightShift(in1: Word, in2: Word)
    ensures ShifterOut(in1, in2, false, false) == ShiftRight32(in1, in2 % 32)
  {
    hide Pow2, Value, ToBits;
    ShiftAmountIsMod(in2);
    var b, s := Bits(in1), ShiftAmount(in2);
    var shl := ArithmeticShiftRight([false] + b, s);
    assert shl[1..] == Repeat(false, s) + b[..32 - s];
    ValueOfZeros(s, b[..32 - s]);
    SplitValue(in1, 32 - s);
    DivModUnique(Value(b[32 - s..]), Value(b[..32 - s]), Pow2(s));
  }

  lemma ArithmeticRightShift(in1: Word, in2: Word)
    requires in2 < 32
    ensures ShifterOut(in1, in2, false, true) == Sra(in1, in2)
  {
    hide Pow2, Value, ToBits, ShiftRight32, ShiftLeft32;
    ShiftAmountIsMod(in2);
    RightShift(in1, in2);
    var b, s := Bits(in1), in2;
    SignBit(in1);
    var shifted := Repeat(false, s) + b[..32 - s];
    ShiftedBits(in1, in2);
    var shl := ArithmeticShiftRight([b[0]] + b, s);
    assert shl[1..] == Repeat(b[0], s) + b[..32 - s];
    if in1 >= 0x8000_0000 {
      OnesShifted(31 - s);
      var ones := Repeat(true, s + 1) + Repeat(false, 31 - s);
      forall i | 0 <= i < 32
        ensures shl[1..][i] == (shifted[i] || ones[i])
      {
      }
      assert shl[1..] == seq(32, i requires 0 <= i < 32 => shifted[i] || ones[i]);
    } else {
      assert shl[1..] == shifted;
    }
  }

  /** The shifter uses the low five bits of its second operand. */
  lemma ShifterUsesLowBits(in1: Word, in2: Word, amount: Word)
    requires in2 % 32 == amount
    ensures forall isLeft, isSra :: ShifterOut(in1, in2, isLeft, isSra) == ShifterOut(in1, amount, isLeft, isSra)
  {
    hide ShiftAmount, Bits, FromBits, Reverse, ArithmeticShiftRight;
    ShiftAmountIsMod(in2);
    ShiftAmountIsMod(amount);
  }

  /** The bits of a word shifted right. */
  lemma ShiftedBits(in1: Word, s: nat)
    requires s < 32
    ensures Bits(ShiftRight32(in1, s)) == Repeat(false, s) + Bits(in1)[..32 - s]
    ensures FromBits(Repeat(false, s) + Bits(in1)[..32 - s]) == ShiftRight32(in1, s)
  {
    hide Pow2, Value, ToBits;
    var b := Bits(in1);
    ValueOfZeros(s, b[..32 - s]);
    SplitValue(in1, 32 - s);
    DivModUnique(Value(b[32 - s..]), Value(b[..32 - s]), Pow2(s));
    BitsOfValue(Repeat(false, s) + b[..32 - s]);
  }

  lemma SignBit(w: Word)
    ensures Bits(w)[0] <==> w >= 0x8000_0000
  {
    hide Pow2, Value, ToBits;
    SplitValue(w, 1);
    Pow2Of32();
    assert Bits(w)[..1] == [Bits(w)[0]];
    Division.ValueOfBit(Bits(w)[0]);
  }

  /** The bits of all ones shifted left. */
  lemma OnesShifted(n: nat)
    requires n < 32
    ensures Bits(ShiftLeft32(ALL_ONES, n)) == Repeat(true, 32 - n) + Repeat(false, n)
  {
    hide Pow2, Value, ToBits;
    var r := Repeat(true, 32 - n) + Repeat(false, n);
    ValueOfOnes(32 - n);
    ValueOfZeros(n, Repeat(true, 32 - n));
    Pow2Add(32 - n, n);
    Pow2Of32();
    Pow2Positive(n);
    Pow2Positive(32 - n);
    var p, q := Pow2(32 - n), Pow2(n);
    // all ones = (q - 1) p + (p - 1)
    assert (q - 1) * p == q * p - p && q * p == p * q;
    ShiftedOutBits(q - 1, p - 1, p, q);
    BitsOfValue(r);
  }

  lemma {:induction false} ValueOfOnes(n: nat)
    ensures Value(Repeat(true, n)) == Pow2(n) - 1
  {
    if n == 0 {
      assert Repeat(true, 0) == [];
    } else {
      ValueOfOnes(n - 1);
      assert Repeat(true, n)[..n - 1] == Repeat(true, n - 1);
    }
  }

  // ----- the multiplier computes the four products of the simulator

  /** The high word of a product does not depend on multiples of 2^64. */
  lemma HighWord(x: int, y: int)
    requires x % TWO64 == y % TWO64
    ensures Wrap(x / TWO32) == Wrap(y / TWO32) && Wrap(x) == Wrap(y)
  {
    hide Wrap;
    var k := x / TWO64 - y / TWO64;
    assert x == y + k * TWO64;
    QuotientShift(y, k);
    WrapMultiple(y / TWO32, k);
    WrapMultiple(y, k * TWO32);
  }

  lemma QuotientShift(y: int, k: int)
    ensures (y + k * TWO64) / TWO32 == y / TWO32 + k * TWO32
  {
  }

  lemma WrapMultiple(z: int, k: int)
    ensures Wrap(z + k * TWO32) == Wrap(z)
  {
  }

  lemma ProductMod(x: int, y: int)
    ensures x % TWO64 * y % TWO64 == x * y % TWO64
  {
    var k := x / TWO64;
    assert x == k * TWO64 + x % TWO64;
    assert x * y == k * y * TWO64 + x % TWO64 * y;
    AddMultiple(x % TWO64 * y, k * y);
  }

  lemma AddMultiple(z: int, k: int)
    ensures (k * TWO64 + z) % TWO64 == z % TWO64
  {
  }

  lemma Products(a: Word, b: Word)
    ensures MulLow(MulOut(a, b, 0)) == OpResult(0, FUNCT7_M, a, b)
    ensures MulHigh(MulOut(a, b, 1)) == OpResult(1, FUNCT7_M, a, b)
    ensures MulHigh(MulOut(a, b, 3)) == OpResult(3, FUNCT7_M, a, b)
  {
    hide Wrap;
    HighWord(MulOut(a, b, 0), Signed(a) * Signed(b));
    HighWord(MulOut(a, b, 3), a * b);
  }

  function AsSigned64(result: int): int {
    if result >= TWO64 / 2 then result - TWO64 else result
  }

  lemma AsSigned64Mod(result: int)
    requires 0 <= result < TWO64
    ensures AsSigned64(result) % TWO64 == result % TWO64
  {
  }

  lemma MixedParts(a: Word, b: Word)
    ensures MulOut(a, b, 2) == Signed(a) * b % TWO64
    ensures OpResult(2, FUNCT7_M, a, b) == Wrap(AsSigned64(Signed(a) % TWO64 * b % TWO64) / TWO32)
  {
    hide Wrap, Signed;
  }

  lemma MixedProduct(a: Word, b: Word)
    ensures MulHigh(MulOut(a, b, 2)) == OpResult(2, FUNCT7_M, a, b)
  {
    hide Wrap, Signed, MulOut, OpResult, AsSigned64;
    MixedParts(a, b);
    ProductMod(Signed(a), b);
    AsSigned64Mod(MulOut(a, b, 2));
    HighWord(MulOut(a, b, 2), AsSigned64(MulOut(a, b, 2)));
  }

  /** For every pair of operands and every instruction the simulator executes, other than divisions, the
      output is the value that the simulator writes. */
  lemma AluRefinesSimulator(i: Inputs)
    requires !i.isImm && i.funct3 < 8 && !i.IsDivision() && LegalOp(i.funct3, i.funct7, i.in2)
    ensures Out(i) == OpResult(i.funct3, i.funct7, i.in1, i.in2)
  {
    hide ShifterOut, MulOut, MulLow, MulHigh, Xor32, Or, And, Sra, ShiftLeft32, ShiftRight32, Wrap;
    if i.funct7 == FUNCT7_M {
      Products(i.in1, i.in2);
      MixedProduct(i.in1, i.in2);
    } else if i.funct7 == FUNCT7_BASE {
      LeftShift(i.in1, i.in2);
      RightShift(i.in1, i.in2);
    } else if i.funct3 == 5 {
      ArithmeticRightShift(i.in1, i.in2);
    }
  }
}
