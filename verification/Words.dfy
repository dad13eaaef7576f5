/** 32-bit words and the result of every register-register instruction of the simulator. */
module Words {
  import opened Arithmetic
  import opened Bytes

  const TWO32 := 0x1_0000_0000

  type Word = w: int | 0 <= w < TWO32

  /** The signed value of a word, as after a cast to `int32_t`. */
  function Signed(w: Word): int {
    if w >= 0x8000_0000 then w - TWO32 else w
  }

  /** The word congruent to an integer. */
  function Wrap(x: int): Word {
    x % TWO32
  }

  /** The two's complement of a word. */
  function Negate(w: Word): Word {
    (TWO32 - w) % TWO32
  }

  /** The bits of a word, most significant first. */
  function Bits(w: Word): (b: seq<bool>)
    ensures |b| == 32
  {
    ToBits(w, 32)
  }

  lemma Pow2Of32()
    ensures Pow2(32) == TWO32 && Pow2(31) == 0x8000_0000 && Pow2(5) == 32
  {
    assert Pow2(8) == 0x100;
    assert Pow2(16) == 0x10000;
    assert Pow2(24) == 0x1000000;
    assert Pow2(30) == 0x4000_0000;
  }

  function FromBits(b: seq<bool>): Word
    requires |b| == 32
  {
    Pow2Of32();
    ValueBound(b);
    Value(b)
  }

  lemma BitsInverse(w: Word)
    ensures FromBits(Bits(w)) == w
  {
    Pow2Of32();
    ValueOfBits(w, 32);
  }

  // ----- bitwise operators

  function And(a: Word, b: Word): Word {
    FromBits(seq(32, i requires 0 <= i < 32 => Bits(a)[i] && Bits(b)[i]))
  }

  function Or(a: Word, b: Word): Word {
    FromBits(seq(32, i requires 0 <= i < 32 => Bits(a)[i] || Bits(b)[i]))
  }

  function Xor32(a: Word, b: Word): Word {
    FromBits(seq(32, i requires 0 <= i < 32 => Bits(a)[i] != Bits(b)[i]))
  }

  // ----- shifts

  /** `w << n` on a 32-bit unsigned integer */
  function ShiftLeft32(w: Word, n: nat): Word
    requires n < 32
  {
    w * Pow2(n) % TWO32
  }

  /** `w >> n` on a 32-bit unsigned integer */
  function ShiftRight32(w: Word, n: nat): Word
    requires n < 32
  {
    Pow2Positive(n);
    QuotientSmaller(w, Pow2(n));
    w / Pow2(n)
  }

  lemma {:induction false} Pow2Positive(n: nat)
    ensures Pow2(n) > 0
  {
    if n > 0 {
      Pow2Positive(n - 1);
    }
  }

  lemma QuotientSmaller(w: nat, d: nat)
    requires d > 0
    ensures 0 <= w / d <= w
  {
    DivMod(w, d);
    MulOrder(1, d, w / d);
    MulCommutative(d, w / d);
  }

  const ALL_ONES: Word := 0xFFFF_FFFF

  /** The simulator's arithmetic shift right. */
  function Sra(num: Word, shiftAmount: nat): Word
    requires shiftAmount < 32
  {
    var shifted := ShiftRight32(num, shiftAmount);
    if num >= 0x8000_0000 then Or(shifted, ShiftLeft32(ALL_ONES, 31 - shiftAmount)) else shifted
  }

  // ----- the register-register instructions

  /** Division that truncates toward zero, and its remainder. */
  function TruncDiv(x: int, y: int): int
    requires y != 0
  {
    var q := (if x < 0 then -x else x) / (if y < 0 then -y else y);
    if (x < 0) != (y < 0) then -q else q
  }

  function TruncMod(x: int, y: int): int
    requires y != 0
  {
    x - TruncDiv(x, y) * y
  }

  const FUNCT7_BASE := 0x00
  const FUNCT7_ALT := 0x20
  const FUNCT7_M := 0x01

  /** An instruction the simulator gives a result: register SRA needs a shift amount below the word size. */
  predicate LegalOp(funct3: nat, funct7: nat, b: Word) {
    || (funct7 == FUNCT7_BASE && funct3 < 8)
    || (funct7 == FUNCT7_ALT && (funct3 == 0 || (funct3 == 5 && b < 32)))
    || (funct7 == FUNCT7_M && funct3 < 8)
  }

  const TWO64 := 0x1_0000_0000_0000_0000

  /** The value that the simulator's OP step writes to the destination register. */
  function OpResult(funct3: nat, funct7: nat, a: Word, b: Word): Word
    requires LegalOp(funct3, funct7, b)
  {
    if funct7 == FUNCT7_BASE then
      match funct3
      case 0 => Wrap(a + b)
      case 4 => Xor32(a, b)
      case 6 => Or(a, b)
      case 7 => And(a, b)
      case 1 => ShiftLeft32(a, b % 32)
      case 5 => ShiftRight32(a, b % 32)
      case 2 => if Signed(a) < Signed(b) then 1 else 0
      case _ => if a < b then 1 else 0
    else if funct7 == FUNCT7_ALT then
      if funct3 == 0 then Wrap(a - b) else Sra(a, b)
    else
      match funct3
      case 0 => Wrap(Signed(a) * Signed(b))
      case 1 => Wrap(Signed(a) * Signed(b) / TWO32)
      case 2 =>
        // the signed operand is converted to an unsigned 64-bit integer
        var result := Signed(a) % TWO64 * b % TWO64;
        Wrap((if result >= TWO64 / 2 then result - TWO64 else result) / TWO32)
      case 3 => Wrap(a * b / TWO32)
      case 4 => if b == 0 then ALL_ONES else Wrap(TruncDiv(Signed(a), Signed(b)))
      case 5 => if b == 0 then ALL_ONES else Wrap(a / b)
      case 6 => if b == 0 then a else Wrap(TruncMod(Signed(a), Signed(b)))
      case _ => if b == 0 then a else Wrap(a % b)
  }
}
