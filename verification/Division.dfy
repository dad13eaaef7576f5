/** Binary division: the shift-the-divisor-down loop, the shift-the-dividend-in loop and the sign fix-up. */
module Division {
  import opened Arithmetic
  import opened Bytes
  import opened Words

  // ----- restoring division

  /** The remainder and the quotient after `k` steps of restoring division with `width` steps in all. */
  function Restore(dividend: nat, divisor: nat, width: nat, k: nat): (r: (nat, nat))
    requires k <= width
  {
    if k == 0 then (dividend, 0)
    else
      var (rem, quo) := Restore(dividend, divisor, width, k - 1);
      var d := divisor * Pow2(width - k);
      if d <= rem then (rem - d, 2 * quo + 1) else (rem, 2 * quo)
  }

  lemma HalveShifted(divisor: nat, n: nat)
    requires n > 0
    ensures divisor * Pow2(n) == 2 * (divisor * Pow2(n - 1))
  {
    var p := Pow2(n - 1);
    assert divisor * (2 * p) == 2 * (divisor * p);
  }

  /** The dividend is the quotient times the shifted divisor plus the remainder. */
  lemma {:induction false} RestoreInvariant(dividend: nat, divisor: nat, width: nat, k: nat)
    requires k <= width
    ensures var (rem, quo) := Restore(dividend, divisor, width, k);
      dividend == quo * (divisor * Pow2(width - k)) + rem && quo < Pow2(k) && rem <= dividend
    ensures dividend < divisor * Pow2(width) ==>
      Restore(dividend, divisor, width, k).0 < divisor * Pow2(width - k)
    ensures divisor == 0 ==> Restore(dividend, divisor, width, k) == (dividend, Pow2(k) - 1)
  {
    if k > 0 {
      hide Pow2;
      RestoreInvariant(dividend, divisor, width, k - 1);
      HalveShifted(divisor, width - k + 1);
      var (rem, quo) := Restore(dividend, divisor, width, k - 1);
      var d := divisor * Pow2(width - k);
      QuotientDigit(quo, d);
      DoublePow2(k - 1);
      if divisor == 0 {
        ZeroTimes(Pow2(width - k));
      }
    }
  }

  lemma QuotientDigit(quo: nat, d: nat)
    ensures quo * (2 * d) == (2 * quo) * d
    ensures (2 * quo + 1) * d == (2 * quo) * d + d
  {
    MulStep(d, 2 * quo);
  }

  lemma DoublePow2(k: nat)
    ensures Pow2(k + 1) == 2 * Pow2(k) && Pow2(0) == 1
  {
  }

  lemma ZeroTimes(n: nat)
    ensures 0 * n == 0
  {
  }

  /** Restoring division divides exactly when the quotient fits its bits. */
  lemma RestoreDivides(dividend: nat, divisor: nat, width: nat)
    requires divisor > 0
    ensures Restore(dividend, divisor, width, width) == (dividend % divisor, dividend / divisor)
        <==> dividend < divisor * Pow2(width)
  {
    hide Pow2, Restore;
    RestoreInvariant(dividend, divisor, width, width);
    DoublePow2(0);
    var (rem, quo) := Restore(dividend, divisor, width, width);
    assert divisor * Pow2(0) == divisor;
    if dividend < divisor * Pow2(width) {
      DivModUnique(rem, quo, divisor);
    } else if quo == dividend / divisor {
      DivMod(dividend, divisor);
      MulOrder(quo + 1, Pow2(width), divisor);
      MulStep(divisor, quo);
      MulCommutative(divisor, Pow2(width));
    }
  }

  /** The shifted divisor is halved at each step. */
  lemma RestoreStep(dividend: nat, divisor: nat, width: nat, k: nat, shifted: nat)
    requires k < width && shifted == divisor * Pow2(width - 1 - k)
    ensures var (rem, quo) := Restore(dividend, divisor, width, k);
      Restore(dividend, divisor, width, k + 1)
      == (if shifted <= rem then rem - shifted else rem, 2 * quo + if shifted <= rem then 1 else 0)
    ensures k + 1 < width ==> shifted / 2 == divisor * Pow2(width - 2 - k)
    ensures Restore(dividend, divisor, width, k).0 <= dividend
  {
    hide Pow2;
    RestoreInvariant(dividend, divisor, width, k);
    if k + 1 < width {
      HalveShifted(divisor, width - 1 - k);
    }
  }

  // ----- the program, which cuts remainders to 32 bits

  /** The remainder and the quotient after `k` steps when each new remainder is cut to 32 bits, and how often 2^32
      has been cut off. */
  datatype Masked = Masked(rem: nat, quo: nat, lost: nat)

  function MaskedRestore(dividend: nat, divisor: nat, width: nat, k: nat): (m: Masked)
    requires k <= width
  {
    if k == 0 then Masked(dividend, 0, 0)
    else MaskedStep(MaskedRestore(dividend, divisor, width, k - 1), divisor * Pow2(width - k))
  }

  function MaskedStep(m: Masked, d: nat): Masked {
    if d <= m.rem then Masked((m.rem - d) % TWO32, 2 * m.quo + 1, m.lost + (m.rem - d) / TWO32)
    else Masked(m.rem, 2 * m.quo, m.lost)
  }

  lemma {:induction false} MaskedInvariant(dividend: nat, divisor: nat, width: nat, k: nat)
    requires k <= width
    ensures var m := MaskedRestore(dividend, divisor, width, k);
      dividend == m.quo * (divisor * Pow2(width - k)) + m.rem + m.lost * TWO32 && m.quo < Pow2(k)
    ensures divisor == 0 && k > 0 ==>
      MaskedRestore(dividend, divisor, width, k) == Masked(dividend % TWO32, Pow2(k) - 1, dividend / TWO32)
  {
    hide Pow2;
    DoublePow2(if k > 0 then k - 1 else 0);
    if k > 0 {
      MaskedInvariant(dividend, divisor, width, k - 1);
      HalveShifted(divisor, width - k + 1);
      var m, d := MaskedRestore(dividend, divisor, width, k - 1), divisor * Pow2(width - k);
      QuotientDigit(m.quo, d);
      if divisor == 0 {
        ZeroTimes(Pow2(width - k));
        DivModUnique(dividend % TWO32, 0, TWO32);
      }
    }
  }

  /** As long as nothing is lost the steps are those of restoring division; what is lost stays lost. */
  lemma {:induction false} MaskedAgrees(dividend: nat, divisor: nat, width: nat, j: nat, k: nat)
    requires j <= k <= width
    ensures var m := MaskedRestore(dividend, divisor, width, k);
      m.lost >= MaskedRestore(dividend, divisor, width, j).lost
      && (m.lost == 0 ==> Restore(dividend, divisor, width, k) == (m.rem, m.quo))
    decreases k
  {
    hide Pow2;
    if j < k {
      MaskedAgrees(dividend, divisor, width, j, k - 1);
    } else if k > 0 {
      MaskedAgrees(dividend, divisor, width, k - 1, k - 1);
    }
  }

  /** Once the remainder has 32 bits nothing more is lost. */
  lemma {:induction false} MaskedKeeps(dividend: nat, divisor: nat, width: nat, j: nat, k: nat)
    requires j <= k <= width && MaskedRestore(dividend, divisor, width, j).rem < TWO32
    ensures var m := MaskedRestore(dividend, divisor, width, k);
      m.rem < TWO32 && m.lost == MaskedRestore(dividend, divisor, width, j).lost
    decreases k
  {
    hide Pow2, MaskedStep;
    if j < k {
      MaskedKeeps(dividend, divisor, width, j, k - 1);
      StepKeeps(MaskedRestore(dividend, divisor, width, k - 1), divisor * Pow2(width - k));
    }
  }

  lemma StepKeeps(m: Masked, d: nat)
    requires m.rem < TWO32
    ensures MaskedStep(m, d).rem < TWO32 && MaskedStep(m, d).lost == m.lost
  {
  }

  /** The number of the highest bit. */
  function TopBitNumber(q: nat): (j: nat)
    requires q > 0
    ensures Pow2(j) <= q < Pow2(j + 1)
  {
    if q == 1 then 0 else TopBitNumber(q / 2) + 1
  }

  /** What the first subtraction leaves, and the quotient, have at most 32 bits. */
  predicate Within32(dividend: nat, divisor: nat)
    requires divisor > 0
  {
    DivMod(dividend, divisor);
    var q := dividend / divisor;
    q == 0 || (q < TWO32 && dividend - divisor * Pow2(TopBitNumber(q)) < TWO32)
  }

  lemma SmallIsWithin32(dividend: nat, divisor: nat)
    requires divisor > 0 && dividend < TWO32
    ensures Within32(dividend, divisor)
  {
    hide Pow2, TopBitNumber;
    QuotientSmaller(dividend, divisor);
  }

  /** Before the first subtraction nothing happens. */
  lemma {:induction false} NothingSubtracted(dividend: nat, divisor: nat, width: nat, k: nat)
    requires k <= width && (k == 0 || dividend < divisor * Pow2(width - k))
    ensures MaskedRestore(dividend, divisor, width, k) == Masked(dividend, 0, 0)
  {
    hide Pow2;
    if k > 0 {
      HalveShifted(divisor, width - k + 1);
      NothingSubtracted(dividend, divisor, width, k - 1);
    }
  }

  lemma TopSubtraction(dividend: nat, divisor: nat)
    requires divisor > 0 && dividend >= divisor
    ensures dividend / divisor > 0
    ensures var j := TopBitNumber(dividend / divisor);
      divisor * Pow2(j) <= dividend < divisor * Pow2(j + 1)
  {
    hide Pow2, TopBitNumber;
    DivMod(dividend, divisor);
    var q := dividend / divisor;
    if q == 0 {
      ZeroTimes(divisor);
    }
    var j := TopBitNumber(q);
    MulOrder(Pow2(j), q, divisor);
    MulOrder(q + 1, Pow2(j + 1), divisor);
    MulStep(divisor, q);
    MulCommutative(divisor, Pow2(j));
    MulCommutative(divisor, Pow2(j + 1));
  }

  /** If the quotient fits the width, nothing is lost exactly when the first subtraction leaves 32 bits. */
  lemma LostAtTop(dividend: nat, divisor: nat, width: nat)
    requires divisor > 0 && dividend < divisor * Pow2(width)
    ensures MaskedRestore(dividend, divisor, width, width).lost == 0
        <==> dividend < divisor
             || (dividend / divisor > 0 && dividend - divisor * Pow2(TopBitNumber(dividend / divisor)) < TWO32)
  {
    hide Pow2, TopBitNumber, MaskedRestore;
    DoublePow2(0);
    if dividend < divisor {
      assert divisor * Pow2(0) == divisor;
      NothingSubtracted(dividend, divisor, width, width);
    } else {
      TopSubtraction(dividend, divisor);
      var j := TopBitNumber(dividend / divisor);
      TopBelowWidth(dividend, divisor, j, width);
      NothingSubtracted(dividend, divisor, width, width - j - 1);
      FirstSubtraction(dividend, divisor, width, j);
      if dividend - divisor * Pow2(j) < TWO32 {
        MaskedKeeps(dividend, divisor, width, width - j, width);
      } else {
        MaskedAgrees(dividend, divisor, width, width - j, width);
      }
    }
  }

  lemma TopBelowWidth(dividend: nat, divisor: nat, j: nat, width: nat)
    requires divisor * Pow2(j) <= dividend < divisor * Pow2(width)
    ensures j < width
  {
    hide Pow2;
    if width <= j {
      Pow2Grows(width, j);
      MulOrder(Pow2(width), Pow2(j), divisor);
      MulCommutative(divisor, Pow2(j));
      MulCommutative(divisor, Pow2(width));
    }
  }

  lemma FirstSubtraction(dividend: nat, divisor: nat, width: nat, j: nat)
    requires j < width && divisor * Pow2(j) <= dividend
    requires MaskedRestore(dividend, divisor, width, width - j - 1) == Masked(dividend, 0, 0)
    ensures var rest := dividend - divisor * Pow2(j);
      MaskedRestore(dividend, divisor, width, width - j) == Masked(rest % TWO32, 1, rest / TWO32)
  {
    hide Pow2;
  }

  /** The quotient's low 32 bits and the remainder are right exactly when the quotient fits the width and nothing
      was cut off. */
  lemma MaskedDivides(dividend: nat, divisor: nat, width: nat)
    requires divisor > 0
    ensures var m := MaskedRestore(dividend, divisor, width, width);
      (m.quo % TWO32, m.rem) == (dividend / divisor, dividend % divisor)
      <==> dividend < divisor * Pow2(width) && Within32(dividend, divisor)
  {
    hide Pow2, MaskedRestore, Restore, TopBitNumber;
    var m := MaskedRestore(dividend, divisor, width, width);
    MaskedInvariant(dividend, divisor, width, width);
    MaskedAgrees(dividend, divisor, width, width, width);
    RestoreDivides(dividend, divisor, width);
    DoublePow2(0);
    assert divisor * Pow2(0) == divisor;
    DivMod(dividend, divisor);
    SmallQuotient(dividend, divisor);
    var q := dividend / divisor;
    if (m.quo % TWO32, m.rem) == (q, dividend % divisor) {
      NothingLost(m, q, divisor);
      MulOrder(q + 1, Pow2(width), divisor);
      MulStep(divisor, q);
      MulCommutative(divisor, Pow2(width));
    }
    if dividend < divisor * Pow2(width) {
      LostAtTop(dividend, divisor, width);
    }
  }

  lemma SmallQuotient(dividend: nat, divisor: nat)
    requires divisor > 0
    ensures dividend / divisor == 0 <==> dividend < divisor
  {
    if dividend < divisor {
      DivModUnique(dividend, 0, divisor);
    } else {
      DivMod(dividend, divisor);
    }
  }

  lemma NothingLost(m: Masked, q: nat, divisor: nat)
    requires divisor > 0 && m.quo % TWO32 == q && q * divisor == m.quo * divisor + m.lost * TWO32
    ensures m.lost == 0 && m.quo == q < TWO32
  {
    DivMod(m.quo, TWO32);
    MulOrder(q, m.quo, divisor);
    if q < m.quo {
      MulOrder(q, m.quo, divisor);
    }
  }

  /** With its default of five bits the program does not divide 32 by 1: the quotient does not fit. */
  lemma FiveBitsTooFew()
    ensures MaskedRestore(32, 1, 5, 5) == Masked(1, 31, 0) && 32 == 1 * Pow2(5)
  {
    assert MaskedRestore(32, 1, 5, 2) == Masked(8, 3, 0);
  }

  /** Three times 2^32, divided by 2^32 in two bits: the quotient fits, but the first subtraction leaves 33 bits and
      the second digit is lost. */
  lemma DividendTooLong()
    ensures MaskedRestore(3 * TWO32, TWO32, 2, 2) == Masked(0, 2, 1) && 3 * TWO32 < TWO32 * Pow2(2)
    ensures 3 * TWO32 / TWO32 == 3
  {
    assert MaskedRestore(3 * TWO32, TWO32, 2, 1) == Masked(0, 1, 1);
  }

  /** Requires what Python's shift does: a positive number of bits. */
  method DivideUnsigned(dividend: nat, divisor: nat, nbits: nat) returns (quo: nat, rem: nat)
    requires nbits >= 1
    ensures var m := MaskedRestore(dividend, divisor, nbits, nbits); quo == m.quo % TWO32 && rem == m.rem
    ensures divisor > 0 ==>
      ((quo, rem) == (dividend / divisor, dividend % divisor)
       <==> dividend < divisor * Pow2(nbits) && Within32(dividend, divisor))
    ensures divisor == 0 ==> quo == (Pow2(nbits) - 1) % TWO32 && rem == dividend % TWO32
  {
    hide Pow2, MaskedRestore, Within32;
    var shifted := divisor * Pow2(nbits - 1);
    var remainder := dividend;
    var quotient := 0;
    NothingSubtracted(dividend, divisor, nbits, 0);
    for bit := 0 to nbits
      invariant bit < nbits ==> shifted == divisor * Pow2(nbits - 1 - bit)
      invariant var m := MaskedRestore(dividend, divisor, nbits, bit); remainder == m.rem && quotient == m.quo
    {
      NextMasked(dividend, divisor, nbits, bit, shifted);
      if shifted <= remainder {
        remainder := (remainder - shifted) % TWO32;
        quotient := quotient * 2 + 1;
      } else {
        quotient := quotient * 2;
      }
      shifted := shifted / 2;
    }
    quo, rem := quotient % TWO32, remainder;
    MaskedInvariant(dividend, divisor, nbits, nbits);
    if divisor > 0 {
      MaskedDivides(dividend, divisor, nbits);
    }
  }

  lemma NextMasked(dividend: nat, divisor: nat, width: nat, k: nat, shifted: nat)
    requires k < width && shifted == divisor * Pow2(width - 1 - k)
    ensures MaskedRestore(dividend, divisor, width, k + 1)
         == MaskedStep(MaskedRestore(dividend, divisor, width, k), shifted)
    ensures k + 1 < width ==> shifted / 2 == divisor * Pow2(width - 2 - k)
  {
    hide Pow2;
    if k + 1 < width {
      HalveShifted(divisor, width - 1 - k);
    }
  }

  lemma {:induction false} Pow2Grows(m: nat, n: nat)
    requires m <= n
    ensures Pow2(m) <= Pow2(n)
    decreases n
  {
    if m < n {
      Pow2Grows(m, n - 1);
    }
  }

  // ----- shifting the dividend in

  lemma NextBit(d: nat, divisor: nat, bit: nat)
    requires divisor > 0 && bit <= 1
    ensures var r := 2 * (d % divisor) + bit;
      (2 * d + bit) % divisor == (if r >= divisor then r - divisor else r)
      && (2 * d + bit) / divisor == 2 * (d / divisor) + if r >= divisor then 1 else 0
  {
    var q, r := d / divisor, 2 * (d % divisor) + bit;
    DivMod(d, divisor);
    QuotientDigit(q, divisor);
    assert q * (2 * divisor) == 2 * (q * divisor);
    if r >= divisor {
      DivModUnique(r - divisor, 2 * q + 1, divisor);
    } else {
      DivModUnique(r, 2 * q, divisor);
    }
  }

  /** The dividend's top bit, and the dividend shifted left. */
  lemma TopBit(bits: seq<bool>, k: nat, current: nat)
    requires |bits| == 32 && k < 32
    requires current % TWO32 == Value(bits[k..]) * Pow2(k)
    ensures bits[k] <==> current % TWO32 >= 0x8000_0000
    ensures current * 2 % TWO32 == Value(bits[k + 1..]) * Pow2(k + 1)
  {
    hide Pow2, Value;
    var rest := bits[k + 1..];
    assert bits[k..] == [bits[k]] + rest;
    ValueConcat([bits[k]], rest);
    ValueOfBit(bits[k]);
    ValueBound(rest);
    var b, v, p := if bits[k] then 1 else 0, Value(rest), Pow2(k);
    assert Value(bits[k..]) == b * Pow2(31 - k) + v;
    Pow2Add(31 - k, k);
    Pow2Of32();
    TopPart(b, v, Pow2(31 - k), p);
    Pow2Positive(k);
    DoublePow2(k);
    DoubleProduct(v, p);
    ShiftOutTop(current, b, v * p);
  }

  lemma TopPart(b: nat, v: nat, high: nat, p: nat)
    requires b <= 1 && v < high && p > 0
    ensures (b * high + v) * p == b * (high * p) + v * p && v * p < high * p
  {
    Distribute(b * high, v, p);
    MulOrder(v + 1, high, p);
    MulStep(p, v);
  }

  lemma ShiftOutTop(current: nat, b: nat, low: nat)
    requires b <= 1 && low < 0x8000_0000 && current % TWO32 == b * 0x8000_0000 + low
    ensures b == 1 <==> current % TWO32 >= 0x8000_0000
    ensures current * 2 % TWO32 == low * 2
  {
    var k := current / TWO32;
    assert current == k * TWO32 + b * 0x8000_0000 + low;
    DivModUnique(low * 2, 2 * k + b, TWO32);
  }

  lemma ValueOfBit(b: bool)
    ensures Value([b]) == if b then 1 else 0
  {
    assert [b][..0] == [] && Value([]) == 0;
  }

  lemma Distribute(a: nat, b: nat, p: nat)
    ensures (a + b) * p == a * p + b * p
  {
  }

  /** The bits from `k` on, and before it. */
  ghost predicate ShiftedIn(bits: seq<bool>, k: nat, divisor: nat, current: nat, quotient: nat, remainder: nat)
    requires |bits| == 32 && k <= 32
  {
    && current % TWO32 == Value(bits[k..]) * Pow2(k)
    && (if divisor == 0 then remainder == Value(bits[..k]) && quotient == 2 * (Pow2(k) - 1)
        else remainder == Value(bits[..k]) % divisor && quotient == 2 * (Value(bits[..k]) / divisor))
  }

  lemma ShiftInStart(dividend: nat, divisor: nat)
    ensures ShiftedIn(Bits(dividend % TWO32), 0, divisor, dividend, 0, 0)
  {
    hide Bits;
    var bits := Bits(dividend % TWO32);
    BitsInverse(dividend % TWO32);
    assert bits[0..] == bits && bits[..0] == [];
    DoublePow2(0);
    if divisor > 0 {
      ZeroDivided(divisor);
    }
  }

  lemma ZeroDivided(divisor: nat)
    requires divisor > 0
    ensures 0 / divisor == 0 && 0 % divisor == 0
  {
    DivModUnique(0, 0, divisor);
  }

  lemma ShiftInStep(bits: seq<bool>, k: nat, divisor: nat, current: nat, quotient: nat, remainder: nat)
    requires |bits| == 32 && k < 32
    requires ShiftedIn(bits, k, divisor, current, quotient, remainder)
    ensures var bit := if current % TWO32 >= 0x8000_0000 then 1 else 0;
      var r := remainder * 2 + bit;
      ShiftedIn(bits, k + 1, divisor, current * 2, (quotient + if r >= divisor then 1 else 0) * 2,
                if r >= divisor then r - divisor else r)
  {
    hide Pow2;
    TopBit(bits, k, current);
    assert bits[..k + 1][..k] == bits[..k];
    DoublePow2(k);
    if divisor > 0 {
      NextBit(Value(bits[..k]), divisor, if bits[k] then 1 else 0);
    }
  }

  lemma ShiftInEnd(dividend: nat, divisor: nat, current: nat, quotient: nat, remainder: nat)
    requires ShiftedIn(Bits(dividend % TWO32), 32, divisor, current, quotient, remainder)
    ensures divisor > 0 ==> quotient / 2 == dividend % TWO32 / divisor && remainder == dividend % TWO32 % divisor
    ensures divisor == 0 ==> quotient / 2 == ALL_ONES && remainder == dividend % TWO32
  {
    hide Bits;
    Pow2Of32();
    var bits := Bits(dividend % TWO32);
    BitsInverse(dividend % TWO32);
    assert bits[..32] == bits;
  }

  /** The loop divides the low 32 bits of the dividend. */
  method LongdivBin(dividend: nat, divisor: nat) returns (quo: nat, rem: nat)
    ensures divisor > 0 ==> quo == dividend % TWO32 / divisor && rem == dividend % TWO32 % divisor
    ensures divisor == 0 ==> quo == ALL_ONES && rem == dividend % TWO32
  {
    hide ShiftedIn, Bits;
    ghost var bits := Bits(dividend % TWO32);
    var current: nat, remainder: nat, quotient: nat := dividend, 0, 0;
    ShiftInStart(dividend, divisor);
    for k := 0 to 32
      invariant ShiftedIn(bits, k, divisor, current, quotient, remainder)
    {
      ShiftInStep(bits, k, divisor, current, quotient, remainder);
      remainder := remainder * 2 + if current % TWO32 >= 0x8000_0000 then 1 else 0;
      if remainder >= divisor {
        remainder := remainder - divisor;
        quotient := quotient + 1;
      }
      current := current * 2;
      quotient := quotient * 2;
    }
    ShiftInEnd(dividend, divisor, current, quotient, remainder);
    quo, rem := quotient / 2, remainder;
  }

  // ----- shift-and-add multiplication

  method MulBin(a: nat, b: int) returns (result: int)
    ensures result == a * b
  {
    var x: nat, y: int := a, b;
    result := 0;
    while x != 0
      invariant result + x * y == a * b
      decreases x
    {
      HalveProduct(x, y);
      if x % 2 == 1 {
        result := result + y;
      }
      x := x / 2;
      y := y * 2;
    }
    ZeroTimesInt(y);
  }

  lemma HalveProduct(x: nat, y: int)
    ensures x * y == x / 2 * (y * 2) + if x % 2 == 1 then y else 0
  {
    var h := x / 2;
    assert h * (y * 2) == 2 * h * y;
    if x % 2 == 1 {
      assert x == 2 * h + 1;
      assert (2 * h + 1) * y == 2 * h * y + y;
    } else {
      assert x == 2 * h;
    }
  }

  lemma ZeroTimesInt(y: int)
    ensures 0 * y == 0
  {
  }

  // ----- signs

  function Magnitude(x: int): nat {
    if x < 0 then -x else x
  }

  /** The signed quotient and remainder, from the division of the magnitudes. */
  method DivideSigned(dividend: int, divisor: int, nbits: nat) returns (quo: int, rem: int)
    requires nbits >= 1
    ensures var m := MaskedRestore(Magnitude(dividend), Magnitude(divisor), nbits, nbits);
      var q: int, r: int := m.quo % TWO32, m.rem;
      quo == (if (dividend > 0) == (divisor > 0) || divisor == 0 then q else -q)
      && rem == if dividend < 0 then -r else r
    ensures divisor != 0 ==>
      ((quo, rem) == (TruncDiv(dividend, divisor), TruncMod(dividend, divisor))
       <==> Magnitude(dividend) < Magnitude(divisor) * Pow2(nbits)
            && Within32(Magnitude(dividend), Magnitude(divisor)))
    ensures nbits == 32 && IsInt32(dividend) && IsInt32(divisor) ==>
      Wrap(quo) == OpResult(4, FUNCT7_M, Wrap(dividend), Wrap(divisor))
      && Wrap(rem) == OpResult(6, FUNCT7_M, Wrap(dividend), Wrap(divisor))
  {
    hide MaskedRestore, Pow2, OpResult, TruncDiv, TruncMod, Within32;
    var quoU, remU := DivideUnsigned(Magnitude(dividend), Magnitude(divisor), nbits);
    var quoSign: int := if (dividend > 0) == (divisor > 0) || divisor == 0 then 1 else -1;
    var remSign: int := if dividend < 0 then -1 else 1;
    quo, rem := quoSign * quoU, remSign * remU;
    if divisor != 0 {
      SignedParts(dividend, divisor);
    }
    if nbits == 32 && IsInt32(dividend) && IsInt32(divisor) {
      Pow2Of32();
      GoldenSigned(dividend, divisor);
      if divisor != 0 {
        MulOrder(1, Magnitude(divisor), TWO32);
        SmallIsWithin32(Magnitude(dividend), Magnitude(divisor));
      }
    }
  }

  predicate IsInt32(x: int) {
    -0x8000_0000 <= x < 0x8000_0000
  }

  /** The simulator's signed division of two signed values. */
  lemma GoldenSigned(x: int, y: int)
    requires IsInt32(x) && IsInt32(y)
    ensures OpResult(4, FUNCT7_M, Wrap(x), Wrap(y)) == if y == 0 then ALL_ONES else Wrap(TruncDiv(x, y))
    ensures OpResult(6, FUNCT7_M, Wrap(x), Wrap(y)) == if y == 0 then Wrap(x) else Wrap(TruncMod(x, y))
  {
    hide TruncDiv, TruncMod;
    assert Signed(Wrap(x)) == x && Signed(Wrap(y)) == y;
    assert Wrap(y) == 0 <==> y == 0;
  }

  lemma SignedParts(x: int, y: int)
    requires y != 0
    ensures var q, r := Magnitude(x) / Magnitude(y), Magnitude(x) % Magnitude(y);
      TruncDiv(x, y) == (if (x > 0) == (y > 0) then q else -q) && TruncMod(x, y) == if x < 0 then -r else r
  {
    var a, b := Magnitude(x), Magnitude(y);
    DivMod(a, b);
    var q := a / b;
    if x == 0 {
      DivModUnique(0, 0, b);
    }
    Negations(q, b);
  }

  lemma Negations(q: int, b: int)
    ensures (-q) * b == -(q * b) == q * (-b) && (-q) * (-b) == q * b
  {
  }
}
