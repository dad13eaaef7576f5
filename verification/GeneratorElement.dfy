/** Two generates the multiplicative group of the field: its order is 255, so its powers are all the non-zero
    elements, every non-zero element has an inverse and there are no zero divisors. */
module GeneratorElement {
  import opened Bytes
  import opened Counting
  import opened Field

  function Pow(x: Byte, n: nat): Byte {
    if n == 0 then ONE else Mul(Pow(x, n - 1), x)
  }

  lemma {:induction false} PowAdd(x: Byte, m: nat, n: nat)
    ensures Pow(x, m + n) == Mul(Pow(x, m), Pow(x, n))
  {
    hide Mul;
    if n == 0 {
      MulOne(Pow(x, m));
    } else {
      PowAdd(x, m, n - 1);
      MulAssociates(Pow(x, m), Pow(x, n - 1), x);
    }
  }

  // ----- a few powers of two, computed

  function DoubleBits(z: Byte): Byte {
    [z[1], z[2], z[3], z[4] != z[0], z[5] != z[0], z[6] != z[0], z[7], z[0]]
  }

  lemma DoubleIsDoubleBits(z: Byte)
    ensures Double(z) == DoubleBits(z)
  {
  }

  function XorBits(d: Byte, x: Byte): Byte {
    [d[0] != x[0], d[1] != x[1], d[2] != x[2], d[3] != x[3],
     d[4] != x[4], d[5] != x[5], d[6] != x[6], d[7] != x[7]]
  }

  lemma XorIsXorBits(d: Byte, x: Byte)
    ensures Xor(d, x) == XorBits(d, x)
  {
    forall k | 0 <= k < 8
      ensures Xor(d, x)[k] == XorBits(d, x)[k]
    {
      if k == 0 {} else if k == 1 {} else if k == 2 {} else if k == 3 {}
      else if k == 4 {} else if k == 5 {} else if k == 6 {} else {}
    }
  }

  function StepBits(z: Byte, c: bool, x: Byte): Byte {
    if c then XorBits(DoubleBits(z), x) else DoubleBits(z)
  }

  lemma StepIsStepBits(z: Byte, c: bool, x: Byte)
    ensures Step(z, c, x) == StepBits(z, c, x)
  {
    hide Double, DoubleBits, Xor, XorBits;
    DoubleIsDoubleBits(z);
    XorZero(DoubleBits(z));
    XorIsXorBits(DoubleBits(z), x);
  }

  function StepsBits(x: Byte, y: Byte, k: nat): Byte
    requires k <= 8
  {
    if k == 0 then ZERO else StepBits(StepsBits(x, y, k - 1), y[k - 1], x)
  }

  lemma {:induction false} StepsAreAct(x: Byte, y: Byte, k: nat)
    requires k <= 8
    ensures Act(y[..k], x) == StepsBits(x, y, k)
  {
    hide StepBits, Step;
    if k > 0 {
      StepsAreAct(x, y, k - 1);
      assert y[..k] == y[..k - 1] + [y[k - 1]];
      ActSnoc(y[..k - 1], y[k - 1], x);
      StepIsStepBits(Act(y[..k - 1], x), y[k - 1], x);
    }
  }

  lemma MulIsSteps(x: Byte, y: Byte)
    ensures Mul(x, y) == StepsBits(x, y, 8)
  {
    StepsAreAct(x, y, 8);
    assert y[..8] == y;
  }

  const POWER_15: Byte := [false, false, true, false, false, true, true, false]
  const POWER_17: Byte := [true, false, false, true, true, false, false, false]
  const POWER_34: Byte := [false, true, false, false, true, true, true, false]
  const POWER_51: Byte := [false, false, false, false, true, false, true, false]
  const POWER_85: Byte := [true, true, false, true, false, true, true, false]
  const POWER_170: Byte := [true, true, false, true, false, true, true, true]

  lemma MulTwo(z: Byte)
    ensures Mul(z, TWO) == DoubleBits(z)
  {
    hide Double, DoubleBits, Xor;
    assert TWO == Zeros(6) + [true, false];
    ActZeros(6, [true, false], z);
    assert [true, false][..1] == [] + [true];
    ActSnoc([], true, z);
    assert Double(ZERO) == ZERO by { DoubleIsDoubleBits(ZERO); DoubleBitsZero(); }
    XorZero(z);
    XorZero(Double(z));
    DoubleIsDoubleBits(z);
  }

  lemma DoubleBitsZero()
    ensures DoubleBits(ZERO) == ZERO
  {
  }

  lemma PowSucc(k: nat)
    ensures Pow(TWO, k + 1) == DoubleBits(Pow(TWO, k))
  {
    hide DoubleBits, Mul;
    MulTwo(Pow(TWO, k));
  }

  lemma PowZero(x: Byte)
    ensures Pow(x, 0) == ONE
  {
  }

  lemma SmallPowers()
    ensures Pow(TWO, 15) == POWER_15
    ensures Pow(TWO, 17) == POWER_17
  {
    hide Pow;
    PowZero(TWO);
    PowSucc(0); PowSucc(1); PowSucc(2); PowSucc(3); PowSucc(4); PowSucc(5);
    PowSucc(6); PowSucc(7); PowSucc(8); PowSucc(9); PowSucc(10); PowSucc(11);
    PowSucc(12); PowSucc(13); PowSucc(14); PowSucc(15); PowSucc(16);
  }

  lemma SmallProducts()
    ensures Mul(POWER_17, POWER_17) == POWER_34
    ensures Mul(POWER_34, POWER_17) == POWER_51
    ensures Mul(POWER_51, POWER_34) == POWER_85
  {
    hide Mul;
    MulIsSteps(POWER_17, POWER_17);
    MulIsSteps(POWER_34, POWER_17);
    MulIsSteps(POWER_51, POWER_34);
  }

  lemma LargeProducts()
    ensures Mul(POWER_85, POWER_85) == POWER_170
    ensures Mul(POWER_170, POWER_85) == ONE
  {
    hide Mul;
    MulIsSteps(POWER_85, POWER_85);
    MulIsSteps(POWER_170, POWER_85);
  }

  // ----- the order of two

  lemma KeyPowers()
    ensures Pow(TWO, 15) != ONE && Pow(TWO, 51) != ONE && Pow(TWO, 85) != ONE
    ensures Pow(TWO, 255) == ONE
  {
    SmallPowers();
    SmallProducts();
    LargeProducts();
    hide Pow, Mul;
    PowAdd(TWO, 17, 17);
    PowAdd(TWO, 34, 17);
    PowAdd(TWO, 51, 34);
    PowAdd(TWO, 85, 85);
    PowAdd(TWO, 170, 85);
  }

  lemma {:induction false} PowMultiple(x: Byte, m: nat, n: nat)
    requires Pow(x, m) == ONE
    ensures Pow(x, m * n) == ONE
  {
    hide Mul, Pow;
    if n == 0 {
      PowZero(x);
      assert m * n == 0;
    } else {
      PowMultiple(x, m, n - 1);
      assert m * n == m + m * (n - 1);
      PowAdd(x, m, m * (n - 1));
      MulOne(ONE);
    }
  }

  /** Exponents of which the power is one are closed under common divisors. */
  lemma {:induction false} CommonExponent(x: Byte, a: nat, b: nat) returns (g: nat, s: nat, t: nat)
    requires a > 0 && b > 0
    requires Pow(x, a) == ONE == Pow(x, b)
    ensures g > 0 && a == g * s && b == g * t && Pow(x, g) == ONE
    decreases a + b
  {
    hide Mul, Pow;
    if a == b {
      g, s, t := a, 1, 1;
    } else if a > b {
      PowAdd(x, a - b, b);
      MulOne(Pow(x, a - b));
      g, s, t := CommonExponent(x, a - b, b);
      assert g * (s + t) == g * s + g * t;
      s := s + t;
    } else {
      PowAdd(x, b - a, a);
      MulOne(Pow(x, b - a));
      g, s, t := CommonExponent(x, a, b - a);
      assert g * (s + t) == g * s + g * t;
      t := s + t;
    }
  }

  lemma ProperDivisors(g: nat, s: nat)
    requires g * s == 255 && g < 255
    ensures g in {1, 3, 5, 15, 17, 51, 85}
  {
    if g <= 15 {
      ProductGrows(1, g, s);
      SmallFactor(g, s);
    } else {
      ProductGrows(16, g, s);
      assert s <= 15;
      SmallFactor(s, g);
    }
  }

  lemma ProductGrows(m: nat, a: nat, b: nat)
    ensures m <= a ==> m * b <= a * b
    ensures a * b > 0 ==> a > 0 && b > 0
  {
  }

  lemma SmallFactor(a: nat, b: nat)
    requires a * b == 255 && 0 < a <= 15
    ensures (a == 1 && b == 255) || (a == 3 && b == 85) || (a == 5 && b == 51) || (a == 15 && b == 17)
  {
    if a == 1 {} else if a == 2 {} else if a == 3 {} else if a == 4 {} else if a == 5 {}
    else if a == 6 {} else if a == 7 {} else if a == 8 {} else if a == 9 {} else if a == 10 {}
    else if a == 11 {} else if a == 12 {} else if a == 13 {} else if a == 14 {} else {}
  }

  /** The multiplicative order of two is 255. */
  lemma TwoHasOrder255(k: nat)
    requires 0 < k < 255
    ensures Pow(TWO, k) != ONE == Pow(TWO, 255)
  {
    hide Mul, Pow;
    KeyPowers();
    if Pow(TWO, k) == ONE {
      var g, s, t := CommonExponent(TWO, 255, k);
      ProductGrows(1, t, g);
      ProperDivisors(g, s);
      PowMultiple(TWO, g, if g == 17 then 3 else if g == 51 || g == 85 then 1 else 15 / g);
    }
  }

  lemma PowersDistinct(j: nat, k: nat)
    requires j < k < 255
    ensures Pow(TWO, j) != Pow(TWO, k)
  {
    hide Mul, Pow;
    if Pow(TWO, j) == Pow(TWO, k) {
      // multiply both sides by the inverse of 2^j
      PowAdd(TWO, j, 255 - j);
      PowAdd(TWO, k, 255 - j);
      PowAdd(TWO, 255, k - j);
      assert k + (255 - j) == 255 + (k - j);
      TwoHasOrder255(k - j);
      MulOne(Pow(TWO, k - j));
    }
  }

  // ----- two generates all non-zero elements

  /** The integer values, less one, of the first `n` powers of two. */
  ghost function PowerValues(n: nat): set<int> {
    set k | 0 <= k < n :: Value(Pow(TWO, k)) - 1
  }

  lemma {:induction false} PowerValuesDistinct(n: nat)
    requires n <= 255
    ensures |PowerValues(n)| == n
  {
    hide Pow, Value;
    if n > 0 {
      PowerValuesDistinct(n - 1);
      var v := Value(Pow(TWO, n - 1)) - 1;
      assert PowerValues(n) == PowerValues(n - 1) + {v};
      forall k | 0 <= k < n - 1
        ensures Value(Pow(TWO, k)) - 1 != v
      {
        PowersDistinct(k, n - 1);
        if Value(Pow(TWO, k)) == Value(Pow(TWO, n - 1)) {
          ValueInjective(Pow(TWO, k), Pow(TWO, n - 1));
        }
      }
      assert v !in PowerValues(n - 1);
    }
  }

  lemma ByteValue(x: Byte)
    ensures Value(x) < 256
    ensures Value(x) == 0 <==> x == ZERO
  {
    ValueBound(x);
    assert Pow2(8) == 256;
    ZeroValue(8);
    if Value(x) == 0 {
      ValueInjective(x, ZERO);
    }
  }

  lemma {:induction false} ZeroValue(n: nat)
    requires n <= 8
    ensures Value(ZERO[..n]) == 0
    ensures n == 8 ==> Value(ZERO) == 0
  {
    if n > 0 {
      ZeroValue(n - 1);
      assert ZERO[..n][..n - 1] == ZERO[..n - 1];
      assert ZERO[..8] == ZERO;
    }
  }

  lemma PowNonZero(k: nat)
    ensures Pow(TWO, k) != ZERO
  {
    hide Pow, Mul;
    PowAdd(TWO, k, 254 * k);
    TwoHasOrder255(1);
    PowMultiple(TWO, 255, k);
    MulZero(Pow(TWO, 254 * k));
  }

  /** Every non-zero element is a power of two. */
  lemma TwoGenerates(x: Byte) returns (k: nat)
    requires x != ZERO
    ensures k < 255 && Pow(TWO, k) == x
  {
    hide Pow, Value;
    var s := PowerValues(255);
    PowerValuesDistinct(255);
    forall v | v in s
      ensures 0 <= v < 255
    {
      var k :| 0 <= k < 255 && Value(Pow(TWO, k)) - 1 == v;
      PowNonZero(k);
      ByteValue(Pow(TWO, k));
    }
    ByteValue(x);
    Pigeonhole(s, 0, 255, Value(x) - 1);
    k :| 0 <= k < 255 && Value(Pow(TWO, k)) - 1 == Value(x) - 1;
    ValueInjective(Pow(TWO, k), x);
  }

  lemma Inverse(x: Byte) returns (y: Byte)
    requires x != ZERO
    ensures Mul(x, y) == ONE == Mul(y, x)
  {
    hide Pow, Mul;
    var k := TwoGenerates(x);
    y := Pow(TWO, 254 * k);
    PowAdd(TWO, k, 254 * k);
    TwoHasOrder255(1);
    PowMultiple(TWO, 255, k);
    MulCommutes(x, y);
  }

  lemma NoZeroDivisors(x: Byte, y: Byte)
    ensures Mul(x, y) == ZERO <==> x == ZERO || y == ZERO
  {
    hide Mul;
    MulZero(x);
    MulZero(y);
    if x != ZERO && Mul(x, y) == ZERO {
      var u := Inverse(x);
      MulAssociates(u, x, y);
      MulZero(u);
      MulOne(y);
    }
  }
}
