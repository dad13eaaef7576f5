/** Arithmetic in GF(2^8/0x11D), the field of the QR Code error correction codewords.

    A sequence of bits, most significant first, is a polynomial over GF(2); a byte is one of degree below 8.
    Polynomials act on bytes by Horner's rule, where multiplication by the polynomial variable is `Double`.
    The field laws all follow from that action. */
module Field {
  import opened Bytes

  type Poly2 = seq<bool>

  const ONE: Byte := [false, false, false, false, false, false, false, true]
  const TWO: Byte := [false, false, false, false, false, false, true, false]

  /** 0x11D without its leading bit. */
  const REDUCTION: Byte := [false, false, false, true, true, true, false, true]

  function Scale(c: bool, x: Byte): Byte {
    if c then x else ZERO
  }

  /** Multiplication by the polynomial variable, reduced modulo 0x11D. */
  function Double(z: Byte): Byte {
    Xor(ShiftLeft(z), Scale(z[0], REDUCTION))
  }

  /** One step of Horner's rule. */
  function Step(z: Byte, c: bool, x: Byte): Byte {
    Xor(Double(z), Scale(c, x))
  }

  /** The action of the polynomial `p` over GF(2) on `x`. */
  function Act(p: Poly2, x: Byte): Byte {
    if p == [] then ZERO
    else Step(Act(p[..|p| - 1], x), p[|p| - 1], x)
  }

  /** The field product. */
  function Mul(x: Byte, y: Byte): Byte {
    Act(y, x)
  }

  // ----- the action is linear in both arguments and commutes with itself

  lemma DoubleAdditive(a: Byte, b: Byte)
    ensures Double(Xor(a, b)) == Xor(Double(a), Double(b))
  {
    assert Xor(a, b)[0] == (a[0] != b[0]);
  }

  lemma StepAdditive(z: Byte, z': Byte, c: bool, x: Byte, x': Byte)
    ensures Step(Xor(z, z'), c, Xor(x, x')) == Xor(Step(z, c, x), Step(z', c, x'))
  {
    hide Xor, Double;
    DoubleAdditive(z, z');
    XorInterchange(Double(z), Double(z'), Scale(c, x), Scale(c, x'));
    XorZero(ZERO);
  }

  lemma StepAdditiveInBit(z: Byte, z': Byte, c: bool, c': bool, x: Byte)
    ensures Step(Xor(z, z'), c != c', x) == Xor(Step(z, c, x), Step(z', c', x))
  {
    hide Xor, Double;
    DoubleAdditive(z, z');
    XorInterchange(Double(z), Double(z'), Scale(c, x), Scale(c', x));
    XorZero(x);
    XorZero(ZERO);
  }

  lemma StepDouble(z: Byte, c: bool, x: Byte)
    ensures Step(Double(z), c, Double(x)) == Double(Step(z, c, x))
  {
    DoubleAdditive(Double(z), Scale(c, x));
    assert Double(ZERO) == ZERO;
  }

  lemma {:induction false} ActAdditive(p: Poly2, a: Byte, b: Byte)
    ensures Act(p, Xor(a, b)) == Xor(Act(p, a), Act(p, b))
  {
    if p == [] {
      XorZero(ZERO);
    } else {
      hide Xor, Step;
      var q := p[..|p| - 1];
      ActAdditive(q, a, b);
      StepAdditive(Act(q, a), Act(q, b), p[|p| - 1], a, b);
    }
  }

  lemma {:induction false} ActDouble(p: Poly2, x: Byte)
    ensures Act(p, Double(x)) == Double(Act(p, x))
  {
    if p == [] {
      assert Double(ZERO) == ZERO;
    } else {
      hide Double, Step;
      var q := p[..|p| - 1];
      ActDouble(q, x);
      StepDouble(Act(q, x), p[|p| - 1], x);
    }
  }

  lemma {:induction false} ActZero(p: Poly2)
    ensures Act(p, ZERO) == ZERO
  {
    if p != [] {
      ActZero(p[..|p| - 1]);
    }
  }

  lemma {:induction false} ActCommutes(p: Poly2, q: Poly2, x: Byte)
    ensures Act(p, Act(q, x)) == Act(q, Act(p, x))
  {
    ActZero(q);
    if p != [] {
      hide Double, Xor;
      var r, c := p[..|p| - 1], p[|p| - 1];
      ActCommutes(r, q, x);
      ActDouble(q, Act(r, x));
      ActAdditive(q, Double(Act(r, x)), Scale(c, x));
    }
  }

  lemma ActSnoc(p: Poly2, c: bool, x: Byte)
    ensures Act(p + [c], x) == Step(Act(p, x), c, x)
  {
    assert (p + [c])[..|p|] == p;
  }

  /** The sum of two polynomials over GF(2) of the same length. */
  function AddPoly2(p: Poly2, q: Poly2): (r: Poly2)
    requires |p| == |q|
    ensures |r| == |p|
  {
    seq(|p|, i requires 0 <= i < |p| => p[i] != q[i])
  }

  lemma AddPoly2Snoc(p: Poly2, q: Poly2)
    requires |p| == |q| > 0
    ensures var n := |p| - 1;
      p == p[..n] + [p[n]] && q == q[..n] + [q[n]]
      && AddPoly2(p, q) == AddPoly2(p[..n], q[..n]) + [p[n] != q[n]]
  {
  }

  lemma {:induction false} ActAddPoly2(p: Poly2, q: Poly2, x: Byte)
    requires |p| == |q|
    ensures Act(AddPoly2(p, q), x) == Xor(Act(p, x), Act(q, x))
  {
    if p == [] {
      XorZero(ZERO);
    } else {
      hide Xor, Step, Act, AddPoly2;
      var n := |p| - 1;
      ActAddPoly2(p[..n], q[..n], x);
      AddPoly2Snoc(p, q);
      ActSnoc(p[..n], p[n], x);
      ActSnoc(q[..n], q[n], x);
      ActSnoc(AddPoly2(p[..n], q[..n]), p[n] != q[n], x);
      StepAdditiveInBit(Act(p[..n], x), Act(q[..n], x), p[n], q[n], x);
    }
  }

  // ----- field laws

  lemma MulDistributes(x: Byte, y: Byte, z: Byte)
    ensures Mul(x, Xor(y, z)) == Xor(Mul(x, y), Mul(x, z))
    ensures Mul(Xor(y, z), x) == Xor(Mul(y, x), Mul(z, x))
  {
    assert Xor(y, z) == AddPoly2(y, z);
    ActAddPoly2(y, z, x);
    ActAdditive(x, y, z);
  }

  /** The first `k` bits of `p`, moved to the low end of a byte. */
  function Leading(p: Poly2, k: nat): Byte
    requires k <= 8 && k <= |p|
  {
    seq(8, i requires 0 <= i < 8 => i >= 8 - k && p[i + k - 8])
  }

  lemma StepShiftsIn(p: Poly2, k: nat)
    requires k < 8 && k < |p|
    ensures Step(Leading(p, k), p[k], ONE) == Leading(p, k + 1)
  {
  }

  /** A polynomial of degree below 8 acts on ONE as itself. */
  lemma {:induction false} ActOnOne(p: Poly2, k: nat)
    requires k <= 8 && k <= |p|
    ensures Act(p[..k], ONE) == Leading(p, k)
  {
    if k == 0 {
      assert Leading(p, 0) == ZERO;
    } else {
      hide Step, Leading;
      ActOnOne(p, k - 1);
      assert p[..k] == p[..k - 1] + [p[k - 1]];
      ActSnoc(p[..k - 1], p[k - 1], ONE);
      StepShiftsIn(p, k - 1);
    }
  }

  lemma ByteActsOnOne(x: Byte)
    ensures Act(x, ONE) == x
  {
    ActOnOne(x, 8);
    assert x[..8] == x;
    assert Leading(x, 8) == x;
  }

  lemma MulOne(x: Byte)
    ensures Mul(ONE, x) == x == Mul(x, ONE)
  {
    hide Act;
    ByteActsOnOne(x);
    ByteActsOnOne(ONE);
    ActCommutes(x, ONE, ONE);
  }

  lemma MulZero(x: Byte)
    ensures Mul(ZERO, x) == ZERO == Mul(x, ZERO)
  {
    ActZero(x);
    MulCommutes(x, ZERO);
  }

  lemma MulCommutes(x: Byte, y: Byte)
    ensures Mul(x, y) == Mul(y, x)
  {
    MulOne(x);
    MulOne(y);
    ActCommutes(y, x, ONE);
  }

  lemma MulAssociates(x: Byte, y: Byte, z: Byte)
    ensures Mul(Mul(x, y), z) == Mul(x, Mul(y, z))
  {
    // x(yz) = (yz)x is the action of x on the action of z on y
    MulCommutes(x, Mul(y, z));
    MulCommutes(x, y);
    ActCommutes(x, z, y);
  }

  // ----- the product as a remainder of carry-less multiplication

  const MODULUS: Poly2 := [true] + REDUCTION

  function ScalePoly2(c: bool, p: Poly2): (r: Poly2)
    ensures |r| == |p|
  {
    if c then p else Zeros(|p|)
  }

  /** The carry-less product of two polynomials over GF(2), without any reduction. */
  function CarrylessProduct(a: Poly2, p: Poly2): (r: Poly2)
    ensures |r| == |a| + |p|
  {
    if p == [] then Zeros(|a|)
    else AddPoly2(CarrylessProduct(a, p[..|p| - 1]) + [false], Zeros(|p|) + ScalePoly2(p[|p| - 1], a))
  }

  lemma StepZero(x: Byte)
    ensures Step(ZERO, false, x) == ZERO
  {
  }

  lemma {:induction false} ActZeros(n: nat, p: Poly2, x: Byte)
    ensures Act(Zeros(n) + p, x) == Act(p, x)
    decreases n + |p|
  {
    hide Step;
    var s := Zeros(n) + p;
    if p != [] {
      ActZeros(n, p[..|p| - 1], x);
      assert s == (Zeros(n) + p[..|p| - 1]) + [p[|p| - 1]];
      ActSnoc(Zeros(n) + p[..|p| - 1], p[|p| - 1], x);
    } else if n > 0 {
      ActZeros(n - 1, [], x);
      assert s == (Zeros(n - 1) + []) + [false];
      ActSnoc(Zeros(n - 1) + [], false, x);
      StepZero(x);
    }
  }

  /** Reduction turns the carry-less product into composition of actions. */
  lemma {:induction false} ActProduct(a: Poly2, p: Poly2, x: Byte)
    ensures Act(CarrylessProduct(a, p), x) == Act(p, Act(a, x))
  {
    if p == [] {
      assert Zeros(|a|) + [] == Zeros(|a|);
      ActZeros(|a|, [], x);
    } else {
      var q, c := p[..|p| - 1], p[|p| - 1];
      ActProduct(a, q, x);
      ActAddPoly2(CarrylessProduct(a, q) + [false], Zeros(|p|) + ScalePoly2(c, a), x);
      ActSnoc(CarrylessProduct(a, q), false, x);
      ActZeros(|p|, ScalePoly2(c, a), x);
      ActScaled(c, a, x);
      hide Xor, Double, CarrylessProduct, AddPoly2;
      XorZero(Double(Act(CarrylessProduct(a, q), x)));
    }
  }

  lemma ActScaled(c: bool, a: Poly2, x: Byte)
    ensures Act(ScalePoly2(c, a), x) == Scale(c, Act(a, x))
  {
    assert Zeros(|a|) + [] == Zeros(|a|);
    ActZeros(|a|, [], x);
  }

  /** The byte `r` is the polynomial `p` minus a multiple of 0x11D. */
  ghost predicate IsResidue(p: Poly2, r: Byte) {
    exists q: Poly2 :: Divides(p, q, r)
  }

  /** `p == 0x11D * q + r`; leading zeros make the lengths agree. */
  ghost predicate Divides(p: Poly2, q: Poly2, r: Byte) {
    |p| == |q| + 8 && [false] + p == AddPoly2(CarrylessProduct(MODULUS, q), Zeros(|q| + 1) + r)
  }

  /** The field product is the carry-less product reduced modulo 0x11D, and nothing else is. */
  lemma MulIsReducedProduct(x: Byte, y: Byte, r: Byte)
    ensures r == Mul(x, y) <==> IsResidue(CarrylessProduct(x, y), r)
  {
    var q := Quotient(x, y);
    assert Divides(CarrylessProduct(x, y), q, Mul(x, y));
    forall q | Divides(CarrylessProduct(x, y), q, r)
      ensures r == Mul(x, y)
    {
      ResidueUnique(CarrylessProduct(x, y), q, r);
      ActProduct(x, y, ONE);
      MulOne(x);
    }
  }

  lemma ModulusActsAsZero(x: Byte)
    ensures Act(MODULUS, x) == ZERO
  {
    var m := MODULUS;
    assert m == m[..8] + [m[8]];
    ActOnOne(m, 8);
    ActSnoc(m[..8], m[8], ONE);
    ModulusVanishes();
    // Act(m, x) = Act(m, Act(x, 1)) = Act(x, Act(m, 1)) = Act(x, 0)
    ByteActsOnOne(x);
    ActCommutes(m, x, ONE);
    ActZero(x);
  }

  lemma ModulusVanishes()
    ensures Step(Leading(MODULUS, 8), MODULUS[8], ONE) == ZERO
  {
  }

  lemma ResidueUnique(p: Poly2, q: Poly2, r: Byte)
    requires Divides(p, q, r)
    ensures r == Act(p, ONE)
  {
    assert [false] + p == Zeros(1) + p;
    ActZeros(1, p, ONE);
    ActAddPoly2(CarrylessProduct(MODULUS, q), Zeros(|q| + 1) + r, ONE);
    ActProduct(MODULUS, q, ONE);
    ModulusActsAsZero(ONE);
    ActZero(q);
    ActZeros(|q| + 1, r, ONE);
    MulOne(r);
    XorZero(r);
  }

  lemma {:induction false} Quotient(x: Byte, p: Poly2) returns (q: Poly2)
    ensures Divides(CarrylessProduct(x, p), q, Act(p, x))
  {
    if p == [] {
      q := [];
      assert [false] + Zeros(8) == AddPoly2(Zeros(9), Zeros(1) + ZERO);
    } else {
      var n := |p| - 1;
      var z := Act(p[..n], x);
      var q' := Quotient(x, p[..n]);
      q := q' + [z[0]];
      assert q[..n] == q';
      QuotientStep(CarrylessProduct(x, p[..n]), CarrylessProduct(MODULUS, q'), z, p[n], x, n);
    }
  }

  /** The two sides of the division identity after one more step. */
  function DividendAfter(product: Poly2, c: bool, x: Byte, n: nat): (r: Poly2)
    requires |product| == n + 8
    ensures |r| == n + 10
  {
    [false] + AddPoly2(product + [false], Zeros(n + 1) + ScalePoly2(c, x))
  }

  function MultipleAfter(multiple: Poly2, z: Byte, n: nat): (r: Poly2)
    requires |multiple| == n + 9
    ensures |r| == n + 10
  {
    AddPoly2(multiple + [false], Zeros(n + 1) + ScalePoly2(z[0], MODULUS))
  }

  lemma QuotientDigit(product: Poly2, multiple: Poly2, z: Byte, c: bool, x: Byte, n: nat, i: nat)
    requires |product| == n + 8 && |multiple| == n + 9 && i < n + 10
    requires [false] + product == AddPoly2(multiple, Zeros(n + 1) + z)
    ensures DividendAfter(product, c, x, n)[i]
         == AddPoly2(MultipleAfter(multiple, z, n), Zeros(n + 2) + Step(z, c, x))[i]
  {
    hide Step;
    if i < n + 9 {
      assert ([false] + product)[i] == AddPoly2(multiple, Zeros(n + 1) + z)[i];
    }
    if i > n + 1 {
      StepAt(z, c, x, i - n - 2);
      assert MultipleAfter(multiple, z, n)[i] == ((multiple + [false])[i] != (z[0] && REDUCTION[i - n - 2]));
    }
  }

  lemma QuotientStep(product: Poly2, multiple: Poly2, z: Byte, c: bool, x: Byte, n: nat)
    requires |product| == n + 8 && |multiple| == n + 9
    requires [false] + product == AddPoly2(multiple, Zeros(n + 1) + z)
    ensures DividendAfter(product, c, x, n) == AddPoly2(MultipleAfter(multiple, z, n), Zeros(n + 2) + Step(z, c, x))
  {
    hide DividendAfter, MultipleAfter, Step, AddPoly2;
    forall i | 0 <= i < n + 10
      ensures DividendAfter(product, c, x, n)[i]
           == AddPoly2(MultipleAfter(multiple, z, n), Zeros(n + 2) + Step(z, c, x))[i]
    {
      QuotientDigit(product, multiple, z, c, x, n, i);
    }
  }

  lemma StepAt(z: Byte, c: bool, x: Byte, k: nat)
    requires k < 8
    ensures Step(z, c, x)[k] == (((if k < 7 then z[k + 1] else false) != (z[0] && REDUCTION[k])) != (c && x[k]))
  {
  }

  // ----- the multiplication routine

  method ReedSolomonMultiply(x: Byte, y: Byte) returns (z: Byte)
    ensures z == Mul(x, y)
  {
    z := ZERO;
    var i := 7;
    while i >= 0
      invariant -1 <= i <= 7
      invariant z == Act(y[..7 - i], x)
    {
      assert y[..8 - i] == y[..7 - i] + [y[7 - i]];
      ActSnoc(y[..7 - i], y[7 - i], x);
      z := Xor(ShiftLeft(z), if z[0] then REDUCTION else ZERO);
      z := Xor(z, if y[7 - i] then x else ZERO);
      i := i - 1;
    }
    assert y[..8] == y;
  }
}
