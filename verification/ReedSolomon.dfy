/** The Reed-Solomon divisor and remainder, and what they guarantee: every block followed by its error
    correction bytes is a multiple of the generator polynomial. */
module ReedSolomon {
  import opened Bytes
  import opened Field
  import opened GeneratorElement
  import opened Polynomials

  /** The generator polynomial: the product of (x - 2^i) for i < d. */
  function Generator(d: nat): (g: Poly)
    ensures |g| == d + 1
  {
    if d == 0 then [ONE] else MulPoly(Generator(d - 1), [ONE, Pow(TWO, d - 1)])
  }

  lemma {:induction false} GeneratorMonic(d: nat)
    ensures Generator(d)[0] == ONE
  {
    if d > 0 {
      GeneratorMonic(d - 1);
      LinearFactor(Generator(d - 1), Pow(TWO, d - 1), 0);
      XorZero(ONE);
    }
  }

  /** `x` is one of the first `d` powers of two. */
  ghost predicate IsRoot(x: Byte, d: nat) {
    exists i: nat | i < d :: x == Pow(TWO, i)
  }

  lemma IsRootStep(x: Byte, d: nat)
    requires d > 0
    ensures IsRoot(x, d) <==> IsRoot(x, d - 1) || x == Pow(TWO, d - 1)
  {
  }

  /** The generator polynomial vanishes exactly at the first `d` powers of two. */
  lemma {:induction false} GeneratorRoots(d: nat, x: Byte)
    ensures Eval(Generator(d), x) == ZERO <==> IsRoot(x, d)
  {
    hide Xor, Mul, Pow, MulPoly;
    EvalOne(x);
    if d > 0 {
      var r := Pow(TWO, d - 1);
      GeneratorRoots(d - 1, x);
      EvalMul(Generator(d - 1), [ONE, r], x);
      EvalLinear(r, x);
      NoZeroDivisors(Eval(Generator(d - 1), x), Xor(x, r));
      XorIsZero(x, r);
      IsRootStep(x, d);
    } else {
      assert ONE[7] != ZERO[7];
    }
  }

  lemma EvalOne(x: Byte)
    ensures Eval([ONE], x) == ONE
  {
    hide Xor, Mul;
    MulZero(x);
    XorZero(ONE);
    assert Eval([], x) == ZERO;
    EvalSnoc([], ONE, x);
    assert [] + [ONE] == [ONE];
  }

  lemma EvalLinear(r: Byte, x: Byte)
    ensures Eval([ONE, r], x) == Xor(x, r)
  {
    hide Xor, Mul;
    EvalOne(x);
    EvalSnoc([ONE], r, x);
    MulOne(x);
    assert [ONE] + [r] == [ONE, r];
  }

  /** The remainder of `data` times x^|g|, divided by the monic polynomial with the coefficients 1 and `g`. */
  function Remainder(data: Poly, g: Poly): (r: Poly)
    requires g != []
    ensures |r| == |g|
  {
    if data == [] then ZeroPoly(|g|)
    else NextRemainder(Remainder(data[..|data| - 1], g), data[|data| - 1], g)
  }

  function NextRemainder(r: Poly, b: Byte, g: Poly): (r': Poly)
    requires |r| == |g| > 0
    ensures |r'| == |g|
  {
    AddPoly(r[1..] + [ZERO], ScalePoly(Xor(b, r[0]), g))
  }

  lemma DivisionStep(product: Poly, r: Poly, b: Byte, g: Poly, data: Poly)
    requires |r| == |g| > 0
    requires |product| == |data| + |g|
    requires data + ZeroPoly(|g|) == AddPoly(product, ZeroPoly(|data|) + r)
    ensures var f := Xor(b, r[0]);
      data + [b] + ZeroPoly(|g|)
      == AddPoly(AddPoly(product + [ZERO], ZeroPoly(|data|) + ScalePoly(f, [ONE] + g)),
                 ZeroPoly(|data| + 1) + NextRemainder(r, b, g))
  {
    hide Xor, Mul;
    var n, d := |data|, |g|;
    var f := Xor(b, r[0]);
    var left := data + [b] + ZeroPoly(d);
    var scaled := ScalePoly(f, [ONE] + g);
    var middle := AddPoly(product + [ZERO], ZeroPoly(n) + scaled);
    var right := AddPoly(middle, ZeroPoly(n + 1) + NextRemainder(r, b, g));
    MulOne(f);
    XorZero(ZERO);
    forall k | 0 <= k < n + 1 + d
      ensures left[k] == right[k]
    {
      if k < n + d {
        assert (data + ZeroPoly(d))[k] == AddPoly(product, ZeroPoly(n) + r)[k];
        XorZero(product[k]);
      }
      XorZero(middle[k]);
      if k < n {
      } else if k == n {
        // the quotient digit cancels the leading coefficient: product[n] = r[0]
        XorIsZero(product[n], r[0]);
        assert middle[n] == Xor(r[0], f);
        XorCommutes(b, r[0]);
        XorCancels(b, r[0]);
      } else {
        var j := k - n - 1;
        var m := Mul(g[j], f);
        assert scaled[j + 1] == m;
        assert NextRemainder(r, b, g)[j] == Xor((r[1..] + [ZERO])[j], m);
        if k < n + d {
          XorIsZero(product[k], r[j + 1]);
          XorZero(Xor(r[j + 1], m));
        } else {
          XorZero(Xor(ZERO, m));
        }
      }
    }
  }

  /** Division: the data, moved up by |g| places, is a multiple of the divisor plus the remainder. */
  lemma {:induction false} RemainderDivides(data: Poly, g: Poly) returns (q: Poly)
    requires g != []
    ensures |q| == |data|
    ensures data + ZeroPoly(|g|) == AddPoly(MulPoly(q, [ONE] + g), ZeroPoly(|data|) + Remainder(data, g))
  {
    hide Xor, Mul, NextRemainder;
    if data == [] {
      q := [];
      XorZero(ZERO);
    } else {
      var n := |data| - 1;
      var q' := RemainderDivides(data[..n], g);
      var r := Remainder(data[..n], g);
      var f := Xor(data[n], r[0]);
      q := q' + [f];
      assert q[..n] == q';
      DivisionStep(MulPoly(q', [ONE] + g), r, data[n], g, data[..n]);
      assert data[..n] + [data[n]] == data;
    }
  }

  function Ecc(data: Poly, d: nat): (r: Poly)
    requires d > 0
    ensures |r| == d
  {
    Remainder(data, Generator(d)[1..])
  }

  /** A block of data followed by its error correction bytes. */
  function Codeword(data: Poly, d: nat): (c: Poly)
    requires d > 0
    ensures |c| == |data| + d
  {
    data + Ecc(data, d)
  }

  /** A codeword is a multiple of the generator polynomial. */
  lemma CodewordIsMultiple(data: Poly, d: nat) returns (q: Poly)
    requires d > 0
    ensures |q| == |data| && Codeword(data, d) == MulPoly(q, Generator(d))
  {
    hide Xor, Mul, Pow, MulPoly, Remainder, Generator;
    GeneratorMonic(d);
    assert [ONE] + Generator(d)[1..] == Generator(d);
    q := RemainderDivides(data, Generator(d)[1..]);
    CodewordIsProduct(data, d, MulPoly(q, Generator(d)));
  }

  /** A codeword, read as a polynomial, vanishes at the first `d` powers of two. */
  lemma SyndromesVanish(data: Poly, d: nat, i: nat)
    requires i < d
    ensures Eval(Codeword(data, d), Pow(TWO, i)) == ZERO
  {
    hide Xor, Mul, Pow, MulPoly, Remainder, Generator;
    var x := Pow(TWO, i);
    var q := CodewordIsMultiple(data, d);
    EvalMul(q, Generator(d), x);
    GeneratorRoots(d, x);
    MulZero(Eval(q, x));
  }

  lemma CodewordIsProduct(data: Poly, d: nat, product: Poly)
    requires d > 0 && |product| == |data| + d
    requires data + ZeroPoly(d) == AddPoly(product, ZeroPoly(|data|) + Ecc(data, d))
    ensures Codeword(data, d) == product
  {
    hide Xor, Ecc;
    var ecc := ZeroPoly(|data|) + Ecc(data, d);
    forall k | 0 <= k < |product|
      ensures Codeword(data, d)[k] == product[k]
    {
      assert (data + ZeroPoly(d))[k] == Xor(product[k], ecc[k]);
      XorZero(product[k]);
      XorIsZero(product[k], ecc[k]);
    }
  }

  // ----- the C functions

  /** The divisor after `i` factors, as the C code holds it in `d` bytes: without the leading 1 at the end. */
  ghost function PartialDivisor(i: nat, d: nat): (r: Poly)
    requires i <= d
    ensures |r| == d
  {
    (ZeroPoly(d) + Generator(i))[i + 1..]
  }

  lemma PartialDivisorStep(i: nat, d: nat, r: Byte, old_: Poly, new_: Poly)
    requires i < d && r == Pow(TWO, i) && old_ == PartialDivisor(i, d) && |new_| == d
    requires forall k {:trigger new_[k]} | 0 <= k < d ::
      new_[k] == Xor(Mul(old_[k], r), if k + 1 < d then old_[k + 1] else ZERO)
    ensures new_ == PartialDivisor(i + 1, d)
  {
    hide Xor, Mul, MulPoly, Pow;
    XorZero(ZERO);
    MulZero(r);
    forall k | 0 <= k < d
      ensures new_[k] == PartialDivisor(i + 1, d)[k]
    {
      var t := i + 2 + k - d;
      assert old_[k] == (ZeroPoly(d) + Generator(i))[i + 1 + k];
      assert PartialDivisor(i + 1, d)[k] == (ZeroPoly(d) + Generator(i + 1))[i + 2 + k];
      if k + 1 < d {
        assert old_[k + 1] == (ZeroPoly(d) + Generator(i))[i + 2 + k];
      }
      if t >= 0 {
        LinearFactor(Generator(i), r, t);
        var above := if t <= i then Generator(i)[t] else ZERO;
        var below := if t > 0 then Mul(Generator(i)[t - 1], r) else ZERO;
        XorCommutes(above, below);
      } else {
        assert PartialDivisor(i + 1, d)[k] == ZERO;
        assert old_[k] == ZERO && old_[k + 1] == ZERO;
      }
    }
  }

  /** Multiplies the current product by (x - root). */
  method MultiplyByFactor(degree: nat, root: Byte, result: array<Byte>)
    requires degree <= result.Length
    modifies result
    ensures forall k {:trigger result[k]} | 0 <= k < degree ::
      result[k] == Xor(Mul(old(result[k]), root), if k + 1 < degree then old(result[k + 1]) else ZERO)
    ensures forall k | degree <= k < result.Length :: result[k] == old(result[k])
  {
    hide Xor, Mul;
    for j := 0 to degree
      invariant forall k | j <= k < result.Length :: result[k] == old(result[k])
      invariant forall k {:trigger result[k]} | 0 <= k < j ::
        result[k] == Xor(Mul(old(result[k]), root), if k + 1 < degree then old(result[k + 1]) else ZERO)
    {
      var m := ReedSolomonMultiply(result[j], root);
      result[j] := m;
      XorZero(m);
      if j + 1 < degree {
        result[j] := Xor(result[j], result[j + 1]);
      }
    }
  }

  method ReedSolomonComputeDivisor(degree: nat, result: array<Byte>)
    requires 1 <= degree <= result.Length
    modifies result
    ensures result[..degree] == Generator(degree)[1..]
    ensures forall k | degree <= k < result.Length :: result[k] == old(result[k])
  {
    hide Xor, Mul, MulPoly, PartialDivisor;
    for k := 0 to degree
      invariant forall j | 0 <= j < k :: result[j] == ZERO
      invariant forall j | degree <= j < result.Length :: result[j] == old(result[j])
    {
      result[k] := ZERO;
    }
    result[degree - 1] := ONE;
    PartialDivisorEnds(degree, result[..degree]);
    var root := ONE;
    for i := 0 to degree
      invariant root == Pow(TWO, i)
      invariant result[..degree] == PartialDivisor(i, degree)
      invariant forall j | degree <= j < result.Length :: result[j] == old(result[j])
    {
      ghost var before := result[..degree];
      MultiplyByFactor(degree, root, result);
      PartialDivisorStep(i, degree, root, before, result[..degree]);
      root := ReedSolomonMultiply(root, TWO);
    }
  }

  lemma PartialDivisorEnds(d: nat, r: Poly)
    requires d > 0 && |r| == d && r[d - 1] == ONE && forall k | 0 <= k < d - 1 :: r[k] == ZERO
    ensures r == PartialDivisor(0, d)
    ensures PartialDivisor(d, d) == Generator(d)[1..]
  {
    hide MulPoly;
    assert Generator(0) == [ONE];
    forall k | 0 <= k < d
      ensures r[k] == PartialDivisor(0, d)[k]
    {
      assert PartialDivisor(0, d)[k] == (ZeroPoly(d) + [ONE])[k + 1];
    }
  }

  /** Adds a multiple of the divisor to the running remainder. */
  method AddMultiple(generator: array<Byte>, degree: nat, factor: Byte, result: array<Byte>, res: nat)
    requires degree <= generator.Length && res + degree <= result.Length && result != generator
    modifies result
    ensures result[res..res + degree]
         == AddPoly(old(result[res..res + degree]), ScalePoly(factor, generator[..degree]))
    ensures forall k | 0 <= k < result.Length && (k < res || res + degree <= k) :: result[k] == old(result[k])
  {
    hide Xor, Mul;
    for j := 0 to degree
      invariant forall k | res + j <= k < res + degree :: result[k] == old(result[k])
      invariant forall k | res <= k < res + j :: result[k] == Xor(old(result[k]), Mul(generator[k - res], factor))
      invariant forall k | 0 <= k < result.Length && (k < res || res + degree <= k) :: result[k] == old(result[k])
    {
      var m := ReedSolomonMultiply(generator[j], factor);
      result[res + j] := Xor(result[res + j], m);
    }
  }

  /** One step of the division: takes one more byte of the data. */
  method DivideByte(b: Byte, generator: array<Byte>, degree: nat, result: array<Byte>, res: nat)
    requires 1 <= degree <= generator.Length && res + degree <= result.Length && result != generator
    modifies result
    ensures result[res..res + degree] == NextRemainder(old(result[res..res + degree]), b, generator[..degree])
    ensures forall k | 0 <= k < result.Length && (k < res || res + degree <= k) :: result[k] == old(result[k])
  {
    hide Xor, AddPoly, ScalePoly;
    ghost var r := result[res..res + degree];
    var factor := Xor(b, result[res]);
    forall j | res <= j < res + degree - 1 {
      result[j] := result[j + 1];
    }
    result[res + degree - 1] := ZERO;
    assert result[res..res + degree] == r[1..] + [ZERO];
    AddMultiple(generator, degree, factor, result, res);
  }

  /** `data[dat..dat + dataLen]` is divided; the remainder is stored in `result[res..res + degree]`, which
      may lie in the same array, past the data. */
  method ReedSolomonComputeRemainder(data: array<Byte>, dat: nat, dataLen: nat, generator: array<Byte>,
                                     degree: nat, result: array<Byte>, res: nat)
    requires 1 <= degree <= generator.Length
    requires dat + dataLen <= data.Length && res + degree <= result.Length
    requires result != generator
    requires result == data ==> dat + dataLen <= res
    modifies result
    ensures result[res..res + degree] == Remainder(old(data[dat..dat + dataLen]), generator[..degree])
    ensures forall k | 0 <= k < result.Length && (k < res || res + degree <= k) :: result[k] == old(result[k])
  {
    hide Xor, Mul, NextRemainder;
    ghost var input := data[dat..dat + dataLen];
    ghost var g := generator[..degree];
    for k := 0 to degree
      invariant forall j | res <= j < res + k :: result[j] == ZERO
      invariant forall j | 0 <= j < result.Length && (j < res || res + degree <= j) :: result[j] == old(result[j])
    {
      result[res + k] := ZERO;
    }
    assert result[res..res + degree] == Remainder(input[..0], g);
    for i := 0 to dataLen
      invariant result[res..res + degree] == Remainder(input[..i], g)
      invariant forall j | 0 <= j < result.Length && (j < res || res + degree <= j) :: result[j] == old(result[j])
    {
      ghost var r := result[res..res + degree];
      assert input[..i + 1][..i] == input[..i];
      var b := data[dat + i];
      assert b == input[i];
      DivideByte(b, generator, degree, result, res);
    }
    assert input[..dataLen] == input;
  }
}
