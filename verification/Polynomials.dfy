/** Polynomials over the field, as sequences of coefficients from the highest power to the lowest. */
module Polynomials {
  import opened Bytes
  import opened Field

  type Poly = seq<Byte>

  /** The value at `x`, by Horner's rule. */
  function Eval(p: Poly, x: Byte): Byte {
    if p == [] then ZERO
    else Xor(Mul(Eval(p[..|p| - 1], x), x), p[|p| - 1])
  }

  function ZeroPoly(n: nat): (p: Poly)
    ensures |p| == n
  {
    seq(n, _ => ZERO)
  }

  function AddPoly(p: Poly, q: Poly): (r: Poly)
    requires |p| == |q|
    ensures |r| == |p|
  {
    seq(|p|, i requires 0 <= i < |p| => Xor(p[i], q[i]))
  }

  function ScalePoly(c: Byte, p: Poly): (r: Poly)
    ensures |r| == |p|
  {
    seq(|p|, i requires 0 <= i < |p| => Mul(p[i], c))
  }

  /** The product, by long multiplication. */
  function MulPoly(q: Poly, g: Poly): (r: Poly)
    requires g != []
    ensures |r| == |q| + |g| - 1
  {
    if q == [] then ZeroPoly(|g| - 1)
    else AddPoly(MulPoly(q[..|q| - 1], g) + [ZERO], ZeroPoly(|q| - 1) + ScalePoly(q[|q| - 1], g))
  }

  // ----- evaluation preserves sums and products

  lemma EvalSnoc(p: Poly, c: Byte, x: Byte)
    ensures Eval(p + [c], x) == Xor(Mul(Eval(p, x), x), c)
  {
    assert (p + [c])[..|p|] == p;
  }

  lemma {:induction false} EvalAdd(p: Poly, q: Poly, x: Byte)
    requires |p| == |q|
    ensures Eval(AddPoly(p, q), x) == Xor(Eval(p, x), Eval(q, x))
  {
    hide Xor, Mul;
    if p == [] {
      XorZero(ZERO);
    } else {
      var n := |p| - 1;
      EvalAdd(p[..n], q[..n], x);
      assert AddPoly(p, q)[..n] == AddPoly(p[..n], q[..n]);
      MulDistributes(x, Eval(p[..n], x), Eval(q[..n], x));
      XorInterchange(Mul(Eval(p[..n], x), x), Mul(Eval(q[..n], x), x), p[n], q[n]);
    }
  }

  lemma {:induction false} EvalScale(c: Byte, p: Poly, x: Byte)
    ensures Eval(ScalePoly(c, p), x) == Mul(Eval(p, x), c)
  {
    hide Xor, Mul;
    if p == [] {
      MulZero(c);
    } else {
      var n := |p| - 1;
      var e := Eval(p[..n], x);
      EvalScale(c, p[..n], x);
      assert ScalePoly(c, p)[..n] == ScalePoly(c, p[..n]);
      MulDistributes(c, Mul(e, x), p[n]);
      MulAssociates(e, c, x);
      MulAssociates(e, x, c);
      MulCommutes(c, x);
    }
  }

  lemma {:induction false} EvalZeros(n: nat, p: Poly, x: Byte)
    ensures Eval(ZeroPoly(n) + p, x) == Eval(p, x)
    ensures Eval(ZeroPoly(n), x) == ZERO
    decreases n + |p|
  {
    hide Xor, Mul;
    if p != [] {
      var m := |p| - 1;
      EvalZeros(n, p[..m], x);
      assert ZeroPoly(n) + p == (ZeroPoly(n) + p[..m]) + [p[m]];
      EvalSnoc(ZeroPoly(n) + p[..m], p[m], x);
    } else if n > 0 {
      EvalZeros(n - 1, [], x);
      assert ZeroPoly(n) + [] == ZeroPoly(n - 1) + [ZERO];
      assert ZeroPoly(n) == ZeroPoly(n - 1) + [ZERO];
      EvalSnoc(ZeroPoly(n - 1), ZERO, x);
      MulZero(x);
      XorZero(ZERO);
    }
  }

  lemma {:induction false} EvalMul(q: Poly, g: Poly, x: Byte)
    requires g != []
    ensures Eval(MulPoly(q, g), x) == Mul(Eval(q, x), Eval(g, x))
  {
    hide Xor, Mul;
    if q == [] {
      EvalZeros(|g| - 1, [], x);
      MulZero(Eval(g, x));
    } else {
      var n := |q| - 1;
      var product := MulPoly(q[..n], g);
      EvalMul(q[..n], g, x);
      EvalAdd(product + [ZERO], ZeroPoly(n) + ScalePoly(q[n], g), x);
      EvalSnoc(product, ZERO, x);
      XorZero(Mul(Eval(product, x), x));
      EvalZeros(n, ScalePoly(q[n], g), x);
      EvalScale(q[n], g, x);
      var a, b := Eval(q[..n], x), Eval(g, x);
      // (a b) x + b q[n] = (a x + q[n]) b
      MulAssociates(a, b, x);
      MulAssociates(a, x, b);
      MulCommutes(b, x);
      MulCommutes(b, q[n]);
      MulDistributes(b, Mul(a, x), q[n]);
    }
  }

  /** The coefficients of the product with a monic linear factor. */
  lemma {:induction false} LinearFactor(p: Poly, r: Byte, k: nat)
    requires k <= |p|
    ensures MulPoly(p, [ONE, r])[k]
         == Xor(if k < |p| then p[k] else ZERO, if k > 0 then Mul(p[k - 1], r) else ZERO)
  {
    hide Xor, Mul;
    XorZero(ZERO);
    if p != [] {
      var n := |p| - 1;
      var previous := MulPoly(p[..n], [ONE, r]);
      var row := ZeroPoly(n) + ScalePoly(p[n], [ONE, r]);
      assert MulPoly(p, [ONE, r])[k] == Xor((previous + [ZERO])[k], row[k]);
      MulOne(p[n]);
      MulCommutes(r, p[n]);
      if k <= n {
        LinearFactor(p[..n], r, k);
        var c := if k > 0 then Mul(p[k - 1], r) else ZERO;
        XorZero(c);
        XorZero(previous[k]);
        XorCommutes(p[n], c);
      } 
    }
  }
}
