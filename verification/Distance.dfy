/** The distance of the Reed-Solomon code: distinct codewords of at most 255 bytes with `d` error correction
    bytes differ in more than `d` places. */
module Distance {
  import opened Arithmetic
  import opened Bytes
  import opened Counting
  import opened Field
  import opened GeneratorElement
  import opened Polynomials
  import opened ReedSolomon

  /** The positions of the non-zero coefficients. */
  ghost function Support(a: Poly): set<int> {
    set k | 0 <= k < |a| && a[k] != ZERO
  }

  /** The sum of a[k] * xs[k]^i. */
  function Moment(a: Poly, xs: seq<Byte>, i: nat): Byte
    requires |a| == |xs|
  {
    if a == [] then ZERO
    else
      var n := |a| - 1;
      Xor(Moment(a[..n], xs[..n], i), Mul(a[n], Pow(xs[n], i)))
  }

  ghost predicate Distinct(xs: seq<Byte>) {
    forall j, k | 0 <= j < k < |xs| :: xs[j] != xs[k]
  }

  /** Each coefficient multiplied by the difference of its location from `x`. */
  function Eliminate(a: Poly, xs: seq<Byte>, x: Byte): (r: Poly)
    requires |a| == |xs|
    ensures |r| == |a|
  {
    seq(|a|, k requires 0 <= k < |a| => Mul(a[k], Xor(xs[k], x)))
  }

  lemma {:induction false} EliminateMoment(a: Poly, xs: seq<Byte>, x: Byte, i: nat)
    requires |a| == |xs|
    ensures Moment(Eliminate(a, xs, x), xs, i) == Xor(Moment(a, xs, i + 1), Mul(Moment(a, xs, i), x))
  {
    hide Xor, Mul;
    if a == [] {
      MulZero(x);
      XorZero(ZERO);
    } else {
      var n := |a| - 1;
      EliminateMoment(a[..n], xs[..n], x, i);
      assert Eliminate(a, xs, x)[..n] == Eliminate(a[..n], xs[..n], x);
      var p := Pow(xs[n], i);
      EliminateTerm(a[n], xs[n], x, p);
      var s, s' := Moment(a[..n], xs[..n], i), Moment(a[..n], xs[..n], i + 1);
      MulDistributes(x, s, Mul(a[n], p));
      XorInterchange(s', Mul(s, x), Mul(a[n], Mul(p, xs[n])), Mul(Mul(a[n], p), x));
    }
  }

  lemma EliminateTerm(c: Byte, y: Byte, x: Byte, p: Byte)
    ensures Mul(Mul(c, Xor(y, x)), p) == Xor(Mul(c, Mul(p, y)), Mul(Mul(c, p), x))
  {
    hide Xor, Mul;
    MulAssociates(c, Xor(y, x), p);
    MulCommutes(Xor(y, x), p);
    MulDistributes(p, y, x);
    MulDistributes(c, Mul(p, y), Mul(p, x));
    MulAssociates(c, p, x);
  }

  lemma {:induction false} MomentSingle(a: Poly, xs: seq<Byte>, w: nat)
    requires |a| == |xs|
    requires forall k | 0 <= k < |a| && k != w :: a[k] == ZERO
    ensures Moment(a, xs, 0) == if w < |a| then a[w] else ZERO
  {
    hide Xor, Mul;
    if a != [] {
      var n := |a| - 1;
      MomentSingle(a[..n], xs[..n], w);
      PowZero(xs[n]);
      MulOne(a[n]);
      XorZero(a[n]);
      if w < n {
        XorZero(a[w]);
      }
    }
  }

  /** At most `d` non-zero coefficients at distinct locations with `d` vanishing moments cannot exist:
      eliminating one location leaves one coefficient and one moment less. */
  lemma {:induction false} SparseVanishes(a: Poly, xs: seq<Byte>, d: nat)
    requires |a| == |xs| && Distinct(xs)
    requires |Support(a)| <= d
    requires forall i: nat | i < d :: Moment(a, xs, i) == ZERO
    ensures Support(a) == {}
    decreases d
  {
    hide Xor, Mul, Moment;
    if d > 0 && Support(a) != {} {
      var w :| w in Support(a);
      var b := Eliminate(a, xs, xs[w]);
      forall k | 0 <= k < |a|
        ensures b[k] == ZERO <==> a[k] == ZERO || k == w
      {
        NoZeroDivisors(a[k], Xor(xs[k], xs[w]));
        XorIsZero(xs[k], xs[w]);
        if k < w { assert xs[k] != xs[w]; } else if w < k { assert xs[w] != xs[k]; }
      }
      assert Support(b) == Support(a) - {w};
      forall i: nat | i < d - 1
        ensures Moment(b, xs, i) == ZERO
      {
        EliminateMoment(a, xs, xs[w], i);
        MulZero(xs[w]);
        XorZero(ZERO);
      }
      SparseVanishes(b, xs, d - 1);
      forall k | 0 <= k < |a| && k != w
        ensures a[k] == ZERO
      {
        assert k !in Support(b);
      }
      MomentSingle(a, xs, w);
    }
  }

  // ----- from values of polynomials to moments

  lemma {:induction false} PowPow(x: Byte, m: nat, n: nat)
    ensures Pow(Pow(x, m), n) == Pow(x, m * n)
  {
    hide Mul;
    MulStep(m, if n > 0 then n - 1 else 0);
    if n > 0 {
      PowPow(x, m, n - 1);
      PowAdd(x, m * (n - 1), m);
    }
  }

  /** The location of the coefficient at index `k` of a polynomial with `n` coefficients. */
  function Locations(n: nat): (xs: seq<Byte>)
    ensures |xs| == n
  {
    seq(n, k requires 0 <= k < n => Pow(TWO, n - 1 - k))
  }

  lemma LocationsDistinct(n: nat)
    requires n <= 255
    ensures Distinct(Locations(n))
  {
    forall j, k | 0 <= j < k < n
      ensures Locations(n)[j] != Locations(n)[k]
    {
      PowersDistinct(n - 1 - k, n - 1 - j);
    }
  }

  lemma {:induction false} EvalIsMoment(p: Poly, n: nat, i: nat)
    requires |p| <= n
    ensures Mul(Eval(p, Pow(TWO, i)), Pow(Pow(TWO, i), n - |p|)) == Moment(p, Locations(n)[..|p|], i)
  {
    hide Xor, Mul;
    var x := Pow(TWO, i);
    if p == [] {
      MulZero(Pow(x, n));
    } else {
      var m := |p| - 1;
      var e, rest := Eval(p[..m], x), Pow(x, n - 1 - m);
      EvalIsMoment(p[..m], n, i);
      assert Locations(n)[..m + 1][..m] == Locations(n)[..m];
      MulDistributes(rest, Mul(e, x), p[m]);
      MulAssociates(e, x, rest);
      MulCommutes(x, rest);
      PowPow(TWO, i, n - 1 - m);
      PowPow(TWO, n - 1 - m, i);
      MulCommutative(i, n - 1 - m);
    }
  }

  lemma VanishingMoment(p: Poly, i: nat)
    requires Eval(p, Pow(TWO, i)) == ZERO
    ensures Moment(p, Locations(|p|), i) == ZERO
  {
    hide Mul;
    EvalIsMoment(p, |p|, i);
    assert Locations(|p|)[..|p|] == Locations(|p|);
    MulZero(Pow(Pow(TWO, i), 0));
  }

  // ----- the distance theorems

  /** The places where two words differ. */
  ghost function Differences(u: Poly, v: Poly): set<int>
    requires |u| == |v|
  {
    set k | 0 <= k < |u| && u[k] != v[k]
  }

  ghost predicate Vanishes(u: Poly, d: nat) {
    forall i: nat | i < d :: Eval(u, Pow(TWO, i)) == ZERO
  }

  lemma VanishingWordsFarApart(u: Poly, v: Poly, d: nat)
    requires |u| == |v| <= 255 && u != v
    requires Vanishes(u, d) && Vanishes(v, d)
    ensures |Differences(u, v)| > d
  {
    hide Xor, Mul, Eval, Moment, Pow;
    var k :| 0 <= k < |u| && u[k] != v[k];
    assert k in Differences(u, v);
    if |Differences(u, v)| <= d {
      var e := AddPoly(u, v);
      forall k | 0 <= k < |u|
        ensures e[k] == ZERO <==> u[k] == v[k]
      {
        XorIsZero(u[k], v[k]);
      }
      assert Support(e) == Differences(u, v);
      forall i: nat | i < d
        ensures Moment(e, Locations(|e|), i) == ZERO
      {
        EvalAdd(u, v, Pow(TWO, i));
        XorZero(ZERO);
        VanishingMoment(e, i);
      }
      LocationsDistinct(|e|);
      SparseVanishes(e, Locations(|e|), d);
    }
  }

  lemma CodewordVanishes(data: Poly, d: nat)
    requires d > 0
    ensures Vanishes(Codeword(data, d), d)
  {
    forall i: nat | i < d
      ensures Eval(Codeword(data, d), Pow(TWO, i)) == ZERO
    {
      SyndromesVanish(data, d, i);
    }
  }

  /** Blocks of different data, with `d` error correction bytes each, differ in more than `d` places. */
  lemma MinimumDistance(a: Poly, b: Poly, d: nat)
    requires d > 0 && |a| == |b| && |a| + d <= 255 && a != b
    ensures |Differences(Codeword(a, d), Codeword(b, d))| > d
  {
    hide Eval, Ecc;
    CodewordVanishes(a, d);
    CodewordVanishes(b, d);
    assert Codeword(a, d)[..|a|] == a && Codeword(b, d)[..|b|] == b;
    VanishingWordsFarApart(Codeword(a, d), Codeword(b, d), d);
  }

  /** The error correction bytes are the only ones that make the block vanish at the generator's roots. */
  lemma EccUnique(data: Poly, ecc: Poly, d: nat)
    requires d == |ecc| > 0 && |data| + d <= 255
    ensures ecc == Ecc(data, d) <==> Vanishes(data + ecc, d)
  {
    hide Eval, Ecc;
    CodewordVanishes(data, d);
    var u, v := data + ecc, Codeword(data, d);
    if Vanishes(u, d) && u != v {
      VanishingWordsFarApart(u, v, d);
      Bounded(Differences(u, v), |data|, |data| + d);
    }
    assert u[|data|..] == ecc && v[|data|..] == Ecc(data, d);
  }

  /** A word with at most d/2 wrong bytes comes from only one block of data. */
  lemma UniqueDecoding(a: Poly, b: Poly, d: nat, word: Poly)
    requires d > 0 && |a| == |b| && |a| + d <= 255 && |word| == |a| + d
    requires 2 * |Differences(Codeword(a, d), word)| <= d
    requires 2 * |Differences(Codeword(b, d), word)| <= d
    ensures a == b
  {
    hide Eval, Ecc;
    if a != b {
      MinimumDistance(a, b, d);
      var u, v := Codeword(a, d), Codeword(b, d);
      assert Differences(u, v) <= Differences(u, word) + Differences(v, word);
      SubsetSize(Differences(u, v), Differences(u, word) + Differences(v, word));
    }
  }
}
