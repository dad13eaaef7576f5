/** Bytes as eight bits, with the bit operations the C code performs on `uint8_t`. */
module Bytes {
  import opened Arithmetic

  /** An unsigned byte, most significant bit first, so that `(b >> i) & 1` is `b[7 - i]`. */
  type Byte = b: seq<bool> | |b| == 8 witness [false, false, false, false, false, false, false, false]

  const ZERO: Byte := [false, false, false, false, false, false, false, false]

  /** Bitwise exclusive or. */
  function Xor(x: Byte, y: Byte): Byte {
    seq(8, i requires 0 <= i < 8 => x[i] != y[i])
  }

  /** `x << 1`, truncated to eight bits. */
  function ShiftLeft(x: Byte): Byte {
    x[1..] + [false]
  }

  lemma XorCommutes(x: Byte, y: Byte)
    ensures Xor(x, y) == Xor(y, x)
  {
  }

  lemma XorZero(x: Byte)
    ensures Xor(x, ZERO) == x == Xor(ZERO, x)
    ensures Xor(x, x) == ZERO
  {
  }

  lemma XorIsZero(x: Byte, y: Byte)
    ensures Xor(x, y) == ZERO <==> x == y
  {
    if Xor(x, y) == ZERO {
      forall i | 0 <= i < 8
        ensures x[i] == y[i]
      {
        assert Xor(x, y)[i] == ZERO[i];
      }
    }
  }

  lemma XorCancels(x: Byte, y: Byte)
    ensures Xor(Xor(x, y), y) == x == Xor(y, Xor(y, x))
  {
  }

  lemma XorInterchange(a: Byte, b: Byte, c: Byte, d: Byte)
    ensures Xor(Xor(a, b), Xor(c, d)) == Xor(Xor(a, c), Xor(b, d))
  {
  }

  // ----- bits and integers

  /** The unsigned integer with these binary digits, most significant first. */
  function Value(bits: seq<bool>): nat {
    if bits == [] then 0
    else 2 * Value(bits[..|bits| - 1]) + (if bits[|bits| - 1] then 1 else 0)
  }

  function Pow2(n: nat): nat {
    if n == 0 then 1 else 2 * Pow2(n - 1)
  }

  /** The `n` low-order binary digits of `v`. */
  function ToBits(v: nat, n: nat): (bits: seq<bool>)
    ensures |bits| == n
  {
    if n == 0 then [] else ToBits(v / 2, n - 1) + [v % 2 == 1]
  }

  lemma {:induction false} ValueBound(bits: seq<bool>)
    ensures Value(bits) < Pow2(|bits|)
  {
    if bits != [] {
      ValueBound(bits[..|bits| - 1]);
    }
  }

  lemma {:induction false} ValueOfBits(v: nat, n: nat)
    requires v < Pow2(n)
    ensures Value(ToBits(v, n)) == v
  {
    if n > 0 {
      ValueOfBits(v / 2, n - 1);
      assert ToBits(v, n)[..n - 1] == ToBits(v / 2, n - 1);
    }
  }

  lemma {:induction false} BitsOfValue(bits: seq<bool>)
    ensures ToBits(Value(bits), |bits|) == bits
  {
    if bits != [] {
      BitsOfValue(bits[..|bits| - 1]);
    }
  }

  lemma ValueInjective(p: seq<bool>, q: seq<bool>)
    requires |p| == |q| && Value(p) == Value(q)
    ensures p == q
  {
    BitsOfValue(p);
    BitsOfValue(q);
  }

  /** Digits of the second part are worth less by the weight of its length. */
  lemma {:induction false} ValueConcat(p: seq<bool>, q: seq<bool>)
    ensures Value(p + q) == Value(p) * Pow2(|q|) + Value(q)
  {
    EmptyValue();
    hide Value, Pow2;
    if q == [] {
      assert p + q == p;
    } else {
      var n := |q| - 1;
      ValueConcat(p, q[..n]);
      assert (p + q)[..|p| + n] == p + q[..n];
      LastDigitOf(p + q);
      LastDigitOf(q);
      DoubleProduct(Value(p), Pow2(n));
    }
  }

  lemma EmptyValue()
    ensures Value([]) == 0 && Pow2(0) == 1
  {
  }

  lemma LastDigitOf(bits: seq<bool>)
    requires bits != []
    ensures Value(bits) == 2 * Value(bits[..|bits| - 1]) + if bits[|bits| - 1] then 1 else 0
    ensures Pow2(|bits|) == 2 * Pow2(|bits| - 1)
  {
  }

  /** Digit `k`, counted from the last. */
  lemma BitValue(bits: seq<bool>, k: nat)
    requires k < |bits|
    ensures Pow2(k) > 0 && (bits[|bits| - 1 - k] <==> Value(bits) / Pow2(k) % 2 == 1)
  {
    hide Pow2, Value;
    var high := bits[..|bits| - k];
    HighPart(bits, k);
    LastDigitOf(high);
    OddIff(Value(high), Value(high[..|high| - 1]), high[|high| - 1]);
  }

  lemma HighPart(bits: seq<bool>, k: nat)
    requires k <= |bits|
    ensures Pow2(k) > 0 && Value(bits) / Pow2(k) == Value(bits[..|bits| - k])
  {
    hide Pow2, Value;
    var high, low := bits[..|bits| - k], bits[|bits| - k..];
    assert bits == high + low;
    ValueConcat(high, low);
    ValueBound(low);
    DivModUnique(Value(low), Value(high), Pow2(k));
  }

  lemma OddIff(v: nat, u: nat, b: bool)
    requires v == 2 * u + if b then 1 else 0
    ensures v % 2 == 1 <==> b
  {
  }

  lemma DoubleProduct(a: nat, b: nat)
    ensures 2 * (a * b) == a * (2 * b)
  {
  }

  lemma {:induction false} Pow2Add(m: nat, n: nat)
    ensures Pow2(m + n) == Pow2(m) * Pow2(n)
  {
    if n > 0 {
      Pow2Add(m, n - 1);
      DoubleProduct(Pow2(m), Pow2(n - 1));
    }
  }

  function Repeat(v: bool, n: nat): (b: seq<bool>)
    ensures |b| == n
  {
    seq(n, _ => v)
  }

  function Zeros(n: nat): (z: seq<bool>)
    ensures |z| == n
  {
    Repeat(false, n)
  }

  lemma Pow2Of8()
    ensures Pow2(8) == 256
  {
  }

  /** The bits of a sequence of bytes, most significant first. */
  function DataBits(data: seq<Byte>): (bits: seq<bool>)
    ensures |bits| == 8 * |data|
  {
    seq(8 * |data|, i requires 0 <= i < 8 * |data| => data[i / 8][i % 8])
  }

  lemma DataBitsSet(data: seq<Byte>, k: nat, v: bool)
    requires k < 8 * |data|
    ensures DataBits(data[k / 8 := data[k / 8][k % 8 := v]]) == DataBits(data)[k := v]
  {
    var data' := data[k / 8 := data[k / 8][k % 8 := v]];
    forall i | 0 <= i < 8 * |data|
      ensures DataBits(data')[i] == DataBits(data)[k := v][i]
    {
      if i / 8 == k / 8 && i % 8 == k % 8 {
        assert i == k;
      }
    }
  }
}
