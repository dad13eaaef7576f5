/** Appending bits to a byte buffer. */
module BitBuffer {
  import opened Bytes

  /** `v >> n` */
  function ShiftRight(v: nat, n: nat): nat {
    if n == 0 then v else ShiftRight(v / 2, n - 1)
  }

  lemma {:induction false} ToBitsAt(v: nat, n: nat, k: nat)
    requires k < n
    ensures ToBits(v, n)[k] == (ShiftRight(v, n - 1 - k) % 2 == 1)
  {
    if k < n - 1 {
      ToBitsAt(v / 2, n - 1, k);
    }
  }

  /** `s` with `b` or-ed into it from position `k` on. */
  function OrBits(s: seq<bool>, k: nat, b: seq<bool>): (r: seq<bool>)
    requires k + |b| <= |s|
    ensures |r| == |s|
  {
    seq(|s|, i requires 0 <= i < |s| => s[i] || (k <= i < k + |b| && b[i - k]))
  }

  /** The first `size` bytes hold these bits and zeros after them. */
  ghost predicate Holds(buffer: seq<Byte>, size: nat, bits: seq<bool>) {
    && size <= |buffer|
    && |bits| <= 8 * size
    && DataBits(buffer)[..8 * size] == bits + Zeros(8 * size - |bits|)
  }

  /** Appending where the bytes are still zero concatenates. */
  lemma AppendedHolds(before: seq<Byte>, after: seq<Byte>, size: nat, bits: seq<bool>, more: seq<bool>)
    requires Holds(before, size, bits) && |after| == |before| && |bits| + |more| <= 8 * size
    requires DataBits(after) == OrBits(DataBits(before), |bits|, more)
    ensures Holds(after, size, bits + more)
  {
    assert forall i | 0 <= i < 8 * size :: DataBits(before)[i] == (bits + Zeros(8 * size - |bits|))[i];
  }

  method ZeroBytes(buffer: array<Byte>, size: nat)
    requires size <= buffer.Length
    modifies buffer
    ensures Holds(buffer[..], size, [])
    ensures forall k | size <= k < buffer.Length :: buffer[k] == old(buffer[k])
  {
    for k := 0 to size
      invariant forall i | 0 <= i < k :: buffer[i] == ZERO
      invariant forall k | size <= k < buffer.Length :: buffer[k] == old(buffer[k])
    {
      buffer[k] := ZERO;
    }
    forall i | 0 <= i < 8 * size
      ensures !DataBits(buffer[..])[i]
    {
      assert buffer[..][i / 8] == ZERO;
    }
  }

  method AppendBitsToBuffer(val: nat, numBits: nat, buffer: array<Byte>, bitLen: nat) returns (bitLen': nat)
    requires numBits <= 16 && val < Pow2(numBits) && bitLen + numBits <= 8 * buffer.Length
    modifies buffer
    ensures bitLen' == bitLen + numBits
    ensures DataBits(buffer[..]) == OrBits(old(DataBits(buffer[..])), bitLen, ToBits(val, numBits))
    ensures forall size: nat, bits |
      Holds(old(buffer[..]), size, bits) && |bits| == bitLen && bitLen' <= 8 * size ::
      Holds(buffer[..], size, bits + ToBits(val, numBits))
    ensures forall k | (bitLen + numBits + 7) / 8 <= k < buffer.Length :: buffer[k] == old(buffer[k])
  {
    hide DataBits, Holds;
    ghost var before, bits := buffer[..], ToBits(val, numBits);
    bitLen' := bitLen;
    var i := numBits - 1;
    assert DataBits(buffer[..]) == OrBits(DataBits(before), bitLen, bits[..0]);
    while i >= 0
      invariant -1 <= i < numBits && bitLen' == bitLen + (numBits - 1 - i)
      invariant DataBits(buffer[..]) == OrBits(DataBits(before), bitLen, bits[..numBits - 1 - i])
      invariant forall k | (bitLen + numBits + 7) / 8 <= k < buffer.Length :: buffer[k] == before[k]
    {
      ToBitsAt(val, numBits, numBits - 1 - i);
      ghost var now := buffer[..];
      var bit := buffer[bitLen' / 8][bitLen' % 8] || ShiftRight(val, i) % 2 == 1;
      buffer[bitLen' / 8] := buffer[bitLen' / 8][bitLen' % 8 := bit];
      DataBitsSet(now, bitLen', bit);
      assert buffer[..] == now[bitLen' / 8 := now[bitLen' / 8][bitLen' % 8 := bit]];
      OrNext(DataBits(before), bitLen, bits, numBits - 1 - i);
      BitOf(now, bitLen');
      i := i - 1;
      bitLen' := bitLen' + 1;
    }
    assert bits[..numBits] == bits;
    forall size: nat, held | Holds(before, size, held) && |held| == bitLen && bitLen' <= 8 * size
      ensures Holds(buffer[..], size, held + bits)
    {
      AppendedHolds(before, buffer[..], size, held, bits);
    }
  }

  lemma BitOf(data: seq<Byte>, k: nat)
    requires k < 8 * |data|
    ensures data[k / 8][k % 8] == DataBits(data)[k]
  {
  }

  lemma OrNext(s: seq<bool>, k: nat, b: seq<bool>, j: nat)
    requires k + |b| <= |s| && j < |b|
    ensures var r := OrBits(s, k, b[..j]);
      OrBits(s, k, b[..j + 1]) == r[k + j := r[k + j] || b[j]]
  {
  }
}
