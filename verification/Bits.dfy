/** Unsigned machine words and their bit strings, most significant bit first. */
module Bits {

  type U8 = n: nat | n < 0x100
  type U16 = n: nat | n < 0x1_0000

  type BitString = seq<bool>

  function Zeros(n: nat): (z: BitString)
    ensures |z| == n
  {
    seq(n, _ => false)
  }

  function Xor(a: BitString, b: BitString): (c: BitString)
    requires |a| == |b|
    ensures |c| == |a|
  {
    seq(|a|, i requires 0 <= i < |a| => a[i] != b[i])
  }

  function Pow2(k: nat): (p: nat)
    ensures p > 0
  {
    if k == 0 then 1 else 2 * Pow2(k - 1)
  }

  /** The low k bits of n. */
  function ToBits(n: nat, k: nat): (bits: BitString)
    ensures |bits| == k
    decreases k
  {
    if k == 0 then [] else ToBits(n / 2, k - 1) + [n % 2 == 1]
  }

  function FromBits(bits: BitString): (n: nat)
    ensures n < Pow2(|bits|)
  {
    if bits == [] then 0
    else 2 * FromBits(bits[..|bits| - 1]) + if bits[|bits| - 1] then 1 else 0
  }

  lemma {:induction false} FromToBits(n: nat, k: nat)
    requires n < Pow2(k)
    ensures FromBits(ToBits(n, k)) == n
    decreases k
  {
    if k > 0 {
      FromToBits(n / 2, k - 1);
      assert ToBits(n, k)[..k - 1] == ToBits(n / 2, k - 1);
    }
  }

  lemma {:induction false} ToFromBits(bits: BitString)
    ensures ToBits(FromBits(bits), |bits|) == bits
  {
    if bits != [] {
      var init := bits[..|bits| - 1];
      ToFromBits(init);
      assert FromBits(bits) / 2 == FromBits(init);
      assert init + [bits[|bits| - 1]] == bits;
    }
  }

  lemma {:induction false} ToBitsSplit(high: nat, low: nat, k: nat, j: nat)
    requires low < Pow2(j)
    ensures ToBits(high * Pow2(j) + low, k + j) == ToBits(high, k) + ToBits(low, j)
    decreases j
  {
    if j == 0 {
      assert ToBits(low, 0) == [];
    } else {
      var n := high * Pow2(j) + low;
      assert n == 2 * (high * Pow2(j - 1)) + low;
      ToBitsSplit(high, low / 2, k, j - 1);
    }
  }

  lemma Pow2Of8And16()
    ensures Pow2(8) == 0x100 && Pow2(16) == 0x1_0000
  {
  }

  function Bits8(b: U8): (bits: BitString)
    ensures |bits| == 8
  {
    ToBits(b, 8)
  }

  /** A message as one bit string, byte by byte. */
  function MessageBits(data: seq<U8>): (bits: BitString)
    ensures |bits| == 8 * |data|
  {
    if data == [] then [] else Bits8(data[0]) + MessageBits(data[1..])
  }

  lemma {:induction false} MessageBitsConcat(a: seq<U8>, b: seq<U8>)
    ensures MessageBits(a + b) == MessageBits(a) + MessageBits(b)
  {
    if a == [] {
      assert a + b == b;
    } else {
      assert (a + b)[1..] == a[1..] + b;
      MessageBitsConcat(a[1..], b);
    }
  }

  lemma MessageBitsSnoc(data: seq<U8>, i: nat)
    requires i < |data|
    ensures MessageBits(data[..i + 1]) == MessageBits(data[..i]) + Bits8(data[i])
  {
    assert data[..i + 1] == data[..i] + [data[i]];
    MessageBitsConcat(data[..i], [data[i]]);
    assert MessageBits([data[i]]) == Bits8(data[i]) + MessageBits([]);
  }

  lemma {:induction false} MessageBitsInjective(a: seq<U8>, b: seq<U8>)
    requires |a| == |b| && MessageBits(a) == MessageBits(b)
    ensures a == b
  {
    if a != [] {
      assert MessageBits(a)[..8] == Bits8(a[0]) && MessageBits(b)[..8] == Bits8(b[0]);
      assert MessageBits(a)[8..] == MessageBits(a[1..]) && MessageBits(b)[8..] == MessageBits(b[1..]);
      Pow2Of8And16();
      FromToBits(a[0], 8);
      FromToBits(b[0], 8);
      MessageBitsInjective(a[1..], b[1..]);
    }
  }
}
