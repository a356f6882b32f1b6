/** The loader's 16-bit checksum: a shift register fed most significant bit first. */
module Crc16 {
  import opened Bits

  /** A 16-bit register as its bits. */
  type Register = r: BitString | |r| == 16 witness Zeros(16)

  /** The low coefficients of the generator x^16 + x^12 + x^5 + 1. */
  const POLY: Register := [false, false, false, true, false, false, false, false,
                           false, false, true, false, false, false, false, true]

  lemma PolyIs0x1021()
    ensures POLY == ToBits(0x1021, 16)
  {
    ToBitsSplit(0x10, 0x21, 8, 8);
    assert ToBits(0x10, 8) == POLY[..8];
    assert ToBits(0x21, 8) == POLY[8..];
  }

  /** Shift left, subtracting the generator when a one falls out. */
  function Shift(r: Register, feedback: bool): Register {
    if feedback then Xor(r[1..] + [false], POLY) else r[1..] + [false]
  }

  /** One bit of division. */
  function Step(r: Register, bit: bool): Register {
    Shift(r, r[0] != bit)
  }

  /** The register after a whole bit string has been fed in. */
  function Run(r: Register, bits: BitString): Register
    decreases bits
  {
    if bits == [] then r else Run(Step(r, bits[0]), bits[1..])
  }

  lemma {:induction false} RunConcat(r: Register, a: BitString, b: BitString)
    ensures Run(r, a + b) == Run(Run(r, a), b)
    decreases a
  {
    if a == [] {
      assert a + b == b;
    } else {
      assert (a + b)[1..] == a[1..] + b;
      RunConcat(Step(r, a[0]), a[1..], b);
    }
  }

  lemma RunSnoc(r: Register, bits: BitString, n: nat)
    requires n < |bits|
    ensures Run(r, bits[..n + 1]) == Step(Run(r, bits[..n]), bits[n])
  {
    assert bits[..n + 1] == bits[..n] + [bits[n]];
    RunConcat(r, bits[..n], [bits[n]]);
    assert Run(Run(r, bits[..n]), [bits[n]]) == Run(Step(Run(r, bits[..n]), bits[n]), []);
  }

  // The code mixes a whole byte in ahead of time: its register differs from the
  // bit-serial register v by the bits of the byte that have not had their turn yet.
  lemma MixedStep(v: Register, bits: BitString, n: nat)
    requires n < |bits| == 8
    ensures var crc := Xor(v, bits[n..] + Zeros(8 + n));
      Shift(crc, crc[0]) == Xor(Step(v, bits[n]), bits[n + 1..] + Zeros(9 + n))
  {
  }

  /** The checksum as bit-serial division defines it. */
  function Crc(data: seq<U8>, start: U16): (crc: U16)
    ensures ToBits(crc, 16) == Run(ToBits(start, 16), MessageBits(data))
  {
    var r := Run(ToBits(start, 16), MessageBits(data));
    Pow2Of8And16();
    ToFromBits(r);
    FromBits(r)
  }

  /** The checksum of the loader: each byte is mixed into the high half, then shifted through. */
  method Checksum(data: seq<U8>, start: U16) returns (crc: U16)
    ensures crc == Crc(data, start)
  {
    var r: Register := ToBits(start, 16);
    for i := 0 to |data|
      invariant r == Run(ToBits(start, 16), MessageBits(data[..i]))
    {
      ghost var before, bits := r, Bits8(data[i]);
      r := Xor(r, Bits8(data[i]) + Zeros(8));
      for n := 0 to 8
        invariant r == Xor(Run(before, bits[..n]), bits[n..] + Zeros(8 + n))
      {
        MixedStep(Run(before, bits[..n]), bits, n);
        RunSnoc(before, bits, n);
        if r[0] {
          r := Xor(r[1..] + [false], POLY);
        } else {
          r := r[1..] + [false];
        }
      }
      assert bits[..8] == bits;
      MessageBitsSnoc(data, i);
      RunConcat(ToBits(start, 16), MessageBits(data[..i]), bits);
    }
    assert data[..|data|] == data;
    Pow2Of8And16();
    crc := FromBits(r);
  }
}
