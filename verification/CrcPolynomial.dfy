/** The checksum is a polynomial remainder over GF(2): bit strings are coefficient lists,
    highest power first, and Xor is their sum. */
module CrcPolynomial {
  import opened Bits
  import opened Crc16

  /** The generator times the leading term of an n-coefficient quotient. */
  function Leading(coefficient: bool, n: nat): (p: BitString)
    requires n > 0
    ensures |p| == n + 16
  {
    if coefficient then [true] + POLY + Zeros(n - 1) else Zeros(n + 16)
  }

  /** q times the generator x^16 + x^12 + x^5 + 1. */
  function Product(q: BitString): (p: BitString)
    ensures |p| == |q| + 16
  {
    if q == [] then Zeros(16)
    else Xor(Leading(q[0], |q|), [false] + Product(q[1..]))
  }

  /** Division with remainder: dividend = q * generator + rem, rem of degree below 16. */
  ghost predicate Divides(dividend: BitString, q: BitString, rem: Register) {
    |dividend| == |q| + 16 && dividend == Xor(Product(q), Zeros(|q|) + rem)
  }

  ghost predicate IsRemainder(dividend: BitString, rem: Register) {
    exists q :: Divides(dividend, q, rem)
  }

  /** The message times x^16, with the start value mixed into its sixteen highest powers. */
  function Dividend(start: Register, bits: BitString): (d: BitString)
    ensures |d| == |bits| + 16
  {
    Xor(start + Zeros(|bits|), bits + Zeros(16))
  }

  /** The feedback bits of the register. */
  function Quotient(r: Register, bits: BitString): (q: BitString)
    ensures |q| == |bits|
    decreases bits
  {
    if bits == [] then [] else [r[0] != bits[0]] + Quotient(Step(r, bits[0]), bits[1..])
  }

  lemma {:induction false} RunDivides(r: Register, bits: BitString)
    ensures Divides(Dividend(r, bits), Quotient(r, bits), Run(r, bits))
    decreases bits
  {
    var d, q := Dividend(r, bits), Quotient(r, bits);
    if bits == [] {
      assert Xor(Product(q), Zeros(0) + r) == r == d;
    } else {
      var r', rest := Step(r, bits[0]), bits[1..];
      RunDivides(r', rest);
      var d', q' := Dividend(r', rest), Quotient(r', rest);
      assert q[1..] == q';
      DividendStep(r, bits);
      hide Leading;
      hide Step;
      assert Zeros(|q|) + Run(r, bits) == [false] + (Zeros(|q'|) + Run(r, bits));
      XorPrefixed(Leading(q[0], |q|), Product(q'), Zeros(|q'|) + Run(r, bits));
    }
  }

  // Adding a remainder below the leading coefficient.
  lemma XorPrefixed(top: BitString, rest: BitString, rem: BitString)
    requires |top| == |rest| + 1 == |rem| + 1
    ensures Xor(top, [false] + Xor(rest, rem)) == Xor(Xor(top, [false] + rest), [false] + rem)
  {
  }

  // Subtracting the generator under the leading coefficient clears that coefficient and
  // leaves the dividend of the next register.
  lemma DividendStep(r: Register, bits: BitString)
    requires bits != []
    ensures Dividend(r, bits) == Xor(Leading(r[0] != bits[0], |bits|),
                                     [false] + Dividend(Step(r, bits[0]), bits[1..]))
  {
  }

  lemma {:induction false} DivisionUnique(dividend: BitString, q1: BitString, r1: Register,
                                          q2: BitString, r2: Register)
    requires Divides(dividend, q1, r1) && Divides(dividend, q2, r2)
    ensures q1 == q2 && r1 == r2
    decreases |q1|
  {
    if q1 == [] {
      assert q2 == [];
      forall i | 0 <= i < 16
        ensures r1[i] == r2[i]
      {
        assert dividend[i] == (Product(q1)[i] != r1[i]) && dividend[i] == (Product(q2)[i] != r2[i]);
      }
    } else {
      LeadingCoefficient(dividend, q1, r1);
      LeadingCoefficient(dividend, q2, r2);
      DivisionUnique(Reduced(dividend), q1[1..], r1, q2[1..], r2);
      assert q1 == [q1[0]] + q1[1..] && q2 == [q2[0]] + q2[1..];
    }
  }

  // The dividend after one step of long division.
  ghost function Reduced(dividend: BitString): BitString
    requires |dividend| > 16
  {
    Xor(dividend, Leading(dividend[0], |dividend| - 16))[1..]
  }

  lemma LeadingCoefficient(dividend: BitString, q: BitString, rem: Register)
    requires Divides(dividend, q, rem) && q != []
    ensures q[0] == dividend[0]
    ensures Divides(Reduced(dividend), q[1..], rem)
  {
    var top, rest, tail := Leading(q[0], |q|), Product(q[1..]), Zeros(|q| - 1) + rem;
    assert Zeros(|q|) + rem == [false] + tail;
    assert top[0] == q[0];
    hide Leading;
    XorPrefixed(top, rest, tail);
    XorBack(top, Xor(rest, tail));
  }

  lemma XorBack(top: BitString, rest: BitString)
    requires |top| == |rest| + 1
    ensures Xor(top, [false] + rest)[0] == top[0]
    ensures Xor(Xor(top, [false] + rest), top)[1..] == rest
  {
  }

  /** The register holds the remainder, whatever was in it at the start. */
  lemma RunIsRemainder(r: Register, bits: BitString, rem: Register)
    ensures IsRemainder(Dividend(r, bits), rem) <==> rem == Run(r, bits)
  {
    RunDivides(r, bits);
    if IsRemainder(Dividend(r, bits), rem) {
      var q :| Divides(Dividend(r, bits), q, rem);
      DivisionUnique(Dividend(r, bits), q, rem, Quotient(r, bits), Run(r, bits));
    }
  }

  /** The checksum from start value 0 is the remainder of message * x^16, and nothing else is. */
  lemma CrcIsRemainder(data: seq<U8>, rem: U16)
    ensures IsRemainder(MessageBits(data) + Zeros(16), ToBits(rem, 16)) <==> rem == Crc(data, 0)
  {
    var bits := MessageBits(data);
    ZeroBits(16);
    assert Dividend(ToBits(0, 16), bits) == bits + Zeros(16);
    RunIsRemainder(ToBits(0, 16), bits, ToBits(rem, 16));
    Pow2Of8And16();
    FromToBits(rem, 16);
    FromToBits(Crc(data, 0), 16);
  }

  lemma {:induction false} ZeroBits(k: nat)
    ensures ToBits(0, k) == Zeros(k)
  {
    if k > 0 {
      ZeroBits(k - 1);
    }
  }
}
