/** What the checksum can tell apart: linearity, residue, bursts, parity and few-bit errors. */
module CrcDetection {
  import opened Bits
  import opened Crc16
  import opened CrcPolynomial
  import opened CrcOrder

  // ---- The register is linear and every step can be undone. ----

  lemma StepXor(r: Register, s: Register, b: bool, c: bool)
    ensures Step(Xor(r, s), b != c) == Xor(Step(r, b), Step(s, c))
  {
  }

  lemma {:induction false} RunXor(r: Register, s: Register, a: BitString, b: BitString)
    requires |a| == |b|
    ensures Run(Xor(r, s), Xor(a, b)) == Xor(Run(r, a), Run(s, b))
    decreases a
  {
    if a != [] {
      StepXor(r, s, a[0], b[0]);
      assert Xor(a, b)[1..] == Xor(a[1..], b[1..]);
      RunXor(Step(r, a[0]), Step(s, b[0]), a[1..], b[1..]);
    }
  }

  lemma StepInjective(r: Register, s: Register, b: bool)
    requires Step(r, b) == Step(s, b)
    ensures r == s
  {
    assert Step(r, b)[15] == (r[0] != b) && Step(s, b)[15] == (s[0] != b);
    forall i | 1 <= i < 16
      ensures r[i] == s[i]
    {
      assert Step(r, b)[i - 1] == (r[i] != ((r[0] != b) && POLY[i - 1]));
      assert Step(s, b)[i - 1] == (s[i] != ((s[0] != b) && POLY[i - 1]));
    }
  }

  lemma {:induction false} RunInjective(r: Register, s: Register, bits: BitString)
    requires Run(r, bits) == Run(s, bits)
    ensures r == s
    decreases bits
  {
    if bits != [] {
      RunInjective(Step(r, bits[0]), Step(s, bits[0]), bits[1..]);
      StepInjective(r, s, bits[0]);
    }
  }

  lemma {:induction false} RunZeros(n: nat)
    ensures Run(Zeros(16), Zeros(n)) == Zeros(16)
  {
    if n > 0 {
      assert Zeros(n)[1..] == Zeros(n - 1);
      assert Step(Zeros(16), false) == Zeros(16);
      RunZeros(n - 1);
    }
  }

  lemma XorCancels(a: BitString, b: BitString)
    requires |a| == |b|
    ensures Xor(a, b) == Zeros(|a|) <==> a == b
  {
    if Xor(a, b) == Zeros(|a|) {
      forall i | 0 <= i < |a|
        ensures a[i] == b[i]
      {
        assert Xor(a, b)[i] == Zeros(|a|)[i];
      }
    }
  }

  /** Two messages collide, from any common start, exactly when their difference drives
      the empty register to zero. */
  lemma CollisionIsZeroRun(r: Register, a: BitString, b: BitString)
    requires |a| == |b|
    ensures Run(r, a) == Run(r, b) <==> Run(Zeros(16), Xor(a, b)) == Zeros(16)
  {
    RunXor(r, r, a, b);
    XorCancels(r, r);
    XorCancels(Run(r, a), Run(r, b));
  }

  /** ... which is when the difference, shifted up by x^16, is a multiple of the generator. */
  lemma CollisionIsMultiple(r: Register, a: BitString, b: BitString)
    requires |a| == |b|
    ensures Run(r, a) == Run(r, b) <==>
            exists q :: |q| == |a| && Product(q) == Xor(a, b) + Zeros(16)
  {
    var d := Xor(a, b);
    CollisionIsZeroRun(r, a, b);
    RunIsRemainder(Zeros(16), d, Zeros(16));
    assert Dividend(Zeros(16), d) == d + Zeros(16);
    hide Divides;
    forall q: BitString
      ensures Divides(d + Zeros(16), q, Zeros(16)) <==> |q| == |a| && Product(q) == d + Zeros(16)
    {
      DividesExactly(d + Zeros(16), q);
    }
  }

  lemma DividesExactly(d: BitString, q: BitString)
    ensures Divides(d, q, Zeros(16)) <==> |d| == |q| + 16 && Product(q) == d
  {
    assert Xor(Product(q), Zeros(|q|) + Zeros(16)) == Product(q);
  }

  /** Exclusive or of the numbers the code works on. */
  function XorU8(m: U8, n: U8): U8 {
    Pow2Of8And16();
    FromBits(Xor(Bits8(m), Bits8(n)))
  }

  function XorU16(m: U16, n: U16): U16 {
    Pow2Of8And16();
    FromBits(Xor(ToBits(m, 16), ToBits(n, 16)))
  }

  function XorBytes(a: seq<U8>, b: seq<U8>): (c: seq<U8>)
    requires |a| == |b|
    ensures |c| == |a|
  {
    if a == [] then [] else [XorU8(a[0], b[0])] + XorBytes(a[1..], b[1..])
  }

  lemma XorConcat(a: BitString, b: BitString, c: BitString, d: BitString)
    requires |a| == |c| && |b| == |d|
    ensures Xor(a + b, c + d) == Xor(a, c) + Xor(b, d)
  {
  }

  lemma XorU8Bits(m: U8, n: U8)
    ensures Bits8(XorU8(m, n)) == Xor(Bits8(m), Bits8(n))
  {
    ToFromBits(Xor(Bits8(m), Bits8(n)));
  }

  lemma {:induction false} XorBytesBits(a: seq<U8>, b: seq<U8>)
    requires |a| == |b|
    ensures MessageBits(XorBytes(a, b)) == Xor(MessageBits(a), MessageBits(b))
  {
    if a != [] {
      hide Bits8;
      hide XorU8;
      hide Xor;
      XorBytesBits(a[1..], b[1..]);
      XorU8Bits(a[0], b[0]);
      assert XorBytes(a, b)[1..] == XorBytes(a[1..], b[1..]);
      XorConcat(Bits8(a[0]), MessageBits(a[1..]), Bits8(b[0]), MessageBits(b[1..]));
    }
  }

  /** Linearity of the checksum, in message and start value together. */
  lemma CrcLinear(a: seq<U8>, b: seq<U8>, s: U16, t: U16)
    requires |a| == |b|
    ensures Crc(XorBytes(a, b), XorU16(s, t)) == XorU16(Crc(a, s), Crc(b, t))
  {
    XorBytesBits(a, b);
    XorU16Bits(s, t);
    XorU16Bits(Crc(a, s), Crc(b, t));
    RunXor(ToBits(s, 16), ToBits(t, 16), MessageBits(a), MessageBits(b));
    ToBitsInjective(Crc(XorBytes(a, b), XorU16(s, t)), XorU16(Crc(a, s), Crc(b, t)));
  }

  lemma XorU16Bits(m: U16, n: U16)
    ensures ToBits(XorU16(m, n), 16) == Xor(ToBits(m, 16), ToBits(n, 16))
  {
    ToFromBits(Xor(ToBits(m, 16), ToBits(n, 16)));
  }

  lemma CrcEqualIffRunEqual(a: seq<U8>, b: seq<U8>, s: U16, t: U16)
    ensures Crc(a, s) == Crc(b, t) <==>
            Run(ToBits(s, 16), MessageBits(a)) == Run(ToBits(t, 16), MessageBits(b))
  {
    ToBitsInjective(Crc(a, s), Crc(b, t));
  }

  /** Checksums can be computed in chunks. */
  lemma CrcConcat(a: seq<U8>, b: seq<U8>, start: U16)
    ensures Crc(a + b, start) == Crc(b, Crc(a, start))
  {
    MessageBitsConcat(a, b);
    RunConcat(ToBits(start, 16), MessageBits(a), MessageBits(b));
    CrcEqualIffRunEqual(a + b, b, start, Crc(a, start));
  }

  // ---- A window of at most sixteen bits. ----

  // Feeding a window no wider than the register is the same as mixing it in first.
  lemma {:induction false} WindowMixedIn(r: Register, w: BitString)
    requires |w| <= 16
    ensures Run(r, w) == Run(Xor(r, w + Zeros(16 - |w|)), Zeros(|w|))
    decreases w
  {
    var mixed := Xor(r, w + Zeros(16 - |w|));
    if w == [] {
      assert mixed == r;
    } else {
      var next := Step(r, w[0]);
      WindowMixedIn(next, w[1..]);
      assert Step(mixed, false) == Xor(next, w[1..] + Zeros(17 - |w|));
      assert Zeros(|w|)[1..] == Zeros(|w| - 1);
    }
  }

  lemma WindowInjective(r: Register, v: BitString, w: BitString)
    requires |v| == |w| <= 16
    requires Run(r, v) == Run(r, w)
    ensures v == w
  {
    var z := Zeros(16 - |v|);
    WindowMixedIn(r, v);
    WindowMixedIn(r, w);
    RunInjective(Xor(r, v + z), Xor(r, w + z), Zeros(|v|));
    forall i | 0 <= i < |v|
      ensures v[i] == w[i]
    {
      assert Xor(r, v + z)[i] == Xor(r, w + z)[i];
    }
  }

  lemma WordBits(high: U8, low: U8)
    ensures MessageBits([high, low]) == ToBits(high * 0x100 + low, 16)
  {
    Pow2Of8And16();
    ToBitsSplit(high, low, 8, 8);
    MessageBitsConcat([high], [low]);
    assert [high, low] == [high] + [low];
    OneByte(high);
    OneByte(low);
  }

  lemma OneByte(b: U8)
    ensures MessageBits([b]) == Bits8(b)
  {
    assert MessageBits([b]) == Bits8(b) + MessageBits([]);
  }

  lemma RunToZero(r: Register, w: Register)
    ensures Run(r, w) == Zeros(16) <==> w == r
  {
    RunSelf(r);
    if Run(r, w) == Zeros(16) {
      WindowInjective(r, w, r);
    }
  }

  lemma ToBitsInjective(m: U16, n: U16)
    ensures ToBits(m, 16) == ToBits(n, 16) <==> m == n
  {
    Pow2Of8And16();
    FromToBits(m, 16);
    FromToBits(n, 16);
  }

  /** Appending the checksum, high byte first, drives the register to zero, and no other
      two bytes do. */
  lemma AppendedChecksum(data: seq<U8>, start: U16, high: U8, low: U8)
    ensures Crc(data + [high, low], start) == 0 <==> high * 0x100 + low == Crc(data, start)
  {
    var c := Crc(data, start);
    CrcConcat(data, [high, low], start);
    WordBits(high, low);
    RunToZero(ToBits(c, 16), ToBits(high * 0x100 + low, 16));
    ToBitsInjective(high * 0x100 + low, c);
    ZeroBits(16);
    ToBitsInjective(Crc([high, low], c), 0);
  }

  lemma RunSelf(r: Register)
    ensures Run(r, r) == Zeros(16)
  {
    WindowMixedIn(r, r);
    XorCancels(r, r);
    assert r + Zeros(0) == r;
    RunZeros(16);
  }

  /** Bit strings that differ, but only inside one window of sixteen bits, never collide. */
  lemma BurstBits(r: Register, a: BitString, b: BitString, start: nat)
    requires |a| == |b| && a != b
    requires forall j :: 0 <= j < |a| && a[j] != b[j] ==> start <= j < start + 16
    ensures Run(r, a) != Run(r, b)
  {
    var lo := if start <= |a| then start else |a|;
    var hi := if start + 16 <= |a| then start + 16 else |a|;
    assert a[..lo] == b[..lo] && a[hi..] == b[hi..];
    Cut(r, a, lo, hi);
    Cut(r, b, lo, hi);
    var r' := Run(r, a[..lo]);
    if a[lo..hi] == b[lo..hi] {
      Reassembled(a, lo, hi);
      Reassembled(b, lo, hi);
    } else if Run(r, a) == Run(r, b) {
      RunInjective(Run(r', a[lo..hi]), Run(r', b[lo..hi]), a[hi..]);
      WindowInjective(r', a[lo..hi], b[lo..hi]);
    }
  }

  lemma Reassembled(a: BitString, lo: nat, hi: nat)
    requires lo <= hi <= |a|
    ensures a == a[..lo] + a[lo..hi] + a[hi..]
  {
  }

  lemma Cut(r: Register, a: BitString, lo: nat, hi: nat)
    requires lo <= hi <= |a|
    ensures Run(r, a) == Run(Run(Run(r, a[..lo]), a[lo..hi]), a[hi..])
  {
    assert a == a[..lo] + a[lo..] && a[lo..] == a[lo..hi] + a[hi..];
    RunConcat(r, a[..lo], a[lo..]);
    RunConcat(Run(r, a[..lo]), a[lo..hi], a[hi..]);
  }

  /** Every burst error of at most sixteen bits, at any bit position, changes the checksum. */
  lemma BurstDetected(a: seq<U8>, b: seq<U8>, crcStart: U16, start: nat)
    requires |a| == |b| && a != b
    requires forall j :: 0 <= j < 8 * |a| && MessageBits(a)[j] != MessageBits(b)[j] ==> start <= j < start + 16
    ensures Crc(a, crcStart) != Crc(b, crcStart)
  {
    if MessageBits(a) == MessageBits(b) {
      MessageBitsInjective(a, b);
    }
    BurstBits(ToBits(crcStart, 16), MessageBits(a), MessageBits(b), start);
    CrcEqualIffRunEqual(a, b, crcStart, crcStart);
  }

  // ---- Parity. ----

  /** Whether an odd number of bits is set. */
  predicate Odd(bits: BitString) {
    bits != [] && bits[0] != Odd(bits[1..])
  }

  /** The number of positions where two strings differ. */
  function Distance(a: BitString, b: BitString): nat
    requires |a| == |b|
  {
    if a == [] then 0 else (if a[0] != b[0] then 1 else 0) + Distance(a[1..], b[1..])
  }

  lemma {:induction false} OddXor(a: BitString, b: BitString)
    requires |a| == |b|
    ensures Odd(Xor(a, b)) == (Odd(a) != Odd(b))
    ensures Odd(Xor(a, b)) <==> Distance(a, b) % 2 == 1
  {
    if a != [] {
      assert Xor(a, b)[1..] == Xor(a[1..], b[1..]);
      OddXor(a[1..], b[1..]);
    }
  }

  lemma {:induction false} OddConcat(a: BitString, b: BitString)
    ensures Odd(a + b) == (Odd(a) != Odd(b))
  {
    if a == [] {
      assert a + b == b;
    } else {
      assert (a + b)[1..] == a[1..] + b;
      OddConcat(a[1..], b);
    }
  }

  lemma PolyIsOdd()
    ensures Odd(POLY)
  {
    var a, b := POLY[..8], POLY[8..];
    assert POLY == a + b;
    assert a[1..] == [false, false, true, false, false, false, false];
    assert b[1..] == [false, true, false, false, false, false, true];
    OddConcat(a[..4], a[4..]);
    OddConcat(b[..4], b[4..]);
    assert a == a[..4] + a[4..] && b == b[..4] + b[4..];
    OddFour(a[..4]);
    OddFour(a[4..]);
    OddFour(b[..4]);
    OddFour(b[4..]);
    OddConcat(a, b);
  }

  lemma OddFour(a: BitString)
    requires |a| == 4
    ensures Odd(a) == ((a[0] != a[1]) != (a[2] != a[3]))
  {
    var b := a[1..];
    var c := b[1..];
    var d := c[1..];
    assert Odd(d) == (d[0] != Odd(d[1..])) == d[0];
    assert Odd(c) == (c[0] != Odd(d));
    assert Odd(b) == (b[0] != Odd(c));
  }

  lemma OddStep(r: Register, bit: bool)
    ensures Odd(Step(r, bit)) == (Odd(r) != bit)
  {
    var shifted := r[1..] + [false];
    OddConcat(r[1..], [false]);
    assert Odd([false]) == (false != Odd([false][1..])) == false;
    assert Odd(r) == (r[0] != Odd(r[1..]));
    assert Odd(shifted) == Odd(r[1..]);
    PolyIsOdd();
    OddXor(shifted, POLY);
  }

  /** The register's parity is the parity of everything fed into it. */
  lemma {:induction false} OddRun(r: Register, bits: BitString)
    ensures Odd(Run(r, bits)) == (Odd(r) != Odd(bits))
    decreases bits
  {
    if bits != [] {
      OddStep(r, bits[0]);
      OddRun(Step(r, bits[0]), bits[1..]);
    }
  }

  lemma OddDifference(r: Register, a: BitString, b: BitString)
    requires |a| == |b| && Distance(a, b) % 2 == 1
    ensures Run(r, a) != Run(r, b)
  {
    OddRun(r, a);
    OddRun(r, b);
    OddXor(a, b);
    assert Odd(Run(r, a)) != Odd(Run(r, b));
  }

  // ---- Two-bit errors. ----

  function Coefficients(r: Register): Residue {
    Residue(r[0], r[1], r[2], r[3], r[4], r[5], r[6], r[7], r[8], r[9], r[10], r[11], r[12], r[13], r[14], r[15])
  }

  lemma StepTimesX(r: Register)
    ensures Coefficients(Step(r, false)) == TimesX(Coefficients(r))
  {
  }

  lemma CoefficientsInjective(r: Register, s: Register)
    requires Coefficients(r) == Coefficients(s)
    ensures r == s
  {
  }

  lemma PolyCoefficients()
    ensures Coefficients(POLY) == Residue(O, O, O, I, O, O, O, O, O, O, I, O, O, O, O, I)
  {
  }

  lemma OneAlone()
    ensures Run(Zeros(16), [true] + Zeros(0)) == POLY
  {
    assert ([true] + Zeros(0))[1..] == [];
    assert Step(Zeros(16), true) == POLY;
  }

  lemma OneMoreZero(d: nat)
    requires d > 0
    ensures Run(Zeros(16), [true] + Zeros(d)) == Step(Run(Zeros(16), [true] + Zeros(d - 1)), false)
  {
    hide Step;
    var bits := [true] + Zeros(d);
    assert bits[..d] == [true] + Zeros(d - 1) && bits[..d + 1] == bits;
    RunSnoc(Zeros(16), bits, d);
  }

  // A single one at the front leaves x^16 in the register; d zeros later it is x^(16 + d).
  lemma {:induction false} RunOneThenZeros(d: nat, n: nat)
    requires Orbit(n) == Coefficients(POLY)
    ensures Coefficients(Run(Zeros(16), [true] + Zeros(d))) == Orbit(n + d)
    decreases d
  {
    hide *;
    if d == 0 {
      OneAlone();
    } else {
      RunOneThenZeros(d - 1, n);
      OneMoreZero(d);
      StepTimesX(Run(Zeros(16), [true] + Zeros(d - 1)));
      NextPower(n + d - 1);
    }
  }

  lemma ReturnsToPoly(d: nat)
    requires d > 0
    ensures Step(Run(Zeros(16), [true] + Zeros(d - 1)), false) == POLY <==> d % 32767 == 0
  {
    hide Orbit;
    hide TimesX;
    var n := Sixteen();
    PolyCoefficients();
    NextPower(n + d - 1);
    var r := Run(Zeros(16), [true] + Zeros(d - 1));
    RunOneThenZeros(d - 1, n);
    StepTimesX(r);
    SamePower(d, n);
    if Coefficients(Step(r, false)) == Coefficients(POLY) {
      CoefficientsInjective(Step(r, false), POLY);
    }
  }

  // The error pattern with ones at distance d, followed by a tail of zeros.
  lemma TwoBitPattern(d: nat, tail: nat)
    requires d > 0
    ensures Run(Zeros(16), [true] + Zeros(d - 1) + [true] + Zeros(tail)) == Zeros(16) <==> d % 32767 == 0
  {
    var one := [true] + Zeros(d - 1);
    var r := Run(Zeros(16), one);
    RunConcat(Zeros(16), one + [true], Zeros(tail));
    RunConcat(Zeros(16), one, [true]);
    var last := Step(r, true);
    assert [true][1..] == [];
    assert Run(r, [true]) == last;
    RunZeros(tail);
    if Run(last, Zeros(tail)) == Zeros(16) {
      RunInjective(last, Zeros(16), Zeros(tail));
    }
    StepXor(r, Zeros(16), false, true);
    assert Xor(r, Zeros(16)) == r && Step(Zeros(16), true) == POLY;
    XorCancels(Step(r, false), POLY);
    ReturnsToPoly(d);
  }

  lemma {:induction false} RunLeadingZeros(n: nat, bits: BitString)
    ensures Run(Zeros(16), Zeros(n) + bits) == Run(Zeros(16), bits)
  {
    RunConcat(Zeros(16), Zeros(n), bits);
    RunZeros(n);
  }

  /** Two messages that differ in exactly the bits i < j collide exactly when j - i is a
      multiple of 32767. */
  lemma TwoBitDifference(r: Register, a: BitString, b: BitString, i: nat, j: nat)
    requires |a| == |b| && i < j < |a|
    requires forall k :: 0 <= k < |a| ==> (a[k] != b[k] <==> k == i || k == j)
    ensures Run(r, a) == Run(r, b) <==> (j - i) % 32767 == 0
  {
    var core := [true] + Zeros(j - i - 1) + [true] + Zeros(|a| - j - 1);
    assert Xor(a, b) == Zeros(i) + core;
    CollisionIsZeroRun(r, a, b);
    RunLeadingZeros(i, core);
    TwoBitPattern(j - i, |a| - j - 1);
  }

  lemma {:induction false} NoDifference(a: BitString, b: BitString)
    requires |a| == |b| && Distance(a, b) == 0
    ensures a == b
  {
    if a != [] {
      NoDifference(a[1..], b[1..]);
      assert a == [a[0]] + a[1..] && b == [b[0]] + b[1..];
    }
  }

  lemma {:induction false} OneDifference(a: BitString, b: BitString) returns (i: nat)
    requires |a| == |b| && Distance(a, b) == 1
    ensures i < |a| && forall k :: 0 <= k < |a| ==> (a[k] != b[k] <==> k == i)
  {
    if a[0] != b[0] {
      NoDifference(a[1..], b[1..]);
      i := 0;
      assert a == [a[0]] + a[1..] && b == [b[0]] + b[1..];
    } else {
      var j := OneDifference(a[1..], b[1..]);
      i := j + 1;
      assert forall k :: 1 <= k < |a| ==> a[k] == a[1..][k - 1] && b[k] == b[1..][k - 1];
    }
  }

  lemma {:induction false} TwoDifferences(a: BitString, b: BitString) returns (i: nat, j: nat)
    requires |a| == |b| && Distance(a, b) == 2
    ensures i < j < |a| && forall k :: 0 <= k < |a| ==> (a[k] != b[k] <==> k == i || k == j)
  {
    if a[0] != b[0] {
      var m := OneDifference(a[1..], b[1..]);
      i, j := 0, m + 1;
    } else {
      var m, n := TwoDifferences(a[1..], b[1..]);
      i, j := m + 1, n + 1;
    }
    assert forall k :: 1 <= k < |a| ==> a[k] == a[1..][k - 1] && b[k] == b[1..][k - 1];
  }

  /** Up to the period of x, one, two or three flipped bits always change the register. */
  lemma FewBitsDetected(r: Register, a: BitString, b: BitString)
    requires |a| == |b| <= 32767 && 1 <= Distance(a, b) <= 3
    ensures Run(r, a) != Run(r, b)
  {
    hide Run;
    if Distance(a, b) == 2 {
      var i, j := TwoDifferences(a, b);
      assert 0 < j - i < 32767;
      TwoBitDifference(r, a, b, i, j);
    } else {
      OddDifference(r, a, b);
    }
  }

  /** Flipping the bits i < j of a message changes its checksum unless j - i is a multiple of
      32767. */
  lemma TwoBitErrors(a: seq<U8>, b: seq<U8>, start: U16, i: nat, j: nat)
    requires |a| == |b| && i < j < 8 * |a|
    requires forall k :: 0 <= k < 8 * |a| ==> (MessageBits(a)[k] != MessageBits(b)[k] <==> k == i || k == j)
    ensures Crc(a, start) == Crc(b, start) <==> (j - i) % 32767 == 0
  {
    hide Run;
    TwoBitDifference(ToBits(start, 16), MessageBits(a), MessageBits(b), i, j);
    CrcEqualIffRunEqual(a, b, start, start);
  }

  /** Every odd number of flipped bits changes the checksum, at any length. */
  lemma OddErrorsDetected(a: seq<U8>, b: seq<U8>, start: U16)
    requires |a| == |b| && Distance(MessageBits(a), MessageBits(b)) % 2 == 1
    ensures Crc(a, start) != Crc(b, start)
  {
    OddDifference(ToBits(start, 16), MessageBits(a), MessageBits(b));
    CrcEqualIffRunEqual(a, b, start, start);
  }

  /** One, two or three flipped bits anywhere in up to 4095 bytes change the checksum. */
  lemma FewErrorsDetected(a: seq<U8>, b: seq<U8>, start: U16)
    requires |a| == |b| <= 4095 && 1 <= Distance(MessageBits(a), MessageBits(b)) <= 3
    ensures Crc(a, start) != Crc(b, start)
  {
    FewBitsDetected(ToBits(start, 16), MessageBits(a), MessageBits(b));
    CrcEqualIffRunEqual(a, b, start, start);
  }

  lemma RunOne(bits: BitString)
    ensures Run(Zeros(16), [true] + bits) == Run(POLY, bits)
  {
    assert ([true] + bits)[1..] == bits;
    assert Step(Zeros(16), true) == POLY;
  }

  lemma GeneratorRunsToZero(tail: nat)
    ensures Run(Zeros(16), ([true] + POLY) + Zeros(tail)) == Zeros(16)
  {
    RunConcat(Zeros(16), [true] + POLY, Zeros(tail));
    RunOne(POLY);
    RunSelf(POLY);
    RunZeros(tail);
  }

  /** The generator's own pattern, four bits within seventeen, i bits into n. */
  function GeneratorPattern(n: nat, i: nat): (p: BitString)
    requires i + 17 <= n
    ensures |p| == n
  {
    Zeros(i) + (([true] + POLY) + Zeros(n - i - 17))
  }

  /** The limits are sharp: flipping the bits of that pattern goes unnoticed anywhere in any
      message. */
  lemma GeneratorPatternUndetected(r: Register, a: BitString, i: nat)
    requires i + 17 <= |a|
    ensures Run(r, Xor(a, GeneratorPattern(|a|, i))) == Run(r, a)
  {
    hide Run;
    var p := GeneratorPattern(|a|, i);
    assert Xor(Xor(a, p), a) == p;
    CollisionIsZeroRun(r, Xor(a, p), a);
    RunLeadingZeros(i, ([true] + POLY) + Zeros(|a| - i - 17));
    GeneratorRunsToZero(|a| - i - 17);
  }

  // After a one, the sixteen bits that clear the register are the generator's.
  lemma OneThenWord(w: Register, tail: nat)
    ensures Run(Zeros(16), ([true] + w) + Zeros(tail)) == Zeros(16) <==> w == POLY
  {
    RunConcat(Zeros(16), [true] + w, Zeros(tail));
    RunOne(w);
    RunToZero(POLY, w);
    RunZeros(tail);
    if Run(Run(POLY, w), Zeros(tail)) == Zeros(16) {
      RunInjective(Run(POLY, w), Zeros(16), Zeros(tail));
    }
  }

  // A difference that starts with a one and lies within seventeen bits.
  lemma SeventeenBits(d: BitString, start: nat) returns (w: Register)
    requires start + 17 <= |d| && d[start] && forall j :: 0 <= j < |d| && d[j] ==> start <= j < start + 17
    ensures d == Zeros(start) + (([true] + w) + Zeros(|d| - start - 17))
    ensures w == POLY <==> d == GeneratorPattern(|d|, start)
  {
    w := d[start + 1..start + 17];
    var p := GeneratorPattern(|d|, start);
    assert p[start + 1..start + 17] == POLY;
  }

  lemma NotThePattern(a: BitString, b: BitString, start: nat)
    requires |a| == |b| && start + 17 <= |a| && a[start] == b[start]
    ensures Xor(a, b) != GeneratorPattern(|a|, start)
  {
    assert Xor(a, b)[start] != GeneratorPattern(|a|, start)[start];
  }

  lemma PatternCollides(r: Register, a: BitString, b: BitString, start: nat)
    requires |a| == |b| && start + 17 <= |a| && a[start] != b[start]
    requires forall j :: 0 <= j < |a| && a[j] != b[j] ==> start <= j < start + 17
    ensures Run(r, a) == Run(r, b) <==> Xor(a, b) == GeneratorPattern(|a|, start)
  {
    hide Run;
    var d, tail := Xor(a, b), |a| - start - 17;
    CollisionIsZeroRun(r, a, b);
    var w := SeventeenBits(d, start);
    hide Xor;
    hide GeneratorPattern;
    var core := ([true] + w) + Zeros(tail);
    RunLeadingZeros(start, core);
    OneThenWord(w, tail);
  }

  /** It is the only such pattern: of all errors within seventeen consecutive bits, the one that
      goes unnoticed is the generator's. */
  lemma OnlyGeneratorPattern(r: Register, a: BitString, b: BitString, start: nat)
    requires |a| == |b| && a != b
    requires forall j :: 0 <= j < |a| && a[j] != b[j] ==> start <= j < start + 17
    ensures Run(r, a) == Run(r, b) <==> start + 17 <= |a| && Xor(a, b) == GeneratorPattern(|a|, start)
  {
    hide Run;
    hide Xor;
    hide GeneratorPattern;
    if start + 17 > |a| {
      BurstBits(r, a, b, start);
    } else if a[start] == b[start] {
      BurstBits(r, a, b, start + 1);
      NotThePattern(a, b, start);
    } else {
      PatternCollides(r, a, b, start);
    }
  }

  lemma {:induction false} ZeroBytes(n: nat)
    ensures MessageBits(seq<U8>(n, _ => 0)) == Zeros(8 * n)
  {
    if n > 0 {
      assert seq<U8>(n, _ => 0)[1..] == seq<U8>(n - 1, _ => 0);
      ZeroBytes(n - 1);
      ZeroBits(8);
    }
  }

  lemma EndBits()
    ensures MessageBits([0x80]) == [true] + Zeros(7) && MessageBits([0x01]) == Zeros(7) + [true]
  {
    OneByte(0x80);
    OneByte(0x01);
    ToBitsSplit(1, 0, 1, 7);
    ToBitsSplit(0, 1, 7, 1);
    ZeroBits(7);
    assert Pow2(7) == 128 && Pow2(1) == 2;
    assert ToBits(1, 1) == [true];
  }

  lemma FramedBits(high: U8, n: nat, low: U8)
    ensures MessageBits([high] + seq<U8>(n, _ => 0) + [low]) == MessageBits([high]) + Zeros(8 * n) + MessageBits([low])
  {
    MessageBitsConcat([high] + seq<U8>(n, _ => 0), [low]);
    MessageBitsConcat([high], seq<U8>(n, _ => 0));
    ZeroBytes(n);
  }

  // Zeros, and zeros but for the first and the last bit.
  lemma FlippedEnds(n: nat) returns (a: seq<U8>, b: seq<U8>)
    ensures a == [0] + seq<U8>(n, _ => 0) + [0] && b == [0x80] + seq<U8>(n, _ => 0) + [0x01]
    ensures |MessageBits(a)| == |MessageBits(b)| == 8 * n + 16
    ensures forall k :: 0 <= k < 8 * n + 16 ==> (MessageBits(a)[k] != MessageBits(b)[k] <==> k == 0 || k == 8 * n + 15)
  {
    a, b := [0] + seq<U8>(n, _ => 0) + [0], [0x80] + seq<U8>(n, _ => 0) + [0x01];
    FramedBits(0, n, 0);
    FramedBits(0x80, n, 0x01);
    EndBits();
    OneByte(0);
    ZeroBits(8);
    hide MessageBits;
    var middle := Zeros(8 * n);
    assert MessageBits(a) == Zeros(8) + middle + Zeros(8);
    assert MessageBits(b) == ([true] + Zeros(7)) + middle + (Zeros(7) + [true]);
  }

  lemma EndsCollide(n: nat, start: U16) returns (a: seq<U8>, b: seq<U8>)
    requires (8 * n + 15) % 32767 == 0
    ensures |a| == |b| == n + 2 && Crc(a, start) == Crc(b, start)
    ensures forall k :: 0 <= k < 8 * n + 16 ==> (MessageBits(a)[k] != MessageBits(b)[k] <==> k == 0 || k == 8 * n + 15)
  {
    a, b := FlippedEnds(n);
    hide *;
    TwoBitErrors(a, b, start, 0, 8 * n + 15);
  }

  /** With one byte more than FewErrorsDetected allows, two flipped bits can go unnoticed: the
      first and the last of 4096 bytes. */
  lemma FewErrorsLimit(start: U16) returns (a: seq<U8>, b: seq<U8>)
    ensures |a| == |b| == 4096 && Crc(a, start) == Crc(b, start)
    ensures forall k :: 0 <= k < 32768 ==> (MessageBits(a)[k] != MessageBits(b)[k] <==> k == 0 || k == 32767)
  {
    hide MessageBits;
    hide Crc;
    a, b := EndsCollide(4094, start);
  }
}
