/** Sets of exponents that are closed under the shifts of a cyclic group: which numbers can
    be in such a set when 32767 is and its three largest proper divisors are not. */
module Exponents {

  ghost predicate Shifts(f: nat -> bool, a: nat, b: nat) {
    f(a) ==> f(a + b) == f(b)
  }

  /** f holds at 0, and adding a member changes nothing. */
  ghost predicate Periodic(f: nat -> bool) {
    f(0) && forall a: nat, b: nat :: Shifts(f, a, b)
  }

  lemma {:induction false} Cycles(f: nat -> bool, g: nat, k: nat, n: nat)
    requires Periodic(f) && f(g)
    ensures f(k * g + n) == f(n)
    decreases k
  {
    if k > 0 {
      assert k * g + n == g + ((k - 1) * g + n);
      assert Shifts(f, g, (k - 1) * g + n);
      Cycles(f, g, k - 1, n);
    }
  }

  lemma ModMember(f: nat -> bool, g: nat, n: nat)
    requires Periodic(f) && g > 0 && f(g)
    ensures f(n) == f(n % g)
  {
    assert n == (n / g) * g + n % g;
    Cycles(f, g, n / g, n % g);
  }

  ghost predicate Divides(g: nat, n: nat) {
    exists k: nat :: n == k * g
  }

  lemma DividesSum(g: nat, q: nat, b: nat, r: nat)
    requires Divides(g, b) && Divides(g, r)
    ensures Divides(g, q * b + r)
  {
    var m: nat :| b == m * g;
    var k: nat :| r == k * g;
    SumOfMultiples(g, q, m, k);
  }

  lemma SumOfMultiples(g: nat, q: nat, m: nat, k: nat)
    ensures q * (m * g) + k * g == (q * m + k) * g
  {
  }

  // Euclid's algorithm stays inside the set.
  lemma {:induction false} CommonDivisor(f: nat -> bool, a: nat, b: nat) returns (g: nat)
    requires Periodic(f) && a > 0 && f(a) && f(b)
    ensures g > 0 && f(g) && Divides(g, a) && Divides(g, b)
    decreases b
  {
    if b == 0 {
      g := a;
      assert a == 1 * g && b == 0 * g;
    } else {
      ModMember(f, b, a);
      g := CommonDivisor(f, b, a % b);
      DividesSum(g, a / b, b, a % b);
      assert a == (a / b) * b + a % b;
    }
  }

  ghost predicate Prime(p: nat) {
    p > 1 && forall g: nat :: Divides(g, p) ==> g == 1 || g == p
  }

  lemma SmallPrime(p: nat)
    requires p == 7 || p == 31 || p == 151
    ensures Prime(p)
  {
    forall g: nat | Divides(g, p)
      ensures g == 1 || g == p
    {
      var j: nat :| p == j * g;
      assert g <= 12 || j <= 12;
    }
  }

  // Euclid's lemma: the numbers m with p | m * k form a periodic set that contains p.
  lemma PrimeDividesProduct(p: nat, m: nat, k: nat)
    requires Prime(p) && Divides(p, m * k)
    ensures Divides(p, m) || Divides(p, k)
  {
    var f := (n: nat) => Divides(p, n * k);
    forall a: nat, b: nat
      ensures Shifts(f, a, b)
    {
      DividesShift(p, a, b, k);
    }
    assert 0 * k == 0 * p && p * k == k * p;
    var g := CommonDivisor(f, p, m);
    assert g == 1 ==> Divides(p, 1 * k);
  }

  // Adding a multiple changes nothing.
  lemma DividesMore(p: nat, m: nat, n: nat)
    requires p > 0 && Divides(p, m)
    ensures Divides(p, m + n) == Divides(p, n)
  {
    var i: nat :| m == i * p;
    if Divides(p, n) {
      var j: nat :| n == j * p;
      AddMultiples(p, i, j);
    }
    if Divides(p, m + n) {
      var j: nat :| m + n == j * p;
      if j < i {
        AddMultiples(p, j, i - j);
        PositiveMultiple(p, i - j);
      } else {
        AddMultiples(p, i, j - i);
      }
    }
  }

  lemma AddMultiples(p: nat, i: nat, j: nat)
    ensures (i + j) * p == i * p + j * p
  {
  }

  lemma PositiveMultiple(p: nat, i: nat)
    requires p > 0 && i > 0
    ensures i * p > 0
  {
  }

  lemma DividesShift(p: nat, a: nat, b: nat, k: nat)
    requires p > 1
    ensures Divides(p, a * k) ==> Divides(p, (a + b) * k) == Divides(p, b * k)
  {
    assert (a + b) * k == a * k + b * k;
    hide Divides;
    if Divides(p, a * k) {
      DividesMore(p, a * k, b * k);
    }
  }

  // 32767 = 7 * 31 * 151: a proper divisor misses one of the three primes.
  lemma ProperDivisor(g: nat, k: nat)
    requires k > 1 && 32767 == k * g
    ensures Divides(g, 4681) || Divides(g, 1057) || Divides(g, 217)
  {
    SmallPrime(7);
    SmallPrime(31);
    SmallPrime(151);
    assert k * g == 4681 * 7;
    PrimeDividesProduct(7, k, g);
    if Divides(7, k) {
      var a: nat :| k == a * 7;
      assert a * g == 4681;
    } else {
      var h: nat :| g == h * 7;
      assert k * h == 151 * 31;
      PrimeDividesProduct(31, k, h);
      if Divides(31, k) {
        var a: nat :| k == a * 31;
        assert a * g == 1057;
      } else {
        var i: nat :| h == i * 31;
        assert i * k == 151;
        assert Divides(k, 151);
        assert i == 1 && 217 == 1 * g;
      }
    }
  }

  lemma DivisorIsSmaller(g: nat, r: nat)
    requires Divides(g, r) && r > 0
    ensures 0 < g <= r
  {
    var j: nat :| r == j * g;
    if j >= 2 {
      assert j * g == g + (j - 1) * g;
    }
  }

  lemma MultipleMember(f: nat -> bool, g: nat, n: nat)
    requires Periodic(f) && f(g) && Divides(g, n)
    ensures f(n)
  {
    var k: nat :| n == k * g;
    Cycles(f, g, k, 0);
  }

  /** If 32767 is in the set but none of 32767/7, 32767/31 and 32767/151 is, then the set is
      the multiples of 32767. */
  lemma OrderIs32767(f: nat -> bool, period: nat, a: nat, b: nat, c: nat, n: nat)
    requires Periodic(f)
    requires period == 32767 && a == 4681 && b == 1057 && c == 217
    requires f(period) && !f(a) && !f(b) && !f(c)
    ensures f(n) <==> n % period == 0
  {
    var r := n % period;
    ModMember(f, period, n);
    if f(r) && r > 0 {
      var g := CommonDivisor(f, period, r);
      DivisorIsSmaller(g, r);
      var k: nat :| period == k * g;
      ProperDivisor(g, k);
      if Divides(g, a) {
        MultipleMember(f, g, a);
      } else if Divides(g, b) {
        MultipleMember(f, g, b);
      } else {
        MultipleMember(f, g, c);
      }
    }
  }
}
