/** Which two-bit errors slip through: the order of x modulo the generator is exactly 32767. */
module CrcOrder {
  import opened Exponents

  /** A polynomial of degree below 16, as its coefficients. */
  datatype Residue = Residue(
    c15: bool, c14: bool, c13: bool, c12: bool, c11: bool, c10: bool, c9: bool, c8: bool,
    c7: bool, c6: bool, c5: bool, c4: bool, c3: bool, c2: bool, c1: bool, c0: bool)

  const I := true
  const O := false
  const ONE := Residue(O, O, O, O, O, O, O, O, O, O, O, O, O, O, O, I)

  /** x * p modulo the generator. */
  function TimesX(p: Residue): Residue {
    Residue(p.c14, p.c13, p.c12, p.c11 != p.c15, p.c10, p.c9, p.c8, p.c7,
            p.c6, p.c5, p.c4 != p.c15, p.c3, p.c2, p.c1, p.c0, p.c15)
  }

  /** p * p modulo the generator; squaring is linear over GF(2). */
  function Square(p: Residue): Residue {
    Residue(p.c13,
            (p.c13 != p.c11) != (p.c9 != p.c7),
            p.c12,
            (p.c12 != p.c10) != (p.c8 != p.c6),
            (p.c15 != p.c13) != p.c11,
            (p.c15 != p.c13) != p.c5,
            (p.c14 != p.c12) != p.c10,
            (p.c15 != p.c14) != (p.c12 != p.c4),
            (p.c15 != p.c13) != (p.c11 != p.c9),
            ((p.c15 != p.c14) != (p.c13 != p.c11)) != p.c3,
            (p.c14 != p.c12) != (p.c10 != p.c8),
            (p.c14 != p.c12) != (p.c10 != p.c2),
            p.c15,
            ((p.c15 != p.c13) != (p.c11 != p.c9)) != p.c1,
            p.c14,
            ((p.c14 != p.c12) != (p.c10 != p.c8)) != p.c0)
  }

  /** x^n modulo the generator. */
  function Orbit(n: nat): Residue {
    if n == 0 then ONE else TimesX(Orbit(n - 1))
  }

  // Coefficient by coefficient, in groups: one query for all sixteen is too much.
  lemma SquareTimesXA(p: Residue)
    ensures var l, r := Square(TimesX(p)), TimesX(TimesX(Square(p)));
      l.c0 == r.c0 && l.c2 == r.c2 && l.c4 == r.c4
  {
  }

  lemma SquareTimesXB(p: Residue)
    ensures var l, r := Square(TimesX(p)), TimesX(TimesX(Square(p)));
      l.c1 == r.c1 && l.c3 == r.c3 && l.c5 == r.c5
  {
  }

  lemma SquareTimesXC(p: Residue)
    ensures var l, r := Square(TimesX(p)), TimesX(TimesX(Square(p)));
      l.c6 == r.c6 && l.c8 == r.c8 && l.c10 == r.c10
  {
  }

  lemma SquareTimesXD(p: Residue)
    ensures var l, r := Square(TimesX(p)), TimesX(TimesX(Square(p)));
      l.c7 == r.c7 && l.c9 == r.c9 && l.c11 == r.c11
  {
  }

  lemma SquareTimesXE(p: Residue)
    ensures var l, r := Square(TimesX(p)), TimesX(TimesX(Square(p)));
      l.c12 == r.c12 && l.c14 == r.c14
  {
  }

  lemma SquareTimesXF(p: Residue)
    ensures var l, r := Square(TimesX(p)), TimesX(TimesX(Square(p)));
      l.c13 == r.c13 && l.c15 == r.c15
  {
  }

  lemma SquareTimesX(p: Residue)
    ensures Square(TimesX(p)) == TimesX(TimesX(Square(p)))
  {
    SquareTimesXA(p);
    SquareTimesXB(p);
    SquareTimesXC(p);
    SquareTimesXD(p);
    SquareTimesXE(p);
    SquareTimesXF(p);
  }

  lemma {:induction false} OrbitDouble(n: nat)
    ensures Orbit(2 * n) == Square(Orbit(n))
  {
    if n > 0 {
      OrbitDouble(n - 1);
      SquareTimesX(Orbit(n - 1));
      assert Orbit(2 * n) == TimesX(Orbit(2 * n - 1));
    }
  }

  lemma Double(n: nat, q: Residue) returns (m: nat)
    requires Square(Orbit(n)) == q
    ensures m == 2 * n && Orbit(m) == q
  {
    OrbitDouble(n);
    m := 2 * n;
  }

  lemma DoublePlusOne(n: nat, q: Residue) returns (m: nat)
    requires TimesX(Square(Orbit(n))) == q
    ensures m == 2 * n + 1 && Orbit(m) == q
  {
    OrbitDouble(n);
    m := 2 * n + 1;
  }

  lemma First() returns (n: nat)
    ensures n == 1 && Orbit(n) == Residue(O, O, O, O, O, O, O, O, O, O, O, O, O, O, I, O)
  {
    n := 1;
    assert Orbit(0) == ONE;
  }

  // Repeated squaring, with every intermediate residue written out.

  lemma Period() returns (n: nat)
    ensures n == 32767 && Orbit(n) == ONE
  {
    n := First();
    hide Orbit;
    n := DoublePlusOne(n, Residue(O, O, O, O, O, O, O, O, O, O, O, O, I, O, O, O));
    n := DoublePlusOne(n, Residue(O, O, O, O, O, O, O, O, I, O, O, O, O, O, O, O));
    n := DoublePlusOne(n, Residue(I, O, O, O, O, O, O, O, O, O, O, O, O, O, O, O));
    n := DoublePlusOne(n, Residue(O, O, O, I, I, O, I, I, I, O, O, I, I, O, O, O));
    n := DoublePlusOne(n, Residue(I, I, O, I, O, I, O, O, O, O, I, O, O, O, O, O));
    n := DoublePlusOne(n, Residue(O, I, O, I, O, I, I, I, O, I, I, I, I, I, I, O));
    n := DoublePlusOne(n, Residue(I, I, O, O, I, I, I, I, O, O, O, O, O, I, O, O));
    n := DoublePlusOne(n, Residue(O, O, O, O, I, O, O, I, I, I, I, I, I, I, I, O));
    n := DoublePlusOne(n, Residue(O, O, O, I, I, O, I, I, O, I, I, O, O, O, I, O));
    n := DoublePlusOne(n, Residue(O, I, I, I, I, I, I, O, I, O, I, O, I, O, O, O));
    n := DoublePlusOne(n, Residue(O, I, O, I, O, I, O, I, O, I, O, O, I, I, I, I));
    n := DoublePlusOne(n, Residue(O, I, O, O, O, I, O, O, O, O, O, O, I, I, I, O));
    n := DoublePlusOne(n, Residue(O, O, I, O, O, O, I, O, O, O, I, O, I, I, O, O));
    n := DoublePlusOne(n, Residue(O, O, O, O, O, O, O, O, O, O, O, O, O, O, O, I));
  }

  lemma Seventh() returns (n: nat)
    ensures n == 4681 && Orbit(n) != ONE
  {
    n := First();
    hide Orbit;
    n := Double(n, Residue(O, O, O, O, O, O, O, O, O, O, O, O, O, I, O, O));
    n := Double(n, Residue(O, O, O, O, O, O, O, O, O, O, O, I, O, O, O, O));
    n := DoublePlusOne(n, Residue(O, O, O, O, O, O, I, O, O, O, O, O, O, O, O, O));
    n := Double(n, Residue(O, I, O, O, O, O, O, O, I, O, O, O, O, I, O, O));
    n := Double(n, Residue(O, I, O, O, O, O, I, I, O, I, I, O, O, O, I, I));
    n := DoublePlusOne(n, Residue(I, O, O, O, I, I, I, I, I, O, I, O, O, I, I, O));
    n := Double(n, Residue(O, I, O, O, O, O, I, I, I, O, O, O, I, O, O, O));
    n := Double(n, Residue(O, O, O, I, O, O, I, I, I, O, O, I, O, I, I, O));
    n := DoublePlusOne(n, Residue(O, I, O, O, O, I, O, I, O, O, O, O, O, O, O, O));
    n := Double(n, Residue(O, O, O, O, O, O, O, I, O, I, I, O, O, O, I, I));
    n := Double(n, Residue(O, O, O, O, O, I, O, O, O, O, I, O, O, I, O, O));
    n := DoublePlusOne(n, Residue(O, O, I, O, I, I, O, O, O, I, O, O, O, O, I, O));
  }

  lemma ThirtyFirst() returns (n: nat)
    ensures n == 1057 && Orbit(n) != ONE
  {
    n := First();
    hide Orbit;
    n := Double(n, Residue(O, O, O, O, O, O, O, O, O, O, O, O, O, I, O, O));
    n := Double(n, Residue(O, O, O, O, O, O, O, O, O, O, O, I, O, O, O, O));
    n := Double(n, Residue(O, O, O, O, O, O, O, I, O, O, O, O, O, O, O, O));
    n := Double(n, Residue(O, O, O, I, O, O, O, O, O, O, I, O, O, O, O, I));
    n := DoublePlusOne(n, Residue(O, I, I, O, I, I, I, O, O, I, I, O, O, O, O, O));
    n := Double(n, Residue(I, I, O, O, O, O, O, I, I, I, O, O, O, I, I, O));
    n := Double(n, Residue(O, I, O, O, I, I, I, O, I, O, O, O, I, O, I, O));
    n := Double(n, Residue(O, I, O, I, I, O, O, I, O, I, O, O, O, I, I, O));
    n := Double(n, Residue(O, I, I, I, I, O, O, O, I, O, I, I, O, O, I, I));
    n := DoublePlusOne(n, Residue(I, I, I, I, O, O, I, O, I, O, I, O, I, I, I, I));
  }

  lemma HundredFiftyFirst() returns (n: nat)
    ensures n == 217 && Orbit(n) != ONE
  {
    n := First();
    hide Orbit;
    n := DoublePlusOne(n, Residue(O, O, O, O, O, O, O, O, O, O, O, O, I, O, O, O));
    n := Double(n, Residue(O, O, O, O, O, O, O, O, O, I, O, O, O, O, O, O));
    n := DoublePlusOne(n, Residue(O, O, I, O, O, O, O, O, O, O, O, O, O, O, O, O));
    n := DoublePlusOne(n, Residue(I, O, O, O, I, O, O, I, I, O, I, O, I, O, O, I));
    n := Double(n, Residue(O, O, O, I, O, O, O, I, O, I, I, O, I, O, O, O));
    n := Double(n, Residue(O, O, I, I, O, I, I, I, O, I, O, I, O, O, O, O));
    n := DoublePlusOne(n, Residue(O, I, O, O, I, O, O, O, I, I, I, O, O, O, I, I));
  }

  lemma Sixteen() returns (n: nat)
    ensures n == 16 && Orbit(n) == Residue(O, O, O, I, O, O, O, O, O, O, I, O, O, O, O, I)
  {
    n := First();
    hide Orbit;
    n := Double(n, Residue(O, O, O, O, O, O, O, O, O, O, O, O, O, I, O, O));
    n := Double(n, Residue(O, O, O, O, O, O, O, O, O, O, O, I, O, O, O, O));
    n := Double(n, Residue(O, O, O, O, O, O, O, I, O, O, O, O, O, O, O, O));
    n := Double(n, Residue(O, O, O, I, O, O, O, O, O, O, I, O, O, O, O, I));
  }

  lemma TimesXInjective(p: Residue, q: Residue)
    requires TimesX(p) == TimesX(q)
    ensures p == q
  {
  }

  lemma {:induction false} OrbitCancel(a: nat, b: nat)
    requires Orbit(a + b) == Orbit(b)
    ensures Orbit(a) == ONE
    decreases b
  {
    if b > 0 {
      TimesXInjective(Orbit(a + b - 1), Orbit(b - 1));
      OrbitCancel(a, b - 1);
    }
  }

  lemma {:induction false} OrbitShift(a: nat, b: nat)
    requires Orbit(a) == ONE
    ensures Orbit(a + b) == Orbit(b)
    decreases b
  {
    if b > 0 {
      OrbitShift(a, b - 1);
    }
  }

  lemma NextPower(n: nat)
    ensures Orbit(n + 1) == TimesX(Orbit(n))
  {
  }

  // The exponents where the powers of x are 1.
  lemma OnesSet() returns (f: nat -> bool)
    ensures Periodic(f) && forall n: nat :: f(n) <==> Orbit(n) == ONE
  {
    f := (n: nat) => Orbit(n) == ONE;
    assert Orbit(0) == ONE;
    hide Orbit;
    forall a: nat, b: nat
      ensures Shifts(f, a, b)
    {
      if Orbit(a) == ONE {
        OrbitShift(a, b);
      }
    }
  }

  /** The powers of x come back to 1 exactly at the multiples of 32767. */
  lemma OrderOfX(n: nat)
    ensures Orbit(n) == ONE <==> n % 32767 == 0
  {
    hide Orbit;
    var f := OnesSet();
    var period := Period();
    var a := Seventh();
    var b := ThirtyFirst();
    var c := HundredFiftyFirst();
    OrderIs32767(f, period, a, b, c, n);
  }

  /** Two powers of x agree exactly when their exponents differ by a multiple of 32767. */
  lemma SamePower(d: nat, n: nat)
    ensures Orbit(d + n) == Orbit(n) <==> d % 32767 == 0
  {
    hide Orbit;
    OrderOfX(d);
    if Orbit(d + n) == Orbit(n) {
      OrbitCancel(d, n);
    }
    if Orbit(d) == ONE {
      OrbitShift(d, n);
    }
  }
}
