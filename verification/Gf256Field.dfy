/** That the multiplication is the one of the field of 256 elements: a unit, commutative, and without zero divisors. */
module Gf256Field {
  import opened Bits
  import opened Gf256

  function Bit(a: Gf, mask: Gf, b: Gf): Gf {
    if a & mask == 0 then 0 else b
  }

  /** Four of the multiples of b that the bits of `a` select, and a rest. */
  function Four(a: Gf, m0: Gf, m1: Gf, m2: Gf, m3: Gf, b0: Gf, b1: Gf, b2: Gf, b3: Gf, rest: Gf): Gf {
    Add(Bit(a, m0, b0), Add(Bit(a, m1, b1), Add(Bit(a, m2, b2), Add(Bit(a, m3, b3), rest))))
  }

  /** The sum of the multiples of b that the bits of `a` select: b, xb, x^2 b and so on. */
  function Selected(a: Gf, b0: Gf, b1: Gf, b2: Gf, b3: Gf, b4: Gf, b5: Gf, b6: Gf, b7: Gf): Gf {
    Four(a, 1, 2, 4, 8, b0, b1, b2, b3, Four(a, 16, 32, 64, 128, b4, b5, b6, b7, 0))
  }

  ghost predicate Multiples(b0: Gf, b1: Gf, b2: Gf, b3: Gf, b4: Gf, b5: Gf, b6: Gf, b7: Gf) {
    && b1 == TimesX(b0) && b2 == TimesX(b1) && b3 == TimesX(b2) && b4 == TimesX(b3)
    && b5 == TimesX(b4) && b6 == TimesX(b5) && b7 == TimesX(b6)
  }

  /** One bit of the multiplication; `mask` says which bit of `a` has been shifted to the end. */
  lemma Peel(n: nat, a: Gf, mask: Gf, s: Gf, b: Gf)
    requires s & 1 == 1 <==> a & mask != 0
    ensures MulSteps(n + 1, s, b) == Add(Bit(a, mask, b), MulSteps(n, s >> 1, TimesX(b)))
  {
  }

  lemma LowBits(a: Gf)
    ensures (a & 1 == 1 <==> a & 1 != 0) && ((a >> 1) & 1 == 1 <==> a & 2 != 0)
    ensures ((a >> 1 >> 1) & 1 == 1 <==> a & 4 != 0) && ((a >> 1 >> 1 >> 1) & 1 == 1 <==> a & 8 != 0)
  {
  }

  lemma HighBits(a: Gf, s: Gf)
    requires s == a >> 1 >> 1 >> 1 >> 1
    ensures (s & 1 == 1 <==> a & 16 != 0) && ((s >> 1) & 1 == 1 <==> a & 32 != 0)
    ensures ((s >> 1 >> 1) & 1 == 1 <==> a & 64 != 0) && ((s >> 1 >> 1 >> 1) & 1 == 1 <==> a & 128 != 0)
  {
  }

  lemma PeelFour(n: nat, a: Gf, m0: Gf, m1: Gf, m2: Gf, m3: Gf, s: Gf, b0: Gf, b1: Gf, b2: Gf, b3: Gf)
    requires b1 == TimesX(b0) && b2 == TimesX(b1) && b3 == TimesX(b2)
    requires (s & 1 == 1 <==> a & m0 != 0) && ((s >> 1) & 1 == 1 <==> a & m1 != 0)
    requires ((s >> 1 >> 1) & 1 == 1 <==> a & m2 != 0) && ((s >> 1 >> 1 >> 1) & 1 == 1 <==> a & m3 != 0)
    ensures MulSteps(n + 4, s, b0)
         == Four(a, m0, m1, m2, m3, b0, b1, b2, b3, MulSteps(n, s >> 1 >> 1 >> 1 >> 1, TimesX(b3)))
  {
    Peel(n, a, m3, s >> 1 >> 1 >> 1, b3);
    Peel(n + 1, a, m2, s >> 1 >> 1, b2);
    Peel(n + 2, a, m1, s >> 1, b1);
    Peel(n + 3, a, m0, s, b0);
  }

  lemma LowFour(a: Gf, b0: Gf, b1: Gf, b2: Gf, b3: Gf)
    requires b1 == TimesX(b0) && b2 == TimesX(b1) && b3 == TimesX(b2)
    ensures Mul(a, b0) == Four(a, 1, 2, 4, 8, b0, b1, b2, b3, MulSteps(4, a >> 1 >> 1 >> 1 >> 1, TimesX(b3)))
  {
    LowBits(a);
    PeelFour(4, a, 1, 2, 4, 8, a, b0, b1, b2, b3);
  }

  /** `n` is 0: the four highest bits leave nothing. */
  lemma HighFour(n: nat, a: Gf, s: Gf, b4: Gf, b5: Gf, b6: Gf, b7: Gf)
    requires n == 0 && s == a >> 1 >> 1 >> 1 >> 1 && b5 == TimesX(b4) && b6 == TimesX(b5) && b7 == TimesX(b6)
    ensures MulSteps(n + 4, s, b4) == Four(a, 16, 32, 64, 128, b4, b5, b6, b7, 0)
  {
    HighBits(a, s);
    PeelFour(n, a, 16, 32, 64, 128, s, b4, b5, b6, b7);
  }

  lemma MulSelects(a: Gf, b0: Gf, b1: Gf, b2: Gf, b3: Gf, b4: Gf, b5: Gf, b6: Gf, b7: Gf)
    requires Multiples(b0, b1, b2, b3, b4, b5, b6, b7)
    ensures Mul(a, b0) == Selected(a, b0, b1, b2, b3, b4, b5, b6, b7)
  {
    LowFour(a, b0, b1, b2, b3);
    HighFour(0, a, a >> 1 >> 1 >> 1 >> 1, b4, b5, b6, b7);
  }

  /** `b` and its multiples by the powers of x. */
  lemma MulOf(a: Gf, b: Gf) returns (b1: Gf, b2: Gf, b3: Gf, b4: Gf, b5: Gf, b6: Gf, b7: Gf)
    ensures Multiples(b, b1, b2, b3, b4, b5, b6, b7) && Mul(a, b) == Selected(a, b, b1, b2, b3, b4, b5, b6, b7)
  {
    b1 := TimesX(b);
    b2 := TimesX(b1);
    b3 := TimesX(b2);
    b4 := TimesX(b3);
    b5 := TimesX(b4);
    b6 := TimesX(b5);
    b7 := TimesX(b6);
    MulSelects(a, b, b1, b2, b3, b4, b5, b6, b7);
  }

  lemma UnitLeft(b: Gf)
    ensures Mul(1, b) == b
  {
    var b1, b2, b3, b4, b5, b6, b7 := MulOf(1, b);
  }

  lemma UnitRight(a: Gf)
    ensures Mul(a, 1) == a
  {
    MulSelects(a, 1, 2, 4, 8, 16, 32, 64, 128);
  }

  /** Multiplication commutes, because multiplications commute with each other and there is a unit. */
  lemma MulCommutes(a: Gf, b: Gf)
    ensures Mul(a, b) == Mul(b, a)
  {
    UnitRight(a);
    UnitRight(b);
    MulsCommute(8, a, 8, b, 1);
  }

  lemma MulAssociates(a: Gf, b: Gf, c: Gf)
    ensures Mul(a, Mul(b, c)) == Mul(Mul(a, b), c)
  {
    MulCommutes(b, c);
    MulsCommute(8, a, 8, c, b);
    MulCommutes(c, Mul(a, b));
  }

  lemma MulDistributes(a: Gf, b: Gf, c: Gf)
    ensures Mul(a, Add(b, c)) == Add(Mul(a, b), Mul(a, c))
  {
    MulAdds(8, a, b, c);
  }

  lemma TimesXInjective(a: Gf)
    requires TimesX(a) == 0
    ensures a == 0
  {
  }

  /** Neither factor is a multiple of x, and the reduction polynomial is irreducible. */
  lemma OddSelected(a: Gf, b0: Gf, b1: Gf, b2: Gf, b3: Gf, b4: Gf, b5: Gf, b6: Gf, b7: Gf)
    requires a & 1 == 1 && b0 & 1 == 1 && Multiples(b0, b1, b2, b3, b4, b5, b6, b7)
    ensures Selected(a, b0, b1, b2, b3, b4, b5, b6, b7) != 0
  {
  }

  lemma OddProduct(a: Gf, b: Gf)
    requires a & 1 == 1 && b & 1 == 1
    ensures Mul(a, b) != 0
  {
    var b1, b2, b3, b4, b5, b6, b7 := MulOf(a, b);
    OddSelected(a, b, b1, b2, b3, b4, b5, b6, b7);
  }

  lemma Halve(b: Gf)
    requires b & 1 == 0
    ensures TimesX(b >> 1) == b && (b != 0 ==> b >> 1 != 0 && b >> 1 < b)
  {
  }

  lemma HalfProduct(a: Gf, b: Gf)
    requires b & 1 == 0 && Mul(a, b) == 0
    ensures Mul(a, b >> 1) == 0
  {
    Halve(b);
    MulTimesX(8, a, b >> 1);
    TimesXInjective(Mul(a, b >> 1));
  }

  lemma {:induction false} OddDivides(a: Gf, b: Gf)
    requires a & 1 == 1 && Mul(a, b) == 0
    ensures b == 0
    decreases b
  {
    if b & 1 == 1 {
      OddProduct(a, b);
    } else if b != 0 {
      Halve(b);
      HalfProduct(a, b);
      OddDivides(a, b >> 1);
    }
  }

  /** No zero divisors: the product is zero exactly when a factor is. */
  lemma {:induction false} ProductZeroIff(a: Gf, b: Gf)
    ensures Mul(a, b) == 0 <==> a == 0 || b == 0
    decreases a
  {
    MulZero(8, a);
    MulZero(8, b);
    MulCommutes(a, b);
    if a != 0 && Mul(a, b) == 0 {
      if a & 1 == 1 {
        OddDivides(a, b);
      } else {
        Halve(a);
        HalfProduct(b, a);
        MulCommutes(a >> 1, b);
        ProductZeroIff(a >> 1, b);
      }
    }
  }

  /** The reduction polynomial, and one product of each kind. */
  lemma KnownProducts()
    ensures Mul(2, 0x80) == 0x1D && Mul(3, 7) == 9 && Mul(2, 0x8E) == 1
  {
  }
}
