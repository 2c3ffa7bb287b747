/** Gaussian integers a + b·i: the exact commutative ring that stands in for
    the arbitrary-precision complex numbers of the source's matrix entries. */
module Gaussian {
  import opened NumberTheory

  datatype Gauss = G(re: int, im: int)

  const Zero: Gauss := G(0, 0)
  const One: Gauss := G(1, 0)

  function Plus(x: Gauss, y: Gauss): Gauss {
    G(x.re + y.re, x.im + y.im)
  }

  function Negate(x: Gauss): Gauss {
    G(-x.re, -x.im)
  }

  function Minus(x: Gauss, y: Gauss): Gauss {
    G(x.re - y.re, x.im - y.im)
  }

  function Times(x: Gauss, y: Gauss): Gauss {
    G(x.re * y.re - x.im * y.im, x.re * y.im + x.im * y.re)
  }

  lemma TimesCommutative(x: Gauss, y: Gauss)
    ensures Times(x, y) == Times(y, x)
  {
  }

  lemma TimesAssociative(x: Gauss, y: Gauss, z: Gauss)
    ensures Times(Times(x, y), z) == Times(x, Times(y, z))
  {
  }

  lemma TimesOne(x: Gauss)
    ensures Times(x, One) == x && Times(One, x) == x
    ensures Times(x, Zero) == Zero && Times(Zero, x) == Zero
  {
  }

  lemma Distributive(x: Gauss, y: Gauss, z: Gauss)
    ensures Times(x, Plus(y, z)) == Plus(Times(x, y), Times(x, z))
    ensures Times(Plus(x, y), z) == Plus(Times(x, z), Times(y, z))
  {
    IntDistributive(x.re, y.re, z.re);
    IntDistributive(x.im, y.im, z.im);
    IntDistributive(x.re, y.im, z.im);
    IntDistributive(x.im, y.re, z.re);
    IntDistributive(z.re, x.re, y.re);
    IntDistributive(z.im, x.im, y.im);
    IntDistributive(z.im, x.re, y.re);
    IntDistributive(z.re, x.im, y.im);
  }

  lemma MinusDistributive(x: Gauss, y: Gauss, z: Gauss)
    ensures Times(x, Minus(y, z)) == Minus(Times(x, y), Times(x, z))
    ensures Times(Minus(x, y), z) == Minus(Times(x, z), Times(y, z))
  {
    IntDistributive(x.re, y.re, -z.re);
    IntDistributive(x.im, y.im, -z.im);
    IntDistributive(x.re, y.im, -z.im);
    IntDistributive(x.im, y.re, -z.re);
    IntDistributive(z.re, x.re, -y.re);
    IntDistributive(z.im, x.im, -y.im);
    IntDistributive(z.im, x.re, -y.re);
    IntDistributive(z.re, x.im, -y.im);
  }

  lemma TimesNegate(x: Gauss, y: Gauss)
    ensures Times(x, Negate(y)) == Negate(Times(x, y))
  {
  }

  /** x(yz) = y(xz). */
  lemma TimesExchange(x: Gauss, y: Gauss, z: Gauss)
    ensures Times(x, Times(y, z)) == Times(y, Times(x, z))
  {
    TimesAssociative(x, y, z);
    TimesAssociative(y, x, z);
    TimesCommutative(x, y);
  }

  /** (pq)(rs) = (pr)(qs). */
  lemma MiddleSwap(p: Gauss, q: Gauss, r: Gauss, s: Gauss)
    ensures Times(Times(p, q), Times(r, s)) == Times(Times(p, r), Times(q, s))
  {
    TimesAssociative(p, q, Times(r, s));
    TimesExchange(q, r, s);
    TimesAssociative(p, r, Times(q, s));
  }

  /** The units of order dividing 2: x² = 1 exactly for x = ±1. */
  lemma UnitSquare(x: Gauss)
    ensures Times(x, x) == One <==> x == One || x == Negate(One)
  {
    if Times(x, x) == One {
      UnitSquareParts(x.re, x.im);
    }
  }

  lemma UnitSquareParts(p: int, q: int)
    requires p * p - q * q == 1 && p * q + q * p == 0
    ensures q == 0 && (p == 1 || p == -1)
  {
    SquareFacts(p);
    SquareFacts(q);
    ZeroProduct(p, q);
  }

  lemma ZeroProduct(p: int, q: int)
    ensures p * q + q * p == 0 ==> p == 0 || q == 0
  {
  }

  lemma SquareFacts(p: int)
    ensures p * p >= 0
    ensures p * p == 1 ==> p == 1 || p == -1
    ensures p == 0 ==> p * p == 0
  {
  }
}
