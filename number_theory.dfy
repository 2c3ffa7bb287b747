/** Divisibility and greatest common divisors over the integers: the facts the
    exact rationals need (reduced form is unique, a fraction divided by its
    gcd is reduced). The arbitrary-precision integers of the source are
    modelled by Dafny's unbounded `int`. */
module NumberTheory {

  function Abs(x: int): (r: nat)
    ensures r == x || r == -x
  {
    if x < 0 then -x else x
  }

  /** `k` divides `a`. */
  ghost predicate Divides(k: int, a: int) {
    exists m :: a == k * m
  }

  /** Greatest common divisor by Euclid's subtractive algorithm. */
  function Gcd(a: nat, b: nat): nat
    decreases a + b
  {
    if a == 0 then b
    else if b == 0 then a
    else if a >= b then Gcd(a - b, b)
    else Gcd(a, b - a)
  }

  lemma DividesDifference(k: int, a: int, b: int)
    requires Divides(k, a) && Divides(k, b)
    ensures Divides(k, a - b) && Divides(k, a + b)
  {
    var m1 :| a == k * m1;
    var m2 :| b == k * m2;
    assert a - b == k * (m1 - m2);
    assert a + b == k * (m1 + m2);
  }

  lemma DividesAbs(k: int, a: int)
    ensures Divides(k, a) <==> Divides(k, Abs(a))
  {
    if Divides(k, a) {
      var m :| a == k * m;
      assert Abs(a) == k * (if a < 0 then -m else m);
    }
    if Divides(k, Abs(a)) {
      var m :| Abs(a) == k * m;
      assert a == k * (if a < 0 then -m else m);
    }
  }

  /** The sign of a product with a positive factor. */
  lemma MulSign(k: int, e: int)
    requires k > 0
    ensures e >= 1 ==> k * e >= k
    ensures e <= -1 ==> k * e <= -k
    ensures e == 0 ==> k * e == 0
  {
    if e >= 1 {
      assert k * e == k + k * (e - 1);
    } else if e <= -1 {
      assert k * e == -k + k * (e + 1);
    }
  }

  /** A non-positive number times a positive one is non-positive. */
  lemma NonPositiveProduct(x: int, y: int)
    requires x <= 0 && y > 0
    ensures x * y <= 0
  {
    MulSign(y, x);
    assert x * y == y * x;
  }

  /** A positive divisor of a positive number is no larger than it. */
  lemma DivisorBound(k: int, a: int)
    requires k > 0 && a > 0 && Divides(k, a)
    ensures k <= a
  {
    var m :| a == k * m;
    MulSign(k, m);
  }

  /** Exact division: if `a == k * m` then `a / k == m`. */
  lemma ExactDivision(a: int, k: int, m: int)
    requires k > 0 && a == k * m
    ensures a / k == m
  {
    var q, r := a / k, a % k;
    assert a == k * q + r && 0 <= r < k;
    assert k * (m - q) == r;
    MulSign(k, m - q);
  }

  /** The exact quotient of a by a divisor k. */
  lemma DivideOut(a: int, k: int) returns (m: int)
    requires k > 0 && Divides(k, a)
    ensures a == k * m && a / k == m
  {
    m :| a == k * m;
    ExactDivision(a, k, m);
  }

  /** The gcd divides both arguments. */
  lemma {:induction false} GcdDivides(a: nat, b: nat)
    ensures Divides(Gcd(a, b), a) && Divides(Gcd(a, b), b)
    decreases a + b
  {
    var g := Gcd(a, b);
    if a == 0 {
      assert a == g * 0 && b == g * 1;
    } else if b == 0 {
      assert a == g * 1 && b == g * 0;
    } else if a >= b {
      GcdDivides(a - b, b);
      DividesDifference(g, a - b, b);
      assert (a - b) + b == a;
    } else {
      GcdDivides(a, b - a);
      DividesDifference(g, b - a, a);
      assert (b - a) + a == b;
    }
  }

  /** Every common divisor divides the gcd. */
  lemma {:induction false} GcdGreatest(a: nat, b: nat, k: int)
    requires Divides(k, a) && Divides(k, b)
    ensures Divides(k, Gcd(a, b))
    decreases a + b
  {
    if a == 0 || b == 0 {
    } else if a >= b {
      DividesDifference(k, a, b);
      GcdGreatest(a - b, b, k);
    } else {
      DividesDifference(k, b, a);
      GcdGreatest(a, b - a, k);
    }
  }

  lemma {:induction false} GcdPositive(a: nat, b: nat)
    requires a > 0 || b > 0
    ensures Gcd(a, b) > 0
    decreases a + b
  {
    if a == 0 || b == 0 {
    } else if a >= b {
      GcdPositive(a - b, b);
    } else {
      GcdPositive(a, b - a);
    }
  }

  lemma {:induction false} GcdSymmetric(a: nat, b: nat)
    ensures Gcd(a, b) == Gcd(b, a)
    decreases a + b
  {
    if a == 0 || b == 0 {
    } else if a > b {
      GcdSymmetric(a - b, b);
    } else if a < b {
      GcdSymmetric(a, b - a);
    }
  }

  /** Scaling both arguments scales the gcd. */
  lemma {:induction false} GcdScale(a: nat, b: nat, k: nat)
    ensures Gcd(k * a, k * b) == k * Gcd(a, b)
    decreases a + b
  {
    if k == 0 {
    } else if a == 0 {
      assert k * a == 0;
    } else if b == 0 {
      assert k * b == 0;
    } else if a >= b {
      assert k * a >= k * b > 0 by {
        assert k * a - k * b == k * (a - b);
      }
      assert k * a - k * b == k * (a - b);
      GcdScale(a - b, b, k);
    } else {
      assert k * b > k * a > 0 by {
        assert k * b - k * a == k * (b - a);
      }
      assert k * b - k * a == k * (b - a);
      GcdScale(a, b - a, k);
    }
  }

  /** Euclid's lemma: a number coprime to `b` that divides `b * c` divides `c`. */
  lemma EuclidLemma(a: nat, b: nat, c: nat)
    requires a > 0 && Gcd(a, b) == 1 && Divides(a, b * c)
    ensures Divides(a, c)
  {
    var m :| b * c == a * m;
    EuclidWitness(a, b, c, m);
  }

  lemma EuclidWitness(a: nat, b: nat, c: nat, m: int)
    requires a > 0 && Gcd(a, b) == 1 && b * c == a * m
    ensures Divides(a, c)
  {
    var x, y := c * a, c * b;
    GcdScale(a, b, c);
    assert Gcd(x, y) == c * 1;
    assert y == a * m;
    CommonDivisorOfGcd(x, y, a, m, c);
  }

  /** `GcdGreatest` with its witnesses given, away from the products. */
  lemma CommonDivisorOfGcd(x: nat, y: nat, a: int, m: int, g: nat)
    requires y == a * m && Gcd(x, y) == g * 1 && x == g * a
    ensures Divides(a, g)
  {
    assert x == a * g;
    assert Divides(a, x) && Divides(a, y);
    GcdGreatest(x, y, a);
  }

  lemma DividesCombination(k: int, x: int, y: int, s: int, t: int)
    requires Divides(k, x) && Divides(k, y)
    ensures Divides(k, s * x + t * y)
  {
    var m1 :| x == k * m1;
    var m2 :| y == k * m2;
    assert s * x == k * (s * m1);
    assert t * y == k * (t * m2);
    assert s * x + t * y == k * (s * m1 + t * m2);
  }

  /** A pair with a linear combination equal to 1 is coprime. */
  lemma UnitCombinationCoprime(x: int, y: nat, s: int, t: int)
    requires s * x + t * y == 1
    ensures Gcd(Abs(x), y) == 1
  {
    var g := Gcd(Abs(x), y);
    GcdDivides(Abs(x), y);
    DividesAbs(g, x);
    DividesCombination(g, x, y, s, t);
    assert Abs(x) > 0 || y > 0;
    GcdPositive(Abs(x), y);
    DivisorBound(g, 1);
  }

  // ---------------------------------------------------------------------
  // Ring facts kept in lemmas of their own, so that each is proved in a
  // small context.

  lemma IntDistributive(a: int, b: int, c: int)
    ensures a * (b + c) == a * b + a * c
    ensures (b + c) * a == b * a + c * a
  {
  }

  lemma MulCancel(g: int, a: int, b: int)
    requires g > 0 && g * a == g * b
    ensures a == b
  {
    MulSign(g, a - b);
    assert g * (a - b) == g * a - g * b;
  }

  /** Signs agree across an equation with positive factors. */
  lemma SameSign(p: int, q: int, a: int, b: int)
    requires a > 0 && b > 0 && p * a == q * b
    ensures (p > 0 <==> q > 0) && (p < 0 <==> q < 0)
  {
    MulSign(a, p);
    MulSign(b, q);
    assert p * a == a * p && q * b == b * q;
  }

  /** Dividing x/y by a common factor g keeps the cross products equal. */
  lemma ScaledCross(x: int, y: int, g: int, m1: int, m2: int)
    requires x == g * m1 && y == g * m2
    ensures m1 * y == x * m2
  {
    assert m1 * (g * m2) == (g * m1) * m2;
  }

  /** Two fractions equal to a third are equal to each other. */
  lemma CrossCancel(sn: int, sd: int, rn: int, rd: int, x: int, y: int)
    requires y > 0 && sn * y == x * sd && rn * y == x * rd
    ensures sn * rd == rn * sd
  {
    assert (sn * rd) * y == (sn * y) * rd;
    assert (rn * sd) * y == (rn * y) * sd;
    MulCancel(y, sn * rd, rn * sd);
  }

  /** Comparing l with two equal fractions f, g: the differences of cross
      products are proportional. */
  lemma CrossShift(ln: int, ld: int, fn: int, fd: int, gn: int, gd: int)
    requires fn * gd == gn * fd
    ensures (fn * ld - ln * fd) * gd == (gn * ld - ln * gd) * fd
  {
    assert (fn * ld) * gd == (fn * gd) * ld;
    assert (gn * ld) * fd == (gn * fd) * ld;
  }

  /** The mediant fraction of l < h lies strictly between them. */
  lemma MediantCross(ln: int, ld: int, hn: int, hd: int)
    requires ln * hd < hn * ld
    ensures ln * (ld + hd) < (ln + hn) * ld
    ensures (ln + hn) * hd < hn * (ld + hd)
  {
    assert ln * (ld + hd) == ln * ld + ln * hd;
    assert (ln + hn) * ld == ln * ld + hn * ld;
    assert (ln + hn) * hd == ln * hd + hn * hd;
    assert hn * (ld + hd) == hn * ld + hn * hd;
  }

  /** For Stern-Brocot neighbours l, h the mediant is a neighbour of both,
      and its parts have the linear combination (ld, -ln) equal to 1. */
  lemma MediantNeighbourArith(ln: int, ld: int, hn: int, hd: int)
    requires hn * ld - ln * hd == 1
    ensures ld * (ln + hn) + (-ln) * (ld + hd) == 1
    ensures (ln + hn) * ld - ln * (ld + hd) == 1
    ensures hn * (ld + hd) - (ln + hn) * hd == 1
  {
    assert ld * (ln + hn) == ld * ln + ld * hn;
    assert (-ln) * (ld + hd) == -(ln * ld) - ln * hd;
    assert (ln + hn) * ld == ln * ld + hn * ld;
    assert ln * (ld + hd) == ln * ld + ln * hd;
    assert hn * (ld + hd) == hn * ld + hn * hd;
    assert (ln + hn) * hd == ln * hd + hn * hd;
  }

  /** Comparing real quotients with positive denominators is comparing
      cross products. */
  lemma QuotientOrder(a: int, b: int, c: int, d: int)
    requires b > 0 && d > 0
    ensures a as real / b as real < c as real / d as real <==> a * d < c * b
    ensures a as real / b as real == c as real / d as real <==> a * d == c * b
  {
    var ra, rb, rc, rd := a as real, b as real, c as real, d as real;
    var u, v := ra / rb, rc / rd;
    assert u * rb == ra;
    assert v * rd == rc;
    assert (u - v) * (rb * rd) == ra * rd - rc * rb;
    assert (a * d) as real == ra * rd;
    assert (c * b) as real == rc * rb;
  }
}
