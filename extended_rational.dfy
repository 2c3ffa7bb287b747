/** The extended rationals of `src/main.rs`: an exact rational or the symbol
    Infinity, with structural equality, a total order in which Infinity is
    the unique maximum, the `numer`/`denom` accessors (Infinity reads as
    1/0) and the Farey mediant. The arbitrary-precision `Rational` of the
    source is a reduced integer pair with a positive denominator. */
module ExtendedRationals {
  import opened NumberTheory
  import opened Wrappers

  /** An integer pair read as n/d. */
  datatype Fraction = Fraction(n: int, d: int)

  /** Lowest terms with a positive denominator, the canonical form every
      `Rational` value is kept in. */
  predicate IsReduced(f: Fraction) {
    f.d > 0 && Gcd(Abs(f.n), f.d) == 1
  }

  type Rational = f: Fraction | IsReduced(f) witness Fraction(0, 1)

  const Zero: Rational := Fraction(0, 1)
  const One: Rational := Fraction(1, 1)

  datatype ExtendedRational = R(r: Rational) | Infinity

  datatype Ordering = Less | Equal | Greater

  /** The number a rational stands for. */
  ghost function Value(r: Rational): real {
    r.n as real / r.d as real
  }

  /** Two fractions with positive denominators that are equal as numbers. */
  predicate SameValue(f: Fraction, g: Fraction) {
    f.n * g.d == g.n * f.d
  }

  /** Cross-multiplied comparison of fractions with positive denominators. */
  predicate Below(f: Fraction, g: Fraction) {
    f.n * g.d < g.n * f.d
  }

  // ---------------------------------------------------------------------
  // Reduced form

  lemma AbsMul(a: int, b: nat)
    ensures Abs(a * b) == Abs(a) * b
  {
    if a < 0 {
      assert a * b == -(Abs(a) * b);
    }
  }

  lemma ReduceFacts(x: int, y: int)
    requires y > 0
    ensures Gcd(Abs(x), y) > 0
    ensures IsReduced(Fraction(x / Gcd(Abs(x), y), y / Gcd(Abs(x), y)))
    ensures SameValue(Fraction(x / Gcd(Abs(x), y), y / Gcd(Abs(x), y)), Fraction(x, y))
  {
    var g := Gcd(Abs(x), y);
    GcdPositive(Abs(x), y);
    GcdDivides(Abs(x), y);
    DividesAbs(g, x);
    var m1 := DivideOut(x, g);
    var m2 := DivideOut(y, g);
    ReducedQuotient(x, y, g, m1, m2);
  }

  /** Dividing x and y by their gcd leaves a reduced fraction of the same
      value. */
  lemma ReducedQuotient(x: int, y: int, g: nat, m1: int, m2: int)
    requires y > 0 && g > 0 && g == Gcd(Abs(x), y) && x == g * m1 && y == g * m2
    ensures IsReduced(Fraction(m1, m2))
    ensures SameValue(Fraction(m1, m2), Fraction(x, y))
  {
    MulSign(g, m2);
    AbsMul(m1, g);
    assert Abs(x) == g * Abs(m1) by { assert m1 * g == g * m1; }
    GcdScale(Abs(m1), m2, g);
    MulCancel(g, Gcd(Abs(m1), m2), 1);
    ScaledCross(x, y, g, m1, m2);
  }

  /** `Rational::from((x, y))`: the fraction x/y in lowest terms. */
  function Reduce(x: int, y: int): (r: Rational)
    requires y > 0
    ensures SameValue(r, Fraction(x, y))
  {
    ReduceFacts(x, y);
    var g := Gcd(Abs(x), y);
    Fraction(x / g, y / g)
  }

  /** Two reduced fractions of equal value are the same pair. */
  lemma SameValueIsEqual(x: Rational, y: Rational)
    requires SameValue(x, y)
    ensures x == y
  {
    AbsMul(x.n, y.d);
    AbsMul(y.n, x.d);
    assert Abs(x.n) * y.d == Abs(y.n) * x.d;
    DenominatorDivides(x, y);
    DenominatorDivides(y, x);
    assert x.d == y.d;
    MulCancel(x.d, x.n, y.n);
  }

  /** By Euclid's lemma, when |x.n|/x.d and |y.n|/y.d are equal, the
      denominator of the reduced x divides y.d and so is at most y.d. */
  lemma DenominatorDivides(x: Rational, y: Rational)
    requires Abs(x.n) * y.d == Abs(y.n) * x.d
    ensures x.d <= y.d
  {
    GcdSymmetric(Abs(x.n), x.d);
    assert Divides(x.d, Abs(x.n) * y.d) by {
      assert Abs(x.n) * y.d == x.d * Abs(y.n);
    }
    EuclidLemma(x.d, Abs(x.n), y.d);
    DivisorBound(x.d, y.d);
  }

  /** The reduced form of x/y is the only rational of that value. */
  lemma ReduceUnique(x: int, y: int, r: Rational)
    requires y > 0 && SameValue(r, Fraction(x, y))
    ensures Reduce(x, y) == r
  {
    var s := Reduce(x, y);
    CrossCancel(s.n, s.d, r.n, r.d, x, y);
    SameValueIsEqual(s, r);
  }

  /** Comparison with a fraction depends only on its value. */
  lemma BelowRespectsValue(l: Fraction, f: Fraction, g: Fraction)
    requires l.d > 0 && f.d > 0 && g.d > 0 && SameValue(f, g)
    ensures Below(l, f) <==> Below(l, g)
    ensures Below(f, l) <==> Below(g, l)
  {
    CrossShift(l.n, l.d, f.n, f.d, g.n, g.d);
    SameSign(f.n * l.d - l.n * f.d, g.n * l.d - l.n * g.d, g.d, f.d);
  }

  // ---------------------------------------------------------------------
  // numer, denom

  /** `numer`: Infinity reads as numerator 1. */
  function Numer(x: ExtendedRational): int {
    match x
    case R(r) => r.n
    case Infinity => 1
  }

  /** `denom`: Infinity reads as denominator 0. */
  function Denom(x: ExtendedRational): nat {
    match x
    case R(r) => r.d
    case Infinity => 0
  }

  /** Infinity is read as 1/0, it is the only value with denominator 0, and
      a finite value is read as its own reduced fraction. */
  lemma InfinityIsOneOverZero(x: ExtendedRational)
    ensures Denom(x) == 0 <==> x == Infinity
    ensures x == Infinity ==> Numer(x) == 1
    ensures x.R? ==> Fraction(Numer(x), Denom(x)) == x.r && IsReduced(Fraction(Numer(x), Denom(x)))
  {
  }

  // ---------------------------------------------------------------------
  // PartialEq, PartialOrd, Ord

  /** `PartialEq::eq`: Infinity equals only itself, rationals compare their
      reduced forms. */
  function Eq(x: ExtendedRational, y: ExtendedRational): (b: bool)
    ensures b <==> x == y
  {
    match (x, y)
    case (Infinity, Infinity) => true
    case (R(l), R(r)) => l == r
    case _ => false
  }

  /** Equality of finite values is equality of the numbers they stand for. */
  lemma EqualIsValueEquality(x: Rational, y: Rational)
    ensures Eq(R(x), R(y)) <==> Value(x) == Value(y)
  {
    QuotientOrder(x.n, x.d, y.n, y.d);
    if Value(x) == Value(y) {
      SameValueIsEqual(x, y);
    }
  }

  /** `Rational::partial_cmp` of two rationals: cross-multiplied, which is
      comparing the numbers they stand for (`CompareRationalsByValue`). */
  function CompareRationals(l: Rational, r: Rational): (o: Ordering)
    ensures o == Less <==> Below(l, r)
    ensures o == Greater <==> Below(r, l)
    ensures o == Equal <==> l == r
  {
    if Below(l, r) then Less
    else if Below(r, l) then Greater
    else
      SameValueIsEqual(l, r);
      Equal
  }

  /** Rationals compare by the numbers they stand for. */
  lemma CompareRationalsByValue(l: Rational, r: Rational)
    ensures CompareRationals(l, r) == Less <==> Value(l) < Value(r)
    ensures CompareRationals(l, r) == Greater <==> Value(l) > Value(r)
    ensures CompareRationals(l, r) == Equal <==> Value(l) == Value(r)
  {
    ValueOrder(l, r);
    EqualIsValueEquality(l, r);
  }

  lemma ValueOrder(l: Rational, r: Rational)
    ensures Below(l, r) <==> Value(l) < Value(r)
    ensures Below(r, l) <==> Value(r) < Value(l)
  {
    QuotientOrder(l.n, l.d, r.n, r.d);
    QuotientOrder(r.n, r.d, l.n, l.d);
  }

  /** `PartialOrd::partial_cmp`; it never returns None. */
  function PartialCompare(x: ExtendedRational, y: ExtendedRational): (o: Option<Ordering>)
    ensures o.Some?
  {
    match (x, y)
    case (Infinity, Infinity) => Some(Equal)
    case (Infinity, R(_)) => Some(Greater)
    case (R(_), Infinity) => Some(Less)
    case (R(l), R(r)) => Some(CompareRationals(l, r))
  }

  /** `Ord::cmp`: the unwrapped `partial_cmp`. */
  function Compare(x: ExtendedRational, y: ExtendedRational): Ordering {
    PartialCompare(x, y).value
  }

  /** The `<` operator of `PartialOrd`. */
  predicate Lt(x: ExtendedRational, y: ExtendedRational) {
    PartialCompare(x, y) == Some(Less)
  }

  /** `cmp` agrees with `eq`. */
  lemma CompareEqualIffEqual(x: ExtendedRational, y: ExtendedRational)
    ensures Compare(x, y) == Equal <==> Eq(x, y)
  {
  }

  /** `cmp` is antisymmetric: swapping the operands flips the answer. */
  lemma CompareAntisymmetric(x: ExtendedRational, y: ExtendedRational)
    ensures Compare(x, y) == Less <==> Compare(y, x) == Greater
    ensures Compare(x, y) == Equal <==> Compare(y, x) == Equal
  {
  }

  /** `<` is transitive. */
  lemma LtTransitive(x: ExtendedRational, y: ExtendedRational, z: ExtendedRational)
    requires Lt(x, y) && Lt(y, z)
    ensures Lt(x, z)
  {
    if z.R? {
      CompareRationalsByValue(x.r, y.r);
      CompareRationalsByValue(y.r, z.r);
      CompareRationalsByValue(x.r, z.r);
    }
  }

  /** The order is total: exactly one of x < y, x == y, y < x holds. */
  lemma CompareTotal(x: ExtendedRational, y: ExtendedRational)
    ensures Lt(x, y) || x == y || Lt(y, x)
    ensures !(Lt(x, y) && Lt(y, x)) && !(Lt(x, y) && x == y)
  {
  }

  /** Infinity is the unique maximum. */
  lemma InfinityIsMaximum(x: ExtendedRational)
    ensures !Lt(Infinity, x)
    ensures x != Infinity <==> Lt(x, Infinity)
  {
  }

  // ---------------------------------------------------------------------
  // mediant

  /** `mediant`: add the numerators and add the denominators (Infinity read
      as 1/0); a zero denominator sum gives Infinity, otherwise the sum
      fraction in lowest terms. */
  function Mediant(x: ExtendedRational, y: ExtendedRational): (m: ExtendedRational)
    ensures m == Infinity <==> Denom(x) + Denom(y) == 0
    ensures m.R? ==> SameValue(m.r, Fraction(Numer(x) + Numer(y), Denom(x) + Denom(y)))
  {
    var n := Numer(x) + Numer(y);
    var d := Denom(x) + Denom(y);
    if d == 0 then Infinity else R(Reduce(n, d))
  }

  /** The denominator sum is zero only for two infinite operands. */
  lemma MediantInfinite(x: ExtendedRational, y: ExtendedRational)
    ensures Mediant(x, y) == Infinity <==> x == Infinity && y == Infinity
  {
  }

  /** The mediant of a finite value x < y lies strictly between them. */
  lemma MediantStrictlyBetween(x: ExtendedRational, y: ExtendedRational)
    requires Lt(x, y)
    ensures Lt(x, Mediant(x, y)) && Lt(Mediant(x, y), y)
  {
    var m := Mediant(x, y);
    var l := x.r;
    var f := Fraction(Numer(x) + Numer(y), Denom(x) + Denom(y));
    if y == Infinity {
      assert Numer(x) * Denom(y) < Numer(y) * Denom(x);
      MediantCross(l.n, l.d, 1, 0);
      BelowRespectsValue(l, f, m.r);
    } else {
      var h := y.r;
      assert Below(l, h);
      MediantCross(l.n, l.d, h.n, h.d);
      BelowRespectsValue(l, f, m.r);
      BelowRespectsValue(h, f, m.r);
    }
  }

  /** Stern-Brocot neighbours: `hi.n * lo.d - lo.n * hi.d == 1`. */
  predicate Neighbours(lo: ExtendedRational, hi: ExtendedRational) {
    Numer(hi) * Denom(lo) - Numer(lo) * Denom(hi) == 1
  }

  /** Neighbours are ordered, and the lower one is finite. */
  lemma NeighboursOrdered(lo: ExtendedRational, hi: ExtendedRational)
    requires Neighbours(lo, hi)
    ensures lo.R? && Lt(lo, hi)
  {
  }

  /** The mediant of neighbours needs no reduction: its numerator and
      denominator are the plain sums, and it is a neighbour of both. */
  lemma MediantOfNeighbours(lo: ExtendedRational, hi: ExtendedRational)
    requires Neighbours(lo, hi)
    ensures Mediant(lo, hi).R?
    ensures Numer(Mediant(lo, hi)) == Numer(lo) + Numer(hi)
    ensures Denom(Mediant(lo, hi)) == Denom(lo) + Denom(hi)
    ensures Neighbours(lo, Mediant(lo, hi)) && Neighbours(Mediant(lo, hi), hi)
  {
    NeighboursOrdered(lo, hi);
    var n := Numer(lo) + Numer(hi);
    var d := Denom(lo) + Denom(hi);
    assert d > 0;
    MediantNeighbourArith(Numer(lo), Denom(lo), Numer(hi), Denom(hi));
    UnitCombinationCoprime(n, d, Denom(lo), -Numer(lo));
    var f: Rational := Fraction(n, d);
    ReduceUnique(n, d, f);
  }

  /** For neighbours lo < hi the mediant lies strictly between them. */
  lemma NeighbourMediantBetween(lo: ExtendedRational, hi: ExtendedRational)
    requires Neighbours(lo, hi)
    ensures Lt(lo, Mediant(lo, hi)) && Lt(Mediant(lo, hi), hi)
  {
    MediantOfNeighbours(lo, hi);
    NeighboursOrdered(lo, Mediant(lo, hi));
    NeighboursOrdered(Mediant(lo, hi), hi);
  }
}
