/** `stern_brocot_word` of `src/main.rs`: an exact binary search for a
    target q down the Stern-Brocot tree, starting from the bounds 0/1 and
    1/0, that carries a "matrix" beside each bound and replaces one of them
    by the product `low_m * high_m` at every step.

    The matrix type is a type parameter `T` with its multiplication passed
    in as `mul`, so the same search can be run over the 2×2 matrices of
    `Matrices` and over the free monoid of words (module `Words`), where it
    makes the word built by the search observable.

    The specification is `Descend`: Euclid's subtractive algorithm run on
    the coordinates of q relative to the current bounds. With bounds lo < hi
    that are Stern-Brocot neighbours, q = n/d is the image of (n', d') =
    (n·lo.d − d·lo.n, hi.n·d − hi.d·n) under [[hi.n, lo.n], [hi.d, lo.d]],
    and comparing q with the mediant is comparing n' with d'. */
module SternBrocot {
  import opened NumberTheory
  import opened ExtendedRationals

  /** The targets for which the search stops: Infinity and the positive
      rationals. For q <= 0 the loop never ends (`NonPositiveTargetNeverStops`). */
  predicate IsPositive(q: ExtendedRational) {
    q == Infinity || q.r.n > 0
  }

  /** Euclid's subtractive algorithm on relative coordinates (n, d): while
      n > d the target lies right of the mediant, while n < d left of it,
      and n == d is the mediant itself. */
  function Descend<T>(n: int, d: int, lowM: T, highM: T, mul: (T, T) -> T): T
    requires n > 0 && d > 0
    decreases n + d
  {
    if n > d then Descend(n - d, d, mul(lowM, highM), highM, mul)
    else if n < d then Descend(n, d - n, lowM, mul(lowM, highM), mul)
    else mul(lowM, highM)
  }

  /** What `stern_brocot_word(q, a, b)` returns: b for Infinity, a for 1,
      and otherwise the result of the descent from the bounds 0/1 and 1/0,
      where the relative coordinates of q = n/d are (n, d) themselves. */
  function Located<T>(q: ExtendedRational, a: T, b: T, mul: (T, T) -> T): T
    requires IsPositive(q)
  {
    match q
    case Infinity => b
    case R(x) => if x == One then a else Descend(x.n, x.d, a, b, mul)
  }

  /** n' = n·lo.d − d·lo.n, positive exactly when lo < q. */
  function RelLow(q: Rational, lo: ExtendedRational): int {
    q.n * Denom(lo) - q.d * Numer(lo)
  }

  /** d' = hi.n·d − hi.d·n, positive exactly when q < hi. */
  function RelHigh(q: Rational, hi: ExtendedRational): int {
    Numer(hi) * q.d - Denom(hi) * q.n
  }

  /** The relative coordinates decide the order against q. */
  lemma RelativeCoordinatesOrder(q: Rational, x: ExtendedRational)
    ensures Lt(x, R(q)) <==> RelLow(q, x) > 0
    ensures Lt(R(q), x) <==> RelHigh(q, x) > 0
  {
    match x
    case Infinity =>
      assert RelLow(q, x) == -q.d;
      assert RelHigh(q, x) == q.d;
    case R(l) =>
      assert Lt(x, R(q)) <==> Below(l, q);
      assert Lt(R(q), x) <==> Below(q, l);
      assert q.d * l.n == l.n * q.d;
      assert l.d * q.n == q.n * l.d;
  }

  /** Moving to the mediant of neighbours lo, hi: its coordinates are
      n' − d' (as a lower bound) and d' − n' (as an upper bound). */
  lemma MediantCoordinates(q: Rational, lo: ExtendedRational, hi: ExtendedRational)
    requires Neighbours(lo, hi)
    ensures RelLow(q, Mediant(lo, hi)) == RelLow(q, lo) - RelHigh(q, hi)
    ensures RelHigh(q, Mediant(lo, hi)) == RelHigh(q, hi) - RelLow(q, lo)
  {
    MediantOfNeighbours(lo, hi);
    var ln, ld, hn, hd := Numer(lo), Denom(lo), Numer(hi), Denom(hi);
    IntDistributive(q.n, ld, hd);
    IntDistributive(q.d, ln, hn);
  }

  /** `stern_brocot_word`. The loop keeps low < q < high with low, high
      Stern-Brocot neighbours, and keeps the result of the remaining descent
      equal to the final answer; the sum of the relative coordinates
      decreases at every step. */
  method SternBrocotWord<T>(q: ExtendedRational, a: T, b: T, mul: (T, T) -> T) returns (r: T)
    requires IsPositive(q)
    ensures r == Located(q, a, b, mul)
  {
    match q {
      case Infinity => return b;
      case R(x) => if x == One { return a; }
    }
    var low := R(Zero);
    var lowM := a;
    var high := Infinity;
    var highM := b;
    while true
      invariant Neighbours(low, high)
      invariant Lt(low, q) && Lt(q, high)
      invariant RelLow(q.r, low) > 0 && RelHigh(q.r, high) > 0
      invariant Descend(RelLow(q.r, low), RelHigh(q.r, high), lowM, highM, mul) == Located(q, a, b, mul)
      decreases RelLow(q.r, low) + RelHigh(q.r, high)
    {
      var med := Mediant(low, high);
      MediantOfNeighbours(low, high);
      MediantCoordinates(q.r, low, high);
      RelativeCoordinatesOrder(q.r, med);
      if Lt(med, q) {
        // q is in (med, high)
        low := med;
        lowM := mul(lowM, highM);
      } else if Lt(q, med) {
        // q is in (low, med)
        high := med;
        highM := mul(lowM, highM);
      } else {
        return mul(lowM, highM);
      }
      RelativeCoordinatesOrder(q.r, low);
      RelativeCoordinatesOrder(q.r, high);
    }
  }

  /** The two immediate returns: Infinity gives b and 1 gives a unchanged,
      where the descent alone would have given a * b for 1. */
  lemma ImmediateReturns<T>(a: T, b: T, mul: (T, T) -> T)
    ensures Located(Infinity, a, b, mul) == b
    ensures Located(R(One), a, b, mul) == a
    ensures Descend(One.n, One.d, a, b, mul) == mul(a, b)
  {
  }

  /** Each branch of the loop replaces exactly one bound by the mediant
      and keeps the invariant: the new pair is again a pair of neighbours
      around q, and the relative coordinates follow Euclid's subtraction. */
  lemma StepKeepsBounds(q: Rational, lo: ExtendedRational, hi: ExtendedRational)
    requires Neighbours(lo, hi) && Lt(lo, R(q)) && Lt(R(q), hi)
    ensures var med := Mediant(lo, hi);
      (Lt(med, R(q)) ==> Neighbours(med, hi) && Lt(med, R(q)) && Lt(R(q), hi)
                         && RelLow(q, med) == RelLow(q, lo) - RelHigh(q, hi) && RelHigh(q, hi) > 0) &&
      (Lt(R(q), med) ==> Neighbours(lo, med) && Lt(lo, R(q)) && Lt(R(q), med)
                         && RelHigh(q, med) == RelHigh(q, hi) - RelLow(q, lo) && RelLow(q, lo) > 0) &&
      (!Lt(med, R(q)) && !Lt(R(q), med) <==> med == R(q))
  {
    var med := Mediant(lo, hi);
    MediantOfNeighbours(lo, hi);
    MediantCoordinates(q, lo, hi);
    RelativeCoordinatesOrder(q, lo);
    RelativeCoordinatesOrder(q, hi);
    RelativeCoordinatesOrder(q, med);
    CompareTotal(med, R(q));
    CompareTotal(R(q), R(q));
  }

  /** For a target q <= 0 the loop never stops: the first state has
      low = 0/1 and its upper neighbour 1/0, and from every state with
      low = 0/1 and an upper neighbour of it the mediant is above q, so the
      `q < med` branch is taken and leads to a state of the same kind; the
      exit branch is never reached. */
  lemma NonPositiveTargetNeverStops(q: Rational, hi: ExtendedRational)
    requires q.n <= 0 && Neighbours(R(Zero), hi)
    ensures Neighbours(R(Zero), Infinity)
    ensures !Lt(Mediant(R(Zero), hi), R(q))
    ensures Lt(R(q), Mediant(R(Zero), hi))
    ensures Neighbours(R(Zero), Mediant(R(Zero), hi))
  {
    var med := Mediant(R(Zero), hi);
    MediantOfNeighbours(R(Zero), hi);
    assert Numer(hi) == 1;
    assert Numer(med) == 1 && Denom(med) > 0;
    NonPositiveProduct(q.n, Denom(med));
    assert Denom(med) * q.n == q.n * Denom(med);
    RelativeCoordinatesOrder(q, med);
  }
}
