/** The 2×2 matrices `M<C>` of `src/main.rs` with entries [a, b, c, d]
    standing for [[a, b], [c, d]], over Gaussian integers in place of
    arbitrary-precision complex floats: `det`, `identity`, `inv`, `mul` and
    the left fold `product`. */
module Matrices {
  import opened Gaussian

  datatype Matrix = M(a: Gauss, b: Gauss, c: Gauss, d: Gauss)

  /** `M::det`: ad − bc. */
  function Det(m: Matrix): Gauss {
    Minus(Times(m.a, m.d), Times(m.b, m.c))
  }

  /** `M::identity`; the precision argument of the source has no
      counterpart in exact arithmetic. */
  function Identity(): Matrix {
    M(One, Zero, Zero, One)
  }

  /** `M::inv`: the adjugate [[d, −b], [−c, a]] scaled by the determinant
      (not by its reciprocal). */
  function Inv(m: Matrix): Matrix {
    var det := Det(m);
    M(Times(det, m.d), Times(det, Negate(m.b)), Times(det, Negate(m.c)), Times(det, m.a))
  }

  /** `M::mul`: the row-by-column product. */
  function Mul(x: Matrix, y: Matrix): Matrix {
    M(Plus(Times(x.a, y.a), Times(x.b, y.c)),
      Plus(Times(x.a, y.b), Times(x.b, y.d)),
      Plus(Times(x.c, y.a), Times(x.d, y.c)),
      Plus(Times(x.c, y.b), Times(x.d, y.d)))
  }

  /** A scalar multiple of the identity. */
  function ScalarMatrix(s: Gauss): Matrix {
    M(s, Zero, Zero, s)
  }

  /** One entry of (xy)z against the same entry of x(yz). */
  lemma EntryAssociative(x1: Gauss, x2: Gauss, y11: Gauss, y12: Gauss, y21: Gauss, y22: Gauss, z1: Gauss, z2: Gauss)
    ensures Plus(Times(Plus(Times(x1, y11), Times(x2, y21)), z1), Times(Plus(Times(x1, y12), Times(x2, y22)), z2))
         == Plus(Times(x1, Plus(Times(y11, z1), Times(y12, z2))), Times(x2, Plus(Times(y21, z1), Times(y22, z2))))
  {
    Distributive(Times(x1, y11), Times(x2, y21), z1);
    Distributive(Times(x1, y12), Times(x2, y22), z2);
    Distributive(x1, Times(y11, z1), Times(y12, z2));
    Distributive(x2, Times(y21, z1), Times(y22, z2));
    TimesAssociative(x1, y11, z1);
    TimesAssociative(x2, y21, z1);
    TimesAssociative(x1, y12, z2);
    TimesAssociative(x2, y22, z2);
  }

  /** `mul` is associative. */
  lemma MulAssociative(x: Matrix, y: Matrix, z: Matrix)
    ensures Mul(Mul(x, y), z) == Mul(x, Mul(y, z))
  {
    EntryAssociative(x.a, x.b, y.a, y.b, y.c, y.d, z.a, z.c);
    EntryAssociative(x.a, x.b, y.a, y.b, y.c, y.d, z.b, z.d);
    EntryAssociative(x.c, x.d, y.a, y.b, y.c, y.d, z.a, z.c);
    EntryAssociative(x.c, x.d, y.a, y.b, y.c, y.d, z.b, z.d);
  }

  /** `identity` is a two-sided unit of `mul`. */
  lemma IdentityIsUnit(m: Matrix)
    ensures Mul(Identity(), m) == m && Mul(m, Identity()) == m
  {
    TimesOne(m.a);
    TimesOne(m.b);
    TimesOne(m.c);
    TimesOne(m.d);
  }

  /** `det(mul(x, y)) == det(x) * det(y)`. */
  lemma DetMultiplicative(x: Matrix, y: Matrix)
    ensures Det(Mul(x, y)) == Times(Det(x), Det(y))
  {
    var A, B, C, D := x.a, x.b, x.c, x.d;
    var E, F, G, H := y.a, y.b, y.c, y.d;
    // (AE + BG)(CF + DH)
    Distributive(Times(A, E), Times(B, G), Plus(Times(C, F), Times(D, H)));
    Distributive(Times(A, E), Times(C, F), Times(D, H));
    Distributive(Times(B, G), Times(C, F), Times(D, H));
    // (AF + BH)(CE + DG)
    Distributive(Times(A, F), Times(B, H), Plus(Times(C, E), Times(D, G)));
    Distributive(Times(A, F), Times(C, E), Times(D, G));
    Distributive(Times(B, H), Times(C, E), Times(D, G));
    // regroup each four-fold product by rows of x and columns of y
    MiddleSwap(A, E, C, F);
    MiddleSwap(A, F, C, E);
    TimesCommutative(E, F);
    MiddleSwap(B, G, D, H);
    MiddleSwap(B, H, D, G);
    TimesCommutative(G, H);
    MiddleSwap(A, E, D, H);
    MiddleSwap(B, G, C, F);
    TimesCommutative(G, F);
    MiddleSwap(A, F, D, G);
    MiddleSwap(B, H, C, E);
    TimesCommutative(H, E);
    // (AD - BC)(EH - FG)
    MinusDistributive(Times(A, D), Times(B, C), Minus(Times(E, H), Times(F, G)));
    MinusDistributive(Times(A, D), Times(E, H), Times(F, G));
    MinusDistributive(Times(B, C), Times(E, H), Times(F, G));
  }

  lemma ScaledPairLeft(det: Gauss, p: Gauss, q: Gauss, r: Gauss, s: Gauss)
    ensures Plus(Times(p, Times(det, q)), Times(r, Times(det, Negate(s))))
         == Times(det, Minus(Times(p, q), Times(r, s)))
  {
    TimesExchange(p, det, q);
    TimesNegate(det, s);
    TimesNegate(r, Times(det, s));
    TimesExchange(r, det, s);
    MinusDistributive(det, Times(p, q), Times(r, s));
  }

  lemma ScaledPairRight(det: Gauss, p: Gauss, q: Gauss, r: Gauss, s: Gauss)
    ensures Plus(Times(Times(det, p), q), Times(Times(det, Negate(r)), s))
         == Times(det, Minus(Times(p, q), Times(r, s)))
  {
    TimesAssociative(det, p, q);
    TimesNegate(det, r);
    TimesCommutative(Negate(Times(det, r)), s);
    TimesNegate(s, Times(det, r));
    TimesCommutative(s, Times(det, r));
    TimesAssociative(det, r, s);
    MinusDistributive(det, Times(p, q), Times(r, s));
  }

  /** `mul(m, inv(m))` is det(m)² times the identity, because `inv` scales
      the adjugate by det(m) rather than by 1/det(m). */
  lemma MulInv(m: Matrix)
    ensures Mul(m, Inv(m)) == ScalarMatrix(Times(Det(m), Det(m)))
  {
    var det := Det(m);
    var a, b, c, d := m.a, m.b, m.c, m.d;
    ScaledPairLeft(det, a, d, b, c);
    ScaledPairLeft(det, b, a, a, b);
    ScaledPairLeft(det, c, d, d, c);
    ScaledPairLeft(det, d, a, c, b);
    TimesCommutative(a, b);
    TimesCommutative(c, d);
    TimesCommutative(d, a);
    TimesCommutative(c, b);
    TimesOne(det);
  }

  /** `mul(inv(m), m)` is det(m)² times the identity as well. */
  lemma InvMul(m: Matrix)
    ensures Mul(Inv(m), m) == ScalarMatrix(Times(Det(m), Det(m)))
  {
    var det := Det(m);
    var a, b, c, d := m.a, m.b, m.c, m.d;
    ScaledPairRight(det, d, a, b, c);
    ScaledPairRight(det, d, b, b, d);
    ScaledPairRight(det, a, c, c, a);
    ScaledPairRight(det, a, d, c, b);
    TimesCommutative(d, a);
    TimesCommutative(d, b);
    TimesCommutative(a, c);
    TimesCommutative(c, b);
    TimesOne(det);
  }

  /** `inv` is a true two-sided inverse exactly when det(m)² = 1, that is,
      for det(m) = ±1. */
  lemma InvIsInverseIff(m: Matrix)
    ensures Mul(m, Inv(m)) == Identity() <==> Times(Det(m), Det(m)) == One
    ensures Mul(Inv(m), m) == Identity() <==> Det(m) == One || Det(m) == Negate(One)
  {
    MulInv(m);
    InvMul(m);
    UnitSquare(Det(m));
  }

  /** `inv` cubes the determinant: det(inv(m)) = det(m)³, so it keeps
      det = 1. */
  lemma DetInv(m: Matrix)
    ensures Det(Inv(m)) == Times(Det(m), Times(Det(m), Det(m)))
  {
    var det, a, b, c, d := Det(m), m.a, m.b, m.c, m.d;
    MiddleSwap(det, d, det, a);
    MiddleSwap(det, Negate(b), det, Negate(c));
    MinusDistributive(Times(det, det), Times(d, a), Times(Negate(b), Negate(c)));
    TimesCommutative(d, a);
    assert Times(Negate(b), Negate(c)) == Times(b, c);
    TimesAssociative(det, det, det);
  }

  // ---------------------------------------------------------------------
  // product

  /** The left fold ms[0] * ms[1] * ... * ms[k-1] of a non-empty sequence. */
  function LeftFold(ms: seq<Matrix>): Matrix
    requires |ms| > 0
    decreases |ms|
  {
    if |ms| == 1 then ms[0] else Mul(LeftFold(ms[..|ms| - 1]), ms[|ms| - 1])
  }

  /** `M::product`: seed with ms[0] and multiply the rest in from the right.
      Indexing ms[0] panics on an empty vector, hence the precondition. */
  method Product(ms: seq<Matrix>) returns (res: Matrix)
    requires |ms| > 0
    ensures res == LeftFold(ms)
  {
    res := ms[0];
    for i := 0 to |ms|
      invariant i == 0 ==> res == ms[0]
      invariant i > 0 ==> res == LeftFold(ms[..i])
    {
      if i == 0 {
        assert ms[..1] == [ms[0]];
        continue;
      }
      assert ms[..i + 1][..i] == ms[..i];
      res := Mul(res, ms[i]);
    }
    assert ms[..|ms|] == ms;
  }

  /** Folding a concatenation multiplies the two folds. */
  lemma {:induction false} LeftFoldConcat(u: seq<Matrix>, v: seq<Matrix>)
    requires |u| > 0 && |v| > 0
    ensures LeftFold(u + v) == Mul(LeftFold(u), LeftFold(v))
    decreases |v|
  {
    var w := u + v;
    if |v| == 1 {
      assert w[..|w| - 1] == u;
    } else {
      var v' := v[..|v| - 1];
      assert w[..|w| - 1] == u + v';
      assert w[|w| - 1] == v[|v| - 1];
      LeftFoldConcat(u, v');
      MulAssociative(LeftFold(u), LeftFold(v'), v[|v| - 1]);
    }
  }

  /** Products of unit-determinant matrices have unit determinant. */
  lemma {:induction false} UnitDeterminantClosed(ms: seq<Matrix>)
    requires |ms| > 0 && forall i :: 0 <= i < |ms| ==> Det(ms[i]) == One
    ensures Det(LeftFold(ms)) == One
    decreases |ms|
  {
    if |ms| > 1 {
      UnitDeterminantClosed(ms[..|ms| - 1]);
      DetMultiplicative(LeftFold(ms[..|ms| - 1]), ms[|ms| - 1]);
      TimesOne(One);
    }
  }
}
