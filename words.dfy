/** Word evaluation as `main` in `src/main.rs` does it: `parse_word`, the
    map from the symbols a, b, A, B to the generators and their inverses,
    the random word drawn from a stream of values in 0..4, the (p, q) pair
    read as an extended rational, and the choice between the three modes.
    The free monoid over {a, b}, with concatenation as multiplication, is
    the matrix type under which `stern_brocot_word` shows the word it
    builds. */
module Words {
  import opened NumberTheory
  import opened Wrappers
  import Gaussian
  import opened Matrices
  import opened ExtendedRationals
  import opened SternBrocot

  // ---------------------------------------------------------------------
  // parse_word

  predicate IsSymbol(c: char) {
    c == 'a' || c == 'b' || c == 'A' || c == 'B'
  }

  predicate IsWord(s: string) {
    forall i :: 0 <= i < |s| ==> IsSymbol(s[i])
  }

  const WordError: string := "Value must contain only the letters 'a', 'b', 'A', 'B'."

  /** `input.chars().all(...)`: every character is a symbol. */
  function AllSymbols(s: string): (b: bool)
    ensures b <==> IsWord(s)
  {
    if s == [] then true
    else
      assert forall i :: 1 <= i < |s| ==> s[i] == s[1..][i - 1];
      IsSymbol(s[0]) && AllSymbols(s[1..])
  }

  /** `parse_word`: accepts exactly the strings over {a, b, A, B}, the empty
      string included, and returns them unchanged; anything else is the
      fixed error message. */
  function ParseWord(input: string): (r: Result<string, string>)
    ensures r.Ok? <==> IsWord(input)
    ensures r.Ok? ==> r.value == input
    ensures r.Err? ==> r.error == WordError
  {
    if AllSymbols(input) then Ok(input) else Err(WordError)
  }

  // ---------------------------------------------------------------------
  // The symbol -> matrix map

  /** The generators a and b and, as `main` computes them, their `inv`. */
  datatype Generators = Generators(a: Matrix, b: Matrix, aInv: Matrix, bInv: Matrix)

  function MakeGenerators(a: Matrix, b: Matrix): Generators {
    Generators(a, b, Inv(a), Inv(b))
  }

  /** 'a' → a, 'b' → b, 'A' → a⁻¹, 'B' → b⁻¹; any other character is the
      source's `panic!("impossible")`, which `parse_word` rules out. */
  function SymbolMatrix(c: char, g: Generators): Matrix
    requires IsSymbol(c)
  {
    match c
    case 'a' => g.a
    case 'b' => g.b
    case 'A' => g.aInv
    case 'B' => g.bInv
  }

  /** `word.chars().map(...).collect()`: one matrix per symbol, in order. */
  function WordMatrices(w: string, g: Generators): seq<Matrix>
    requires IsWord(w)
  {
    seq(|w|, i requires 0 <= i < |w| => SymbolMatrix(w[i], g))
  }

  /** The random word mode: a draw k in 0..4 picks a, b, a⁻¹, b⁻¹. */
  function DrawMatrix(k: nat, g: Generators): (m: Matrix)
    requires k < 4
    ensures m == SymbolMatrix("abAB"[k], g)
  {
    match k
    case 0 => g.a
    case 1 => g.b
    case 2 => g.aInv
    case 3 => g.bInv
  }

  /** `(0..n).map(|_| ...)` over the first n draws of the random source. */
  function DrawMatrices(draws: seq<nat>, g: Generators): seq<Matrix>
    requires forall i :: 0 <= i < |draws| ==> draws[i] < 4
  {
    seq(|draws|, i requires 0 <= i < |draws| => DrawMatrix(draws[i], g))
  }

  /** Concatenation, the multiplication of the free monoid of words. */
  function Concat(u: string, v: string): string {
    u + v
  }

  // ---------------------------------------------------------------------
  // The word built by the search

  /** The step of the bound-word invariant of the search over words: if
      the words paired with two neighbour bounds hold numerator-many b's
      and denominator-many a's, so does their concatenation, the word the
      loop pairs with the mediant. `InitialWordCounts` is its start. */
  lemma MediantWordCounts(lo: ExtendedRational, hi: ExtendedRational, lw: string, hw: string)
    requires Neighbours(lo, hi)
    requires multiset(lw)['b'] == Numer(lo) && multiset(lw)['a'] == Denom(lo)
    requires multiset(hw)['b'] == Numer(hi) && multiset(hw)['a'] == Denom(hi)
    ensures multiset(Concat(lw, hw))['b'] == Numer(Mediant(lo, hi))
    ensures multiset(Concat(lw, hw))['a'] == Denom(Mediant(lo, hi))
  {
    MediantOfNeighbours(lo, hi);
  }

  /** The start of the bound-word invariant: the seed words "a" for 0/1
      and "b" for 1/0. With `MediantWordCounts` as the step, every bound
      n/d the loop reaches carries a word with n b's and d a's. */
  lemma InitialWordCounts()
    ensures multiset("a")['b'] == Numer(R(Zero)) && multiset("a")['a'] == Denom(R(Zero))
    ensures multiset("b")['b'] == Numer(Infinity) && multiset("b")['a'] == Denom(Infinity)
  {
  }

  lemma CountArith(n: int, d: int, lb: int, hb: int)
    ensures (n - d) * hb + d * (lb + hb) == n * hb + d * lb
    ensures n * (lb + hb) + (d - n) * lb == n * hb + d * lb
  {
    assert (n - d) * hb == n * hb - d * hb;
    assert d * (lb + hb) == d * lb + d * hb;
    assert n * (lb + hb) == n * lb + n * hb;
    assert (d - n) * lb == d * lb - n * lb;
  }

  /** Letter counts of the descent over words: with coprime coordinates
      (n, d) every letter occurs n times per occurrence in the upper word
      plus d times per occurrence in the lower one. */
  lemma {:induction false} DescendCounts(n: int, d: int, lw: string, hw: string, c: char)
    requires n > 0 && d > 0 && Gcd(n, d) == 1
    ensures multiset(Descend(n, d, lw, hw, Concat))[c] == n * multiset(hw)[c] + d * multiset(lw)[c]
    decreases n + d
  {
    var lc, hc := multiset(lw)[c], multiset(hw)[c];
    var w := Concat(lw, hw);
    assert multiset(w)[c] == lc + hc;
    if n > d {
      DescendCounts(n - d, d, w, hw, c);
      CountArith(n, d, lc, hc);
    } else if n < d {
      DescendCounts(n, d - n, lw, w, c);
      CountArith(n, d, lc, hc);
    } else {
      assert Gcd(n, d) == n;
    }
  }

  /** The length of the descent over words, by the same count. */
  lemma {:induction false} DescendLength(n: int, d: int, lw: string, hw: string)
    requires n > 0 && d > 0 && Gcd(n, d) == 1
    ensures |Descend(n, d, lw, hw, Concat)| == n * |hw| + d * |lw|
    decreases n + d
  {
    var w := Concat(lw, hw);
    if n > d {
      DescendLength(n - d, d, w, hw);
      CountArith(n, d, |lw|, |hw|);
    } else if n < d {
      DescendLength(n, d - n, lw, w);
      CountArith(n, d, |lw|, |hw|);
    } else {
      assert Gcd(n, d) == n;
    }
  }

  /** For a target n/d other than 1 the search over words returns a word
      with n copies of b, d copies of a and nothing else. */
  lemma LocatedWordCounts(q: Rational)
    requires q.n > 0 && q != One
    ensures multiset(Located(R(q), "a", "b", Concat))['b'] == q.n
    ensures multiset(Located(R(q), "a", "b", Concat))['a'] == q.d
    ensures |Located(R(q), "a", "b", Concat)| == q.n + q.d
  {
    DescendCounts(q.n, q.d, "a", "b", 'a');
    DescendCounts(q.n, q.d, "a", "b", 'b');
    DescendLength(q.n, q.d, "a", "b");
  }

  /** The descent over words only ever concatenates its two seed words. */
  lemma {:induction false} DescendIsWord(n: int, d: int, lw: string, hw: string)
    requires n > 0 && d > 0 && IsWord(lw) && IsWord(hw) && |lw| > 0 && |hw| > 0
    ensures IsWord(Descend(n, d, lw, hw, Concat)) && |Descend(n, d, lw, hw, Concat)| > 0
    decreases n + d
  {
    if n > d {
      DescendIsWord(n - d, d, Concat(lw, hw), hw);
    } else if n < d {
      DescendIsWord(n, d - n, lw, Concat(lw, hw));
    }
  }

  /** Evaluating a concatenation multiplies the two evaluations. */
  lemma WordMatricesConcat(u: string, v: string, g: Generators)
    requires IsWord(u) && IsWord(v) && |u| > 0 && |v| > 0
    ensures IsWord(u + v)
    ensures LeftFold(WordMatrices(u + v, g)) == Mul(LeftFold(WordMatrices(u, g)), LeftFold(WordMatrices(v, g)))
  {
    assert forall i :: 0 <= i < |u + v| ==> (u + v)[i] == if i < |u| then u[i] else v[i - |u|];
    assert WordMatrices(u + v, g) == WordMatrices(u, g) + WordMatrices(v, g);
    LeftFoldConcat(WordMatrices(u, g), WordMatrices(v, g));
  }

  /** Evaluating the descent over words is the descent over matrices. */
  lemma {:induction false} DescendEvaluates(n: int, d: int, lw: string, hw: string, g: Generators)
    requires n > 0 && d > 0 && IsWord(lw) && IsWord(hw) && |lw| > 0 && |hw| > 0
    ensures IsWord(Descend(n, d, lw, hw, Concat)) && |Descend(n, d, lw, hw, Concat)| > 0
    ensures LeftFold(WordMatrices(Descend(n, d, lw, hw, Concat), g))
         == Descend(n, d, LeftFold(WordMatrices(lw, g)), LeftFold(WordMatrices(hw, g)), Mul)
    decreases n + d
  {
    DescendIsWord(n, d, lw, hw);
    WordMatricesConcat(lw, hw, g);
    if n > d {
      DescendEvaluates(n - d, d, Concat(lw, hw), hw, g);
    } else if n < d {
      DescendEvaluates(n, d - n, lw, Concat(lw, hw), g);
    }
  }

  /** The rational mode agrees with the word mode: for a positive target
      the matrix found by the search over matrices is the product, symbol by
      symbol, of the word found by the same search over words. */
  lemma RationalModeIsWordMode(q: ExtendedRational, g: Generators)
    requires IsPositive(q)
    ensures ParseWord(Located(q, "a", "b", Concat)).Ok?
    ensures |Located(q, "a", "b", Concat)| > 0
    ensures Located(q, g.a, g.b, Mul) == LeftFold(WordMatrices(Located(q, "a", "b", Concat), g))
  {
    assert WordMatrices("a", g) == [g.a];
    assert WordMatrices("b", g) == [g.b];
    if q.R? && q.r != One {
      DescendEvaluates(q.r.n, q.r.d, "a", "b", g);
    }
  }

  /** A unit-determinant matrix next to its `inv` folds to the identity. */
  lemma PairCancels(x: Matrix)
    requires Det(x) == Gaussian.One
    ensures LeftFold([x, Inv(x)]) == Identity() && LeftFold([Inv(x), x]) == Identity()
  {
    assert [x, Inv(x)][..1] == [x];
    assert [Inv(x), x][..1] == [Inv(x)];
    assert LeftFold([x, Inv(x)]) == Mul(x, Inv(x));
    assert LeftFold([Inv(x), x]) == Mul(Inv(x), x);
    MulInv(x);
    InvMul(x);
    assert Gaussian.Times(Det(x), Det(x)) == Gaussian.One;
  }

  /** For generators of determinant 1, as `rho_a` and `rho_b` are meant to
      produce, a symbol next to its inverse cancels. */
  lemma InverseSymbolsCancel(a: Matrix, b: Matrix)
    requires Det(a) == Gaussian.One && Det(b) == Gaussian.One
    ensures LeftFold(WordMatrices("aA", MakeGenerators(a, b))) == Identity()
    ensures LeftFold(WordMatrices("Aa", MakeGenerators(a, b))) == Identity()
    ensures LeftFold(WordMatrices("bB", MakeGenerators(a, b))) == Identity()
    ensures LeftFold(WordMatrices("Bb", MakeGenerators(a, b))) == Identity()
  {
    var g := MakeGenerators(a, b);
    assert WordMatrices("aA", g) == [a, Inv(a)];
    assert WordMatrices("Aa", g) == [Inv(a), a];
    assert WordMatrices("bB", g) == [b, Inv(b)];
    assert WordMatrices("Bb", g) == [Inv(b), b];
    PairCancels(a);
    PairCancels(b);
  }

  /** With generators of determinant 1 every symbol, inverses included,
      evaluates to a matrix of determinant 1. */
  lemma SymbolDeterminantOne(c: char, a: Matrix, b: Matrix)
    requires IsSymbol(c) && Det(a) == Gaussian.One && Det(b) == Gaussian.One
    ensures Det(SymbolMatrix(c, MakeGenerators(a, b))) == Gaussian.One
  {
    var g := MakeGenerators(a, b);
    if c == 'A' {
      InvKeepsUnitDeterminant(a);
      assert SymbolMatrix(c, g) == Inv(a);
    } else if c == 'B' {
      InvKeepsUnitDeterminant(b);
      assert SymbolMatrix(c, g) == Inv(b);
    }
  }

  lemma InvKeepsUnitDeterminant(m: Matrix)
    requires Det(m) == Gaussian.One
    ensures Det(Inv(m)) == Gaussian.One
  {
    DetInv(m);
    assert Gaussian.Times(Gaussian.One, Gaussian.Times(Gaussian.One, Gaussian.One)) == Gaussian.One;
  }

  /** Every non-empty word over a, b, A, B evaluates to a matrix of
      determinant 1 when the generators have determinant 1. */
  lemma WordDeterminantOne(w: string, a: Matrix, b: Matrix)
    requires Det(a) == Gaussian.One && Det(b) == Gaussian.One
    requires IsWord(w) && |w| > 0
    ensures Det(LeftFold(WordMatrices(w, MakeGenerators(a, b)))) == Gaussian.One
  {
    var ms := WordMatrices(w, MakeGenerators(a, b));
    forall i | 0 <= i < |ms|
      ensures Det(ms[i]) == Gaussian.One
    {
      SymbolDeterminantOne(w[i], a, b);
    }
    UnitDeterminantClosed(ms);
  }

  // ---------------------------------------------------------------------
  // The (p, q) pair and the driver

  /** `-r p q`: q = 0 denotes Infinity (whatever p is), otherwise p/q in
      lowest terms. */
  function TargetOf(p: nat, q: nat): (x: ExtendedRational)
    ensures x == Infinity <==> q == 0
    ensures x.R? ==> SameValue(x.r, Fraction(p, q))
    ensures IsPositive(x) <==> q == 0 || p > 0
  {
    if q == 0 then Infinity
    else
      var r := Reduce(p, q);
      SameSign(r.n, p, q, r.d);
      R(r)
  }

  /** The word selection `main` acts on, after argument parsing. */
  datatype Selection = Selection(randomWord: Option<nat>, word: Option<string>, r: Option<(nat, nat)>)

  datatype Outcome =
    | Done(m: Matrix)
    | EmptyProduct       // `M::product` indexing ms[0] of an empty vector
    | MissingSelection   // none of --word, --random-word, -r: exit status 1

  /** What `M::product` does with a vector: a panic when it is empty. */
  function ProductOutcome(ms: seq<Matrix>): Outcome {
    if ms == [] then EmptyProduct else Done(LeftFold(ms))
  }

  /** The word evaluation of `main`: --random-word first, then --word, then
      -r, else the usage error. Draws come from the random source, each in
      0..4; a word has passed `parse_word`; and the -r target must be one
      the search stops for. */
  method Evaluate(sel: Selection, draws: seq<nat>, a: Matrix, b: Matrix) returns (out: Outcome)
    requires sel.randomWord.Some? ==>
      sel.randomWord.value <= |draws| && forall i :: 0 <= i < |draws| ==> draws[i] < 4
    requires sel.randomWord.None? && sel.word.Some? ==> IsWord(sel.word.value)
    requires sel.randomWord.None? && sel.word.None? && sel.r.Some? ==>
      IsPositive(TargetOf(sel.r.value.0, sel.r.value.1))
    ensures sel.randomWord.Some? ==>
      out == ProductOutcome(DrawMatrices(draws[..sel.randomWord.value], MakeGenerators(a, b)))
    ensures sel.randomWord.None? && sel.word.Some? ==>
      out == ProductOutcome(WordMatrices(sel.word.value, MakeGenerators(a, b)))
    ensures sel.randomWord.None? && sel.word.None? && sel.r.Some? ==>
      out == Done(Located(TargetOf(sel.r.value.0, sel.r.value.1), a, b, Mul))
    ensures sel.randomWord.None? && sel.word.None? && sel.r.None? ==> out == MissingSelection
  {
    var g := MakeGenerators(a, b);
    if sel.randomWord.Some? {
      var ms := DrawMatrices(draws[..sel.randomWord.value], g);
      if ms == [] {
        return EmptyProduct;
      }
      var m := Product(ms);
      return Done(m);
    } else if sel.word.Some? {
      var ms := WordMatrices(sel.word.value, g);
      if ms == [] {
        return EmptyProduct;
      }
      var m := Product(ms);
      return Done(m);
    } else if sel.r.Some? {
      var (p, q) := sel.r.value;
      var x := TargetOf(p, q);
      var m := SternBrocotWord(x, a, b, Mul);
      return Done(m);
    } else {
      return MissingSelection;
    }
  }
}
