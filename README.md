# repcalc: the exact core in Dafny

repcalc evaluates a word over two 2×2 complex matrices a and b (and their
inverses A, B). The word is given directly (`--word`), drawn at random
(`--random-word n`), or found by locating a rational p/q in the Stern-Brocot
tree (`-r p q`). This project models the exact, non-floating-point part of
`src/main.rs`:

- **Extended rationals** (`extended_rational.dfy`, module `ExtendedRationals`).
  An `ExtendedRational` is a reduced rational or `Infinity`. It comes with:
  - structural equality `Eq`;
  - `partial_cmp`/`cmp` as `PartialCompare`/`Compare`, a total order with
    Infinity as the unique maximum;
  - `numer`/`denom`, which read Infinity as 1/0;
  - the Farey `mediant`.

  The arbitrary-precision `Rational` becomes a subset type of integer pairs
  in lowest terms with a positive denominator, so pair equality is value
  equality (`SameValueIsEqual`). `Rational::from` becomes `Reduce`. Gcd and
  Euclid's lemma live in `number_theory.dfy`.
- **The Stern-Brocot locator** (`stern_brocot.dfy`, module `SternBrocot`).
  `SternBrocotWord` is the source's loop over `low`, `low_m`, `high` and
  `high_m`. Its "matrix" type is a type parameter with the multiplication
  passed in.
  - It is proved equal to `Located`, a specification written as Euclid's
    subtractive algorithm (`Descend`) on the coordinates of q relative to
    the current bounds.
  - The loop invariant keeps the two bounds Stern-Brocot neighbours with
    low < q < high.
  - The loop terminates because the sum of the two relative coordinates
    decreases at every step.
- **Matrices** (`matrix.dfy`, module `Matrices`). `M<C>` becomes `Matrix`,
  with `Det`, `Identity`, `Inv`, `Mul` and the imperative left fold
  `Product`. Entries are Gaussian integers (`gaussian.dfy`), an exact
  commutative ring.
- **Word evaluation and the driver** (`words.dfy`, module `Words`). This
  covers:
  - `parse_word`;
  - the symbol→matrix map and the random-draw map;
  - the (p, q)→`ExtendedRational` mapping;
  - the choice between the three modes (`Evaluate`).

  The free monoid of strings over {a, b} with concatenation instantiates the
  locator. This shows:
  - the word the search builds (`LocatedWordCounts`);
  - that evaluating that word gives the matrix the search over matrices
    finds (`RationalModeIsWordMode`).

Two points of the code that the model pins down:

- `M::inv` multiplies the adjugate by `det`, not by `1/det` as a true
  inverse would. `Inv` does the same, and `MulInv`/`InvIsInverseIff` show
  that m·inv(m) = det(m)²·I, so it is a true inverse only for det = ±1.
- The loop of `stern_brocot_word` terminates for every positive target
  with the measure RelLow + RelHigh: the sum of the coordinates of q
  relative to the bounds, n·lo.d − d·lo.n plus hi.n·d − hi.d·n.

## Model

The table lists the members that model source code or state its properties.
Helper lemmas (the number theory of `number_theory.dfy`, the Gaussian ring
laws, `ValueOrder`, `BelowRespectsValue`, `DenominatorDivides`,
`ReducedQuotient`, `DescendIsWord`, `PairCancels`) and the specification
functions `Descend`, `Located` and `LeftFold` appear only through the rows
that use them. The functions that transcribe source code directly have no
contract and no row of their own: `Numer`, `Denom`, `Compare`, `Lt`, `Det`,
`Identity`, `Inv`, `Mul`, `SymbolMatrix`, `WordMatrices`, `DrawMatrices` and
`MakeGenerators`. The lemma rows cite their source lines.

| member | source | states |
|---|---|---|
| ExtendedRationals.Reduce | src/main.rs:201 | `Rational::from((x, y))` gives a fraction in lowest terms with a positive denominator and the same value as x/y |
| ExtendedRationals.ReduceUnique | src/main.rs:201 | the reduced form is the only rational with the value x/y |
| ExtendedRationals.SameValueIsEqual | src/main.rs:147 | two reduced rationals of equal value are the same pair, so the rational's equality is value equality |
| ExtendedRationals.InfinityIsOneOverZero | src/main.rs:181-193 | `numer`/`denom` read Infinity as 1/0, Infinity is the only value with denominator 0, and a finite value reads as its own reduced fraction |
| ExtendedRationals.Eq | src/main.rs:151-159 | `eq` holds exactly when the two values are structurally equal (Infinity only equals Infinity, and a finite value never equals Infinity) |
| ExtendedRationals.EqualIsValueEquality | src/main.rs:155 | two finite values are `eq` exactly when they stand for the same number |
| ExtendedRationals.CompareRationals | src/main.rs:167 | comparing two rationals gives Less or Greater exactly when the cross products say the first is below or above the second, and Equal exactly when they are the same rational |
| ExtendedRationals.CompareRationalsByValue | src/main.rs:167 | that comparison is the order of the numbers the rationals stand for: Less, Greater or Equal exactly when the first is smaller, larger or equal |
| ExtendedRationals.PartialCompare | src/main.rs:161-170 | `partial_cmp` always returns `Some`, so the `unwrap` in `cmp` never fails |
| ExtendedRationals.CompareEqualIffEqual | src/main.rs:171-176 | `cmp` answers Equal exactly when `eq` holds |
| ExtendedRationals.CompareAntisymmetric | src/main.rs:161-176 | swapping the operands of `cmp` turns Less into Greater and keeps Equal |
| ExtendedRationals.LtTransitive | src/main.rs:161-170 | `<` is transitive |
| ExtendedRationals.CompareTotal | src/main.rs:161-176 | exactly one of x < y, x == y and y < x holds |
| ExtendedRationals.InfinityIsMaximum | src/main.rs:164-166 | nothing is above Infinity, and every other value is below it |
| ExtendedRationals.Mediant | src/main.rs:195-203 | the mediant is Infinity exactly when the denominator sum is zero; otherwise it has the value of (sum of numerators)/(sum of denominators) |
| ExtendedRationals.MediantInfinite | src/main.rs:195-203 | the mediant is Infinity only when both operands are Infinity |
| ExtendedRationals.MediantStrictlyBetween | src/main.rs:195-203 | for x < y the mediant lies strictly between x and y |
| ExtendedRationals.NeighboursOrdered | src/main.rs:216-219 | bounds with hi.n·lo.d − lo.n·hi.d = 1 are ordered lo < hi, and lo is finite |
| ExtendedRationals.MediantOfNeighbours | src/main.rs:195-203 | for neighbours the mediant's numerator and denominator are the plain sums (no reduction happens), and the mediant is a neighbour of both bounds |
| ExtendedRationals.NeighbourMediantBetween | src/main.rs:195-203 | for neighbours lo, hi: lo < mediant < hi |
| SternBrocot.RelativeCoordinatesOrder | src/main.rs:223-227 | lo < q exactly when n·lo.d − d·lo.n > 0, and q < hi exactly when hi.n·d − hi.d·n > 0 |
| SternBrocot.MediantCoordinates | src/main.rs:222-230 | passing from the bounds to their mediant subtracts one relative coordinate from the other |
| SternBrocot.SternBrocotWord | src/main.rs:206-236 | the loop returns `Located(q, a, b)`: b for Infinity, a for 1, otherwise Euclid's subtractive descent from 0/1 ↔ a and 1/0 ↔ b; the invariant keeps the bounds neighbours around q, and the loop terminates for every positive target |
| SternBrocot.ImmediateReturns | src/main.rs:207-214 | Infinity gives b and 1 gives a unchanged, whereas the loop alone would have given a·b for 1 |
| SternBrocot.StepKeepsBounds | src/main.rs:221-234 | each branch replaces exactly one bound by the mediant, keeps the neighbour pair around q and subtracts the relative coordinates; the exit branch is reached exactly when the mediant is q |
| SternBrocot.NonPositiveTargetNeverStops | src/main.rs:216-230 | for q ≤ 0 the first state (0/1, 1/0) is a neighbour pair with low = 0/1, and from every such state the mediant is above q, the `q < med` branch is taken and the new state is again of that kind, so the loop never ends |
| Matrices.MulAssociative | src/main.rs:77-86 | `mul` is associative |
| Matrices.IdentityIsUnit | src/main.rs:36-40 | `identity` is a two-sided unit of `mul` |
| Matrices.DetMultiplicative | src/main.rs:31-34 | det(xy) = det(x)·det(y) |
| Matrices.MulInv | src/main.rs:42-46 | m·inv(m) = det(m)²·I, because `inv` scales the adjugate by det(m) |
| Matrices.InvMul | src/main.rs:42-46 | inv(m)·m = det(m)²·I |
| Matrices.InvIsInverseIff | src/main.rs:42-46 | `inv` is a right inverse exactly when det² = 1, and a left inverse exactly when det = ±1 |
| Matrices.DetInv | src/main.rs:42-46 | det(inv(m)) = det(m)³, because `inv` scales the adjugate by det(m); so `inv` keeps det = 1 |
| Matrices.Product | src/main.rs:48-55 | `product` of a non-empty vector is the left fold ms[0]·ms[1]·…·ms[k−1] |
| Matrices.LeftFoldConcat | src/main.rs:48-55 | the fold of a concatenation is the product of the two folds |
| Matrices.UnitDeterminantClosed | src/main.rs:48-55 | a product of determinant-1 matrices has determinant 1 |
| Words.AllSymbols | src/main.rs:103 | the `chars().all(...)` test holds exactly when every character is one of a, b, A, B |
| Words.ParseWord | src/main.rs:101-108 | `parse_word` accepts exactly the strings over {a, b, A, B}, including the empty string, and returns them unchanged; it rejects everything else with the fixed message |
| Words.DrawMatrix | src/main.rs:260-267 | draw k in 0..4 picks the matrix of the k-th symbol of "abAB" |
| Words.MediantWordCounts | src/main.rs:222-230 | if the words of two neighbour bounds hold numerator-many b's and denominator-many a's, so does their concatenation for the mediant |
| Words.InitialWordCounts | src/main.rs:216-219 | the seeds "a" for 0/1 and "b" for 1/0 hold numerator-many b's and denominator-many a's |
| Words.DescendCounts | src/main.rs:221-234 | over words, the descent from coprime coordinates (n, d) counts every letter n times per occurrence in the upper word plus d times per occurrence in the lower word |
| Words.DescendLength | src/main.rs:221-234 | over words, the descent from coprime coordinates (n, d) has length n·(upper length) + d·(lower length) |
| Words.LocatedWordCounts | src/main.rs:216-233 | for a target n/d ≠ 1 the search over words returns a word with exactly n b's, d a's and length n + d |
| Words.WordMatricesConcat | src/main.rs:269-276 | evaluating a concatenated word multiplies the evaluations of its parts |
| Words.DescendEvaluates | src/main.rs:221-234 | evaluating the word found by the descent gives the matrix the descent over matrices finds |
| Words.RationalModeIsWordMode | src/main.rs:268-286 | for a positive target the `-r` mode returns the product of the located word's symbols, that word is non-empty, and it passes `parse_word` |
| Words.InverseSymbolsCancel | src/main.rs:255-256 | for generators of determinant 1, "aA", "Aa", "bB" and "Bb" evaluate to the identity |
| Words.InvKeepsUnitDeterminant | src/main.rs:255-256 | the inverses `a_inv`, `b_inv` of generators of determinant 1 have determinant 1 |
| Words.SymbolDeterminantOne | src/main.rs:268-276 | for generators of determinant 1, each of a, b, A, B maps to a matrix of determinant 1 |
| Words.WordDeterminantOne | src/main.rs:268-276 | for generators of determinant 1, every non-empty word over a, b, A, B evaluates to a matrix of determinant 1 |
| Words.TargetOf | src/main.rs:280-285 | q = 0 gives Infinity; any other q gives p/q in lowest terms; the target is one the search stops for exactly when q = 0 or p > 0 |
| Words.Evaluate | src/main.rs:258-290 | `--random-word` comes first, then `--word`, then `-r`, and otherwise the usage error; each word mode gives the left fold of its matrices, and `product`'s panic (`EmptyProduct`) exactly when that sequence is empty; `-r` gives the located matrix |

## Left out

- `rho_a` and `rho_b` (src/main.rs:11-28) need complex square roots and reciprocals in arbitrary-precision floating point. The generators a and b are parameters instead.
- `dominant_eigenvector` (src/main.rs:57-75) and `is_eigenvector` (src/main.rs:88-98) are floating-point numerics: complex `sqrt`, `cmp_abs` magnitude comparison and a 1e-6 tolerance. Not modelled. On a magnitude tie the source picks `lambda1` (the `Equal | Greater` arm).
- `Args` parsing with clap, `process::exit`, and the `println!`/`eprintln!` reporting in `main` are I/O. `Selection` stands for the parsed options, and `MissingSelection` for the usage error and exit status 1.
- The choice of z (`-z` or `--random-z`) and the precision argument have no counterpart: entries are exact Gaussian integers, and `Identity` takes no precision.
- `StdRng` seeding and `gen_range(0..4)` are an external random source. `Evaluate` takes the stream of draws as the parameter `draws`: the first n draws it gets are the ones `--random-word n` uses, each in 0..4.
- The `u64` width of p and q and the `usize` width of the word length are not modelled. Both are natural numbers, and every conversion in the source is lossless.
- `rug`'s `Rational`, `Integer` and `Complex` are not reimplemented. They become reduced integer pairs, `int` and Gaussian integers.
- SternBrocot.SternBrocotWord: requires a positive target (Infinity or p > 0). For q ≤ 0, which `-r 0 q` with q ≠ 0 reaches, the source loops forever. The model states that loop as `NonPositiveTargetNeverStops` rather than running it.
- Words.SymbolMatrix: requires a symbol of {a, b, A, B}. The source's `panic!("impossible")` arm cannot be reached after `parse_word`.
- Words.Evaluate: requires its `--word` option to have passed `parse_word`, as clap ensures before `main` runs. It also requires the `-r` target to be positive, for the reason given under SternBrocot.SternBrocotWord.
