# Conway games: order, arithmetic, canonical forms and display

This project models the `Game` value of ludology, a library for partizan
combinatorial games in Conway's sense. It follows the behaviour the library's
game test module pins down, and it proves that behaviour in Dafny. The test
module is `tests/test_game.py`.

What is modelled:

- **Games.** A game is a pair of option lists `G(L, R)`. `Zero`, `One` and
  `MinusOne` are `{|}`, `{0|}` and `{|0}` (module `Games`).
- **Order.** Conway's order `Le` is defined by recursion on both games. The
  derived relations are `Eq`, `Lt`, `Gt` and `Fuzzy`, the last one meaning
  "confused". `Compare` gives one of the four answers (module `Order`).
- **Arithmetic.** Negation, disjunctive sum and Conway's product are built
  option by option. Their results are raw, not canonical (module `Arith`).
- **Numbers.** An integer is built as `n + 1 = {n|}`. A dyadic rational
  m/2^k is built by the simplest-number rule. This is what the library does
  when a game is constructed from a number (module `Numbers`). Module
  `IntegerArith` shows that integer sums and products agree with integer
  arithmetic.
- **Canonical form.** Options are canonicalized first. Then dominated options
  are deleted and reversible options are bypassed, one rewrite at a time,
  until no rewrite applies (module `Canon`).
- **Classification.** This covers the outcome class, impartiality, switches,
  numbers and the birthday. Impartiality, switches and the birthday are read
  off the canonical form; the birthday is its height (module `Classify`).
- **Display.** `Value` renders a number as `n` or `n/d` in lowest terms. It
  renders a switch between two numbers as `mean±halfspread`, with the mean
  left out when it is 0 (module `Display`).
- **Fixtures.** Modules `Fixtures` and `FixtureClasses` hold the games the
  library is exercised on (0, 1/2, 1, -1, ∗, ∗2, ↑, ↓, ±1). They state every
  comparison, sum, product, outcome, classification and birthday asserted
  about them. Of the asserted values they state those of the number switches
  (`±1`, `2±1`); the values `∗`, `↑`, `↓` and `∗2` of lines 226, 229, 233 and
  240 are not stated, because `Value` returns None on those forms (see Left
  out). Concrete comparisons between fixtures are proved directly, by
  unfolding the order on the constants; the general lemmas are used for
  numbers, sums, products and canonical forms.

## Model

| member | source | states |
|---|---|---|
| Fixtures.FixtureForms | tests/test_game.py:13-21 | The fixtures built through the number constructor and negation have the expected option forms. 1/2 is {0\|1}. ∗ is its own negative. ↓ = -↑ is {∗\|0}. -1/2 is {-1\|0}. |
| Fixtures.OrderFixtures | tests/test_game.py:24-89 | Every pair in the four comparison tables holds. 1 > 0, 1 > 1/2, 1 > -1, 0 > -1, 0 > -1/2, ↑ > 0, 1/2 > ↑ and ↑+↑ > ∗. Also 0 >= 0 and ↑ >= ↑. |
| Order.Compare | tests/test_game.py:24-110 | The four answers of a comparison are exactly equal, less, greater and confused, each holding if and only if its relation does. |
| Order.LeRefl | tests/test_game.py:33-34 | Every game is <= itself. No Left option is >= the game, and no Right option is <= it. |
| Order.LeTrans | tests/test_game.py:24-89 | The order is transitive. |
| Order.EqTrans | tests/test_game.py:113-124 | Equality of games is transitive. |
| IntegerArith.IntegerLe | tests/test_game.py:24-28 | Integer games compare exactly as their integers do. |
| Numbers.DyadicLe | tests/test_game.py:24-89 | Two dyadic games over the same denominator compare exactly as their numerators do. |
| Numbers.DyadicOrder | tests/test_game.py:24-89 | m/2^j <= n/2^l as games if and only if m·2^l <= n·2^j. |
| Numbers.ReduceSpec | tests/test_game.py:14 | Lowest terms (a, i) of m/2^k satisfy m = a·2^(k-i). a is odd unless i = 0. Both pairs build the same game. |
| Numbers.DyadicScale | tests/test_game.py:14 | Writing a dyadic over a larger denominator builds the same game. |
| Numbers.DyadicInteger | tests/test_game.py:15-16 | n·2^k / 2^k builds the integer game n. |
| Numbers.NegDyadic | tests/test_game.py:29 | The negation of the game m/2^k is the game -m/2^k, structurally. |
| Arith.NegLe | tests/test_game.py:29 | Negation reverses the order, in both directions. |
| Arith.NegNeg | tests/test_game.py:20 | Negating twice gives back the game, structurally. |
| Fixtures.UpBelowPositive | tests/test_game.py:31 | ↑ lies strictly below every positive number m/2^k, with m > 0. |
| Fixtures.FuzzyFixtures | tests/test_game.py:92-110 | Each listed pair is confused: ∗ with 0 both ways, ∗ with ↑, 1 with ±1, and ±1 with -1, ∗ and 0. |
| Fixtures.StarOptionIsZero | tests/test_game.py:113-124 | {∗\|} and {\|∗} are different forms from 0, yet equal to 0. |
| Canon.CanonicalOfZero | tests/test_game.py:113-124 | Every game equal to 0 has 0 as its canonical form. |
| FixtureClasses.ImpartialFixtures | tests/test_game.py:127-135 | 0, ∗ and ∗2 are flagged impartial: their canonical forms are impartial. |
| FixtureClasses.ZeroFormsImpartial | tests/test_game.py:113-135 | {∗\|} and {\|∗}, which equal 0, are flagged impartial like 0, since their canonical form is 0. |
| FixtureClasses.PartizanFixtures | tests/test_game.py:138-148 | 1, 1/2, ↑, ↑+∗ and ±1 are flagged not impartial: their canonical forms are not impartial. |
| FixtureClasses.Star2Canonical | tests/test_game.py:130 | ∗2 = {0, ∗\|0, ∗} is canonical: no option is dominated or reversible. |
| FixtureClasses.ImpartialBySymmetry | tests/test_game.py:127-135 | A game whose Left and Right options are the same impartial games is impartial. |
| FixtureClasses.PartizanBy | tests/test_game.py:138-148 | A game with a Left option equal to none of its Right options is not impartial. |
| Classify.ImpartialNeg | tests/test_game.py:127-135 | An impartial game is its own negative, up to equality, at every node. |
| Classify.ImpartialOutcome | tests/test_game.py:127-135 | An impartial game is a win for the previous or the next player, never for Left or Right outright. |
| Classify.IsImpartialOutcome | tests/test_game.py:127-135 | A game flagged impartial is a win for the previous or the next player. |
| Classify.IsImpartialCanonical | tests/test_game.py:127-148 | On a canonical game the flag agrees with impartiality of the form itself. |
| Classify.OutcomeEq | tests/test_game.py:113-124 | Equal games have the same outcome class. |
| FixtureClasses.SwitchFixtures | tests/test_game.py:151-170 | ±1 and {2\|1} are switches. 0, 1, ↑ and ∗ are not. |
| FixtureClasses.IntegerSwitch | tests/test_game.py:151-158 | {a\|b} with integers b < a is canonical as written, and it is a switch. |
| Classify.SwitchConfused | tests/test_game.py:151-158 | A switch is confused with both of its canonical options, and its canonical form is not a number. |
| Classify.DyadicSwitchCanonical | tests/test_game.py:151-158 | {x\|y} with numbers y < x is canonical. |
| FixtureClasses.CanonicalFixtures | tests/test_game.py:174-178 | 0, 1, ∗ and ↑ are their own canonical forms. |
| FixtureClasses.CanonicalUpStar | tests/test_game.py:179 | The canonical form of ↑+∗ is {∗, 0\|0}. |
| FixtureClasses.BirthdayFixtures | tests/test_game.py:173-178 | The birthdays of 0, 1, -1, ∗ and ↑ are 0, 1, 1, 1 and 2. |
| FixtureClasses.UpStarBirthday | tests/test_game.py:179 | The canonical form of ↑+∗ is born on day 2. |
| FixtureClasses.HalfBirthday | tests/test_game.py:180 | 1/2 is born on day 2. |
| Classify.BirthdayHeight | tests/test_game.py:173-185 | The birthday never exceeds the height of the given form, and equals it on a canonical form. |
| Classify.BirthdayInteger | tests/test_game.py:174-176 | The birthday of the integer n is \|n\|. |
| Classify.DyadicCanonical | tests/test_game.py:180 | Every game built from a dyadic rational is canonical. |
| Canon.RewriteEq | tests/test_game.py:179 | Deleting a dominated option or bypassing a reversible one keeps the game equal. |
| Canon.SimplifySpec | tests/test_game.py:179 | Simplification keeps the game equal and does not raise its height. It is canonical when the options were canonical. |
| Canon.CanonicalSpec | tests/test_game.py:179 | The canonical form is canonical, equal to the game, and no higher. |
| Canon.CanonicalIdempotent | tests/test_game.py:179 | Canonicalizing a canonical game changes nothing, structurally. |
| Fixtures.AddFixtures | tests/test_game.py:188-200 | 0+0 = 0 and 1+0 = 0+1 = 1, structurally. ∗+∗ = 0 and 1+(-1) = 0. 1+∗ = ∗+1 = {1\|1}. |
| Fixtures.DominatedFirst | tests/test_game.py:196-197 | A Left option dominated by another can be dropped, in either order of the two. |
| Arith.AddZero | tests/test_game.py:192-195 | g+0 = g and 0+g = g, structurally. |
| Arith.AddComm | tests/test_game.py:192-197 | g+h = h+g up to equality. |
| Arith.AddAssoc | tests/test_game.py:188-200 | (a+b)+c = a+(b+c), structurally. |
| Arith.AddNegZero | tests/test_game.py:190-191 | g+(-g) = 0 up to equality. |
| Arith.NegAdd | tests/test_game.py:188-200 | -(g+h) = (-g)+(-h), structurally. |
| Arith.AddMonotone | tests/test_game.py:188-200 | Adding the same game on the right keeps the order. |
| Arith.AddCongruence | tests/test_game.py:188-200 | Sums of equal games are equal. |
| Arith.AddCancel | tests/test_game.py:188-200 | A common summand cancels from both sides of <=. |
| IntegerArith.AddInteger | tests/test_game.py:191-195 | The sum of the integer games a and b equals the integer game a+b. |
| Fixtures.MulFixtures | tests/test_game.py:203-211 | 0·0 = 0 and 1·(-1) = -1, structurally. ∗·∗ = ∗, (1+1)·1 = 2 and 2·1 = 1+1. |
| Fixtures.StarSquared | tests/test_game.py:205 | ∗·∗ is {0, 0\|0, 0}, a form of ∗. |
| Arith.MulZero | tests/test_game.py:204 | g·0 = 0·g = 0, structurally. |
| Arith.MulOne | tests/test_game.py:207 | g·1 = g, structurally. |
| Arith.OneMul | tests/test_game.py:208 | 1·g = g, structurally. |
| Arith.MulMinusOne | tests/test_game.py:206 | g·(-1) = -g, structurally. |
| IntegerArith.MulInteger | tests/test_game.py:206-208 | The product of the integer games a and b equals the integer game a·b. |
| Fixtures.OutcomeFixtures | tests/test_game.py:214-222 | The outcomes: 0 is Previous, ∗ is Next, 1 is Left, ↑ is Left and ↓ is Right. |
| Classify.OutcomePlay | tests/test_game.py:214-222 | The outcome class matches who wins. Left means Left wins moving first and second, Right the mirror. Previous means the second player wins, Next the first. |
| FixtureClasses.ValueFixtures | tests/test_game.py:227-228 | The value of ±1 is "±1". The value of {3\|1} is "2±1". |
| Display.ValueSwitch | tests/test_game.py:227-228 | A switch {x\|y} between numbers y < x is displayed through its mean and half-spread. |
| Display.SwitchPartsSpec | tests/test_game.py:227-228 | The mean plus the half-spread is x and the mean minus it is y. Both are in lowest terms, and the half-spread is positive when y < x. |
| Display.SwitchNotNumber | tests/test_game.py:227-228 | {x\|y} with y <= x is not recognized as a number. |
| Display.DyadicText | tests/test_game.py:249-256 | The value of m/2^k is the text "n/d", or "n" when d = 1. n/d is m/2^k in lowest terms, and d is a power of two. |
| Display.ValueDyadic | tests/test_game.py:249-256 | The value of the game m/2^k is the rendering of m/2^k in lowest terms. |
| Display.NumberValueDyadic | tests/test_game.py:249-256 | The number recognizer finds m/2^k, in lowest terms, in the game built from it. |
| Display.RenderNumberFraction | tests/test_game.py:253-256 | Reading back a rendered number gives its numerator and denominator. The text has a '/' exactly when the denominator exceeds 1. |
| Display.IntToStringValue | tests/test_game.py:256 | Reading back the decimal text of an integer gives the integer. |
| Display.NatToStringValue | tests/test_game.py:256 | Reading back the digits of a natural number gives the number. |
| Classify.DyadicNumber | tests/test_game.py:255 | Every game built from a dyadic rational is a number. |

## Left out

- Display.Value: returns None for the special forms of lines 226 and 229-243, that is ∗, ∗2, the ↑/↓ multiples, `1∗`, the tiny forms and the generic brace notation. Only numbers and number switches are rendered, because the pattern tables for the infinitesimal forms live in the library's implementation, which is not part of this model.
- Classify.IsImpartial: the flag is decided on the canonical form, as the library does, but there `Impartial` asks that every Left option equal some Right option and every Right option some Left option, recursively, rather than literal set equality of the options. That the flag is the same for all equal games is shown only where their canonical forms coincide (as for {∗|}, {|∗} and 0); in general it rests on uniqueness of canonical forms, which is not proved.
- IntegerArith: sums and products are proved to agree with arithmetic for integer games only. Dyadic sums such as 1/2 + 1/2 = 1 and dyadic products are not proved in general; the test module asserts none of them.
- Uniqueness of canonical forms is not proved. `Canonical` picks the first applicable rewrite in a fixed search order, which need not be the library's order.
- Options are sequences, not sets. Duplicates and order are kept; the order and the equalities above do not depend on them.
- Floating-point construction (`Game(1/2)`, `Game(m/2**j)`) is modelled as the exact dyadic `Dyadic(m, k)`. Python's float `as_integer_ratio` becomes `Reduce`.
- Raw integers used as games (`one + 1`, `2 * up`) are modelled as `Integer(n)`. Operator overloading and coercion are not modelled.
- Memoization of comparisons and caching of derived attributes are not modelled; they do not change results.
- The property-based harness is not modelled. Its range of m in -7..7 and j in 0..3 is covered by lemmas quantified over all m and k.
- The implementation modules of the library (`ludology/game.py`, `ludology/tools.py`) are not part of this model. Their behaviour is taken from the test module and Conway's definitions.
