/** The small games the library is exercised on, and the comparisons, sums,
    products and outcomes stated about them. */
module Fixtures {
  import opened Games
  import opened Order
  import opened Arith
  import opened Numbers
  import opened IntegerArith
  import opened Canon
  import opened Classify

  // ---------------------------------------------------------------------
  // The fixtures

  /** 1/2 = { 0 | 1 }. */
  const Half: Game := Dyadic(1, 1)
  /** * = { 0 | 0 }. */
  const Star: Game := G([Zero], [Zero])
  /** *2 = { 0, * | 0, * }. */
  const Star2: Game := G([Zero, Star], [Zero, Star])
  /** up = { 0 | * }. */
  const Up: Game := G([Zero], [Star])
  /** down = -up. */
  const Down: Game := Neg(Up)
  /** +-1 = { 1 | -1 }. */
  const Pm: Game := G([One], [MinusOne])

  /** The fixtures built through the library's constructors have the expected forms. */
  lemma FixtureForms()
    ensures Half == G([Zero], [One])
    ensures Neg(Star) == Star
    ensures Down == G([Star], [Zero])
    ensures Neg(Half) == G([MinusOne], [Zero])
  {
    IntegerOne();
    NegZero();
    assert Neg(Star) == G([Neg(Zero)], [Neg(Zero)]);
    assert Down == G([Neg(Star)], [Neg(Zero)]);
    assert Neg(Half) == G([Neg(One)], [Neg(Zero)]);
    assert Neg(One) == G([], [Neg(Zero)]);
  }

  // ---------------------------------------------------------------------
  // Basic comparisons

  lemma IntegerComparisons()
    ensures Lt(Zero, One) && Lt(MinusOne, Zero) && Lt(MinusOne, One)
  {
    IntegerOne();
    IntegerLe(0, 1);
    IntegerLe(1, 0);
    IntegerLe(-1, 0);
    IntegerLe(0, -1);
    IntegerLe(-1, 1);
    IntegerLe(1, -1);
  }

  /** * is confused with 0, lies below 1 and above -1. */
  lemma StarComparisons()
    ensures Fuzzy(Star, Zero)
    ensures Lt(Star, One) && Lt(MinusOne, Star)
  {
    LeRefl(Zero);
    IntegerComparisons();
    NotLeByLeft(Star, Zero, Zero);
    NotLeByRight(Zero, Star, Zero);
    NotLeByLeft(One, Zero, Zero);
    NotLeByRight(Zero, MinusOne, Zero);
    NotLeByRight(One, Star, Zero);
    NotLeByLeft(Star, MinusOne, Zero);
  }

  /** up is positive and confused with *. */
  lemma UpComparisons()
    ensures Lt(Zero, Up)
    ensures Fuzzy(Star, Up)
  {
    LeRefl(Zero);
    LeRefl(Star);
    StarComparisons();
    NotLeByLeft(Up, Zero, Zero);
    NotLeByRight(Star, Up, Star);
    NotLeByRight(Up, Star, Zero);
  }

  /** up lies below 1/2. */
  lemma UpBelowHalf()
    ensures Lt(Up, Half)
  {
    UpBelowPositive(1, 1);
  }

  /** up is positive yet lies below every positive number m / 2^k. */
  lemma UpBelowPositive(m: int, k: nat)
    requires m > 0
    ensures Lt(Up, Dyadic(m, k))
  {
    var d := Dyadic(m, k);
    PositiveAboveZero(m, k);
    PositiveRight(m, k);
    if |d.R| == 1 {
      StarBelowPositive(m + Step(m, k), k);
      NotLeByRight(d.R[0], Up, Star);
    }
    assert Le(Up, d);
    StarBelowPositive(m, k);
    NotLeByRight(d, Up, Star);
  }

  /** A positive number is above 0 and not below it. */
  lemma PositiveAboveZero(m: int, k: nat)
    requires m > 0
    ensures Le(Zero, Dyadic(m, k)) && !Le(Dyadic(m, k), Zero)
  {
    IntegerOne();
    DyadicOrder(m, k, 0, 0);
    DyadicOrder(0, 0, m, k);
  }

  /** The Right option of a positive number, if any, is a positive number too. */
  lemma PositiveRight(m: int, k: nat)
    requires m > 0
    ensures |Dyadic(m, k).R| == 1 ==> Dyadic(m, k).R[0] == Dyadic(m + Step(m, k), k)
    ensures |Dyadic(m, k).R| <= 1
  {
    DyadicOptions(m, k);
  }

  /** * lies below every positive number. */
  lemma StarBelowPositive(m: int, k: nat)
    requires m > 0
    ensures Le(Star, Dyadic(m, k))
  {
    var d := Dyadic(m, k);
    PositiveAboveZero(m, k);
    PositiveRight(m, k);
    if |d.R| == 1 {
      PositiveAboveZero(m + Step(m, k), k);
      NotLeByRight(d.R[0], Star, Zero);
    }
  }

  // ---------------------------------------------------------------------
  // Sums of the fixtures

  /** The sums of up and * with each other, option by option. */
  lemma SmallSums()
    ensures Add(Star, Star) == G([Star, Star], [Star, Star])
    ensures Add(Up, Star) == G([Star, Up], [Add(Star, Star), Up])
    ensures Add(Star, Up) == G([Up, Star], [Up, Add(Star, Star)])
    ensures Add(Up, Up) == G([Up, Up], [Add(Star, Up), Add(Up, Star)])
  {
    AddZero(Star);
    AddZero(Up);
    assert Add(Star, Star) == G([Add(Zero, Star), Add(Star, Zero)], [Add(Zero, Star), Add(Star, Zero)]);
    assert Add(Up, Star) == G([Add(Zero, Star), Add(Up, Zero)], [Add(Star, Star), Add(Up, Zero)]);
    assert Add(Star, Up) == G([Add(Zero, Up), Add(Star, Zero)], [Add(Zero, Up), Add(Star, Star)]);
    assert Add(Up, Up) == G([Add(Zero, Up), Add(Up, Zero)], [Add(Star, Up), Add(Up, Star)]);
  }

  /** up + up lies above *. */
  lemma UpUpAboveStar()
    ensures Lt(Star, Add(Up, Up))
  {
    SmallSums();
    UpUpFormAboveStar(Add(Star, Star));
  }

  lemma UpUpFormAboveStar(s: Game)
    ensures var uu := G([Up, Up], [G([Up, Star], [Up, s]), G([Star, Up], [s, Up])]);
      Lt(Star, uu)
  {
    var a, b := G([Up, Star], [Up, s]), G([Star, Up], [s, Up]);
    var uu := G([Up, Up], [a, b]);
    UpComparisons();
    LeRefl(Star);
    NotLeByLeft(a, Star, Star);
    NotLeByLeft(b, Star, Star);
    NotLeByLeft(uu, Zero, Up);
    assert Le(Star, uu);
    NotLeByLeft(a, Zero, Up);
    NotLeByLeft(b, Zero, Up);
    assert Le(Zero, uu);
    NotLeByRight(uu, Star, Zero);
  }

  // ---------------------------------------------------------------------
  // The order on the fixtures

  /** The strict comparisons between the fixtures; each also reads as the
      reversed pair under less-than, and holds with >= and <= as well. */
  lemma OrderFixtures()
    ensures Gt(One, Zero) && Gt(One, Half) && Gt(One, MinusOne) && Gt(Zero, MinusOne)
    ensures Gt(Zero, Neg(Half)) && Gt(Up, Zero) && Gt(Half, Up) && Gt(Add(Up, Up), Star)
    ensures Ge(Zero, Zero) && Ge(Up, Up)
  {
    IntegerComparisons();
    FixtureForms();
    IntegerOne();
    DyadicOrder(1, 1, 1, 0);
    DyadicOrder(1, 0, 1, 1);
    DyadicOrder(-1, 1, 0, 0);
    DyadicOrder(0, 0, -1, 1);
    assert Dyadic(-1, 1) == G([MinusOne], [Zero]);
    UpComparisons();
    UpBelowHalf();
    UpUpAboveStar();
    LeRefl(Zero);
    LeRefl(Up);
  }

  /** The confused pairs. */
  lemma FuzzyFixtures()
    ensures Fuzzy(Star, Zero) && Fuzzy(Zero, Star) && Fuzzy(Star, Up)
    ensures Fuzzy(One, Pm) && Fuzzy(Pm, MinusOne) && Fuzzy(Pm, Star) && Fuzzy(Pm, Zero)
  {
    StarComparisons();
    UpComparisons();
    IntegerComparisons();
    LeRefl(One);
    LeRefl(MinusOne);
    NotLeByRight(One, Pm, MinusOne);
    NotLeByLeft(Pm, One, One);
    NotLeByLeft(Pm, MinusOne, One);
    NotLeByRight(MinusOne, Pm, MinusOne);
    NotLeByLeft(Pm, Star, One);
    NotLeByRight(Star, Pm, MinusOne);
    NotLeByLeft(Pm, Zero, One);
    NotLeByRight(Zero, Pm, MinusOne);
  }

  /** { * | } and { | * } are different forms of 0. */
  lemma StarOptionIsZero()
    ensures G([Star], []) != Zero && Eq(G([Star], []), Zero)
    ensures G([], [Star]) != Zero && Eq(G([], [Star]), Zero)
  {
    StarComparisons();
  }

  /** The sums in the library's examples. */
  lemma AddFixtures()
    ensures Add(Zero, Zero) == Zero
    ensures Eq(Add(Star, Star), Zero)
    ensures Eq(Add(One, MinusOne), Zero)
    ensures Add(One, Zero) == One && Add(Zero, One) == One
    ensures Eq(Add(One, Star), G([One], [One])) && Eq(Add(Star, One), G([One], [One]))
  {
    AddZero(Zero);
    AddZero(One);
    FixtureForms();
    AddNegZero(Star);
    IntegerOne();
    AddInteger(1, -1);
    // 1 + * and * + 1 are { 1 | 1 }: the Left move to * is dominated by the move to 1
    OneStarForms();
    StarComparisons();
    DominatedFirst(Star, One, [One]);
  }

  lemma OneStarForms()
    ensures Add(One, Star) == G([Star, One], [One])
    ensures Add(Star, One) == G([One, Star], [One])
  {
    AddZero(One);
    AddZero(Star);
    assert Add(One, Star) == G([Add(Zero, Star), Add(One, Zero)], [Add(One, Zero)]);
    assert Add(Star, One) == G([Add(Zero, One), Add(Star, Zero)], [Add(Zero, One)]);
  }

  /** A Left option x <= another Left option y can be dropped, in either order. */
  lemma DominatedFirst(x: Game, y: Game, r: seq<Game>)
    requires Le(x, y)
    ensures Eq(G([x, y], r), G([y], r)) && Eq(G([y, x], r), G([y], r))
  {
    var g1, g2 := G([x, y], r), G([y, x], r);
    assert Applies(g1, DominatedLeft, 0, 1) && Applies(g2, DominatedLeft, 1, 0);
    DominatedLeftEq(g1, 0, 1);
    DominatedLeftEq(g2, 1, 0);
    assert Rewrite(g1, DominatedLeft, 0, 1) == G([y], r);
    assert Rewrite(g2, DominatedLeft, 1, 0) == G([y], r);
    EqSymm(G([y], r), g1);
    EqSymm(G([y], r), g2);
  }

  // ---------------------------------------------------------------------
  // Products of the fixtures

  /** * times * is { 0, 0 | 0, 0 }, a form of *. */
  lemma StarSquared()
    ensures Mul(Star, Star) == G([Zero, Zero], [Zero, Zero])
    ensures Eq(Mul(Star, Star), Star)
  {
    TermsSingle(Star, Star, [Zero], Zero);
    MulZero(Star);
    MulZero(Zero);
    AddZero(Zero);
    NegZero();
    assert Term(Star, Star, Zero, Zero) == Zero;
    var p := G([Zero, Zero], [Zero, Zero]);
    LeByCover(p, Star);
    LeByCover(Star, p);
  }

  /** The products in the library's examples. */
  lemma MulFixtures()
    ensures Mul(Zero, Zero) == Zero
    ensures Eq(Mul(Star, Star), Star)
    ensures Mul(One, MinusOne) == MinusOne
    ensures Eq(Mul(Add(One, One), One), Integer(2))
    ensures Eq(Mul(Integer(2), One), Add(One, One))
  {
    MulZero(Zero);
    StarSquared();
    MulMinusOne(One);
    NegZero();
    assert Neg(One) == G([], [Neg(Zero)]);
    IntegerOne();
    MulOne(Add(One, One));
    MulOne(Integer(2));
    AddInteger(1, 1);
    EqSymm(Add(One, One), Integer(2));
  }

  // ---------------------------------------------------------------------
  // Outcomes of the fixtures

  lemma OutcomeFixtures()
    ensures OutcomeOf(Zero) == Previous
    ensures OutcomeOf(Star) == Next
    ensures OutcomeOf(One) == Left
    ensures OutcomeOf(Up) == Left
    ensures OutcomeOf(Down) == Right
  {
    LeRefl(Zero);
    StarComparisons();
    IntegerComparisons();
    UpComparisons();
    NegZero();
    NegLe(Zero, Up);
    NegLe(Up, Zero);
  }
}
