/** Impartiality, switches, birthdays and display strings of the fixtures. */
module FixtureClasses {
  import opened Games
  import opened Order
  import opened Arith
  import opened Numbers
  import opened IntegerArith
  import opened Canon
  import opened Classify
  import opened Display
  import opened Fixtures

  // ---------------------------------------------------------------------
  // Impartial games

  /** A game whose options are impartial and whose two option lists are the same
      is impartial. */
  lemma ImpartialBySymmetry(g: Game)
    requires g.L == g.R
    requires forall x :: x in g.L ==> Impartial(x)
    ensures Impartial(g)
  {
    forall x | x in g.L ensures exists y :: y in g.R && Eq(x, y) {
      LeRefl(x);
    }
  }

  /** A Left option with no equal Right option makes a game partizan. */
  lemma PartizanBy(g: Game, x: Game)
    requires x in g.L
    requires forall y :: y in g.R ==> !Eq(x, y)
    ensures !Impartial(g)
  {
  }

  /** 0, * and *2 are impartial. */
  lemma ImpartialFixtures()
    ensures IsImpartial(Zero) && IsImpartial(Star) && IsImpartial(Star2)
  {
    CanonicalFixtures();
    Star2Canonical();
    CanonicalIdempotent(Star2);
    ImpartialBySymmetry(Zero);
    ImpartialBySymmetry(Star);
    ImpartialBySymmetry(Star2);
  }

  /** { * | } and { | * }, both equal to 0, are impartial like 0 itself. */
  lemma ZeroFormsImpartial()
    ensures IsImpartial(G([Star], [])) && IsImpartial(G([], [Star]))
  {
    StarOptionIsZero();
    CanonicalOfZero(G([Star], []));
    CanonicalOfZero(G([], [Star]));
    ImpartialBySymmetry(Zero);
  }

  /** 1, 1/2, up, up + * and +-1 are not impartial: in each canonical form some
      Left option has no equal Right option. */
  lemma PartizanFixtures()
    ensures !IsImpartial(One) && !IsImpartial(Half) && !IsImpartial(Up)
    ensures !IsImpartial(Add(Up, Star)) && !IsImpartial(Pm)
  {
    FixtureForms();
    IntegerComparisons();
    CanonicalFixtures();
    PartizanBy(One, Zero);
    PartizanBy(Up, Zero);
    HalfPartizan();
    PmPartizan();
    UpStarPartizan();
  }

  lemma HalfPartizan()
    ensures !IsImpartial(Half)
  {
    FixtureForms();
    IntegerComparisons();
    DyadicCanonical(1, 1);
    CanonicalIdempotent(Half);
    PartizanBy(Half, Zero);
  }

  lemma PmPartizan()
    ensures !IsImpartial(Pm)
  {
    IntegerOne();
    IntegerComparisons();
    IntegerSwitch(1, -1);
    PartizanBy(Pm, One);
  }

  lemma UpStarPartizan()
    ensures !IsImpartial(Add(Up, Star))
  {
    StarComparisons();
    CanonicalUpStar();
    PartizanBy(G([Star, Zero], [Zero]), Star);
  }

  // ---------------------------------------------------------------------
  // Canonical fixtures

  /** 0 and * have no dominated or reversible options, nor do their options. */
  lemma StarCanonical()
    ensures IsCanonical(Zero) && IsCanonical(Star)
  {
    DyadicCanonical(0, 0);
    assert Dyadic(0, 0) == Zero;
    forall r: Reduction, i: nat, j: nat ensures !Applies(Star, r, i, j) {
    }
  }

  /** *2 = { 0, * | 0, * } is canonical: 0 and * are confused, and the replies 0
      to the moves to * do not reverse them, since 0 is an option on both sides. */
  lemma Star2Canonical()
    ensures IsCanonical(Star2)
  {
    StarCanonical();
    StarComparisons();
    LeRefl(Zero);
    NotLeByRight(Zero, Star2, Zero);
    NotLeByLeft(Star2, Zero, Zero);
    forall r: Reduction, i: nat, j: nat ensures !Applies(Star2, r, i, j) {
    }
  }

  /** up = { 0 | * } is canonical: Left's reply 0 to Right's move to * is not
      >= up. */
  lemma UpCanonical()
    ensures IsCanonical(Up)
  {
    StarCanonical();
    UpComparisons();
    forall r: Reduction, i: nat, j: nat ensures !Applies(Up, r, i, j) {
      if r == ReversibleRight && i == 0 && j == 0 {
        assert Up.R[0].L[0] == Zero;
      }
    }
  }

  /** The canonical forms of 0, 1, * and up are themselves. */
  lemma CanonicalFixtures()
    ensures Canonical(Zero) == Zero && Canonical(One) == One
    ensures Canonical(Star) == Star && Canonical(Up) == Up
  {
    StarCanonical();
    UpCanonical();
    DyadicCanonical(1, 0);
    IntegerOne();
    CanonicalIdempotent(Zero);
    CanonicalIdempotent(One);
    CanonicalIdempotent(Star);
    CanonicalIdempotent(Up);
  }

  // ---------------------------------------------------------------------
  // Switches

  /** { a | b } for integers a > b is its own canonical form and a switch. */
  lemma IntegerSwitch(a: int, b: int)
    requires b < a
    ensures Canonical(G([Integer(a)], [Integer(b)])) == G([Integer(a)], [Integer(b)])
    ensures IsSwitch(G([Integer(a)], [Integer(b)]))
  {
    var g := G([Integer(a)], [Integer(b)]);
    IntegerLe(a, b);
    IntegerLe(b, a);
    assert Dyadic(a, 0) == Integer(a) && Dyadic(b, 0) == Integer(b);
    DyadicSwitchCanonical(a, 0, b, 0);
    CanonicalIdempotent(g);
    DyadicNumber(a, 0);
    DyadicNumber(b, 0);
  }

  /** +-1 and { 2 | 1 } are switches; 0, 1, up and * are not. */
  lemma SwitchFixtures()
    ensures IsSwitch(Pm) && IsSwitch(G([Integer(2)], [Integer(1)]))
    ensures !IsSwitch(Zero) && !IsSwitch(One) && !IsSwitch(Up) && !IsSwitch(Star)
  {
    IntegerOne();
    IntegerSwitch(1, -1);
    IntegerSwitch(2, 1);
    CanonicalFixtures();
    LeRefl(Zero);
    assert Zero in Star.L && Zero in Star.R;
    assert !IsNumber(Star);
  }

  // ---------------------------------------------------------------------
  // The canonical form of up + *

  /** When reduction r applies at (i, j) and nowhere before it, the search finds
      exactly (i, j). */
  lemma FindsFirst(g: Game, r: Reduction, i: nat, j: nat)
    requires Applies(g, r, i, j)
    requires forall a: nat, b: nat :: !AtOrAfter(a, b, i, j) ==> !Applies(g, r, a, b)
    ensures FindFrom(g, r, 0, 0) == Some((i, j))
  {
    var res := FindFrom(g, r, 0, 0);
    assert AtOrAfter(i, j, 0, 0);
    assert res.Some?;
    var (p, q) := res.value;
    assert AtOrAfter(p, q, i, j);
    assert AtOrAfter(i, j, p, q);
  }

  /** The search for a reduction that applies nowhere comes back empty. */
  lemma FindsNothing(g: Game, r: Reduction)
    requires forall a: nat, b: nat :: !Applies(g, r, a, b)
    ensures FindFrom(g, r, 0, 0) == None
  {
  }

  /** The canonical form of { a, b | c, d } simplifies the game of the options'
      canonical forms. */
  lemma CanonicalOfPairs(a: Game, b: Game, c: Game, d: Game)
    ensures Canonical(G([a, b], [c, d])) ==
      Simplify(G([Canonical(a), Canonical(b)], [Canonical(c), Canonical(d)]))
  {
    var g := G([a, b], [c, d]);
    var h := G(seq(|g.L|, i requires 0 <= i < |g.L| => Canonical(g.L[i])),
               seq(|g.R|, i requires 0 <= i < |g.R| => Canonical(g.R[i])));
    assert Canonical(g) == Simplify(h);
    assert |h.L| == 2 && h.L[0] == Canonical(a) && h.L[1] == Canonical(b);
    assert |h.R| == 2 && h.R[0] == Canonical(c) && h.R[1] == Canonical(d);
    PairSeq(h.L, Canonical(a), Canonical(b));
    PairSeq(h.R, Canonical(c), Canonical(d));
  }

  lemma PairSeq(s: seq<Game>, x: Game, y: Game)
    requires |s| == 2 && s[0] == x && s[1] == y
    ensures s == [x, y]
  {
  }

  /** * + * is a form of 0, so its canonical form is 0. */
  lemma CanonicalStarStar()
    ensures Canonical(Add(Star, Star)) == Zero
  {
    FixtureForms();
    AddNegZero(Star);
    CanonicalOfZero(Add(Star, Star));
  }

  /** up + * with canonical options: { *, up | 0, up }. */
  lemma UpStarOptions()
    ensures Canonical(Add(Up, Star)) == Simplify(G([Star, Up], [Zero, Up]))
  {
    SmallSums();
    CanonicalFixtures();
    CanonicalStarStar();
    CanonicalOfPairs(Star, Up, Add(Star, Star), Up);
  }

  /** In { *, up | 0, up } Right's move to up is dominated by the move to 0. */
  lemma UpStarFirstStep()
    ensures Simplify(G([Star, Up], [Zero, Up])) == Simplify(G([Star, Up], [Zero]))
  {
    var h := G([Star, Up], [Zero, Up]);
    UpComparisons();
    LeRefl(Up);
    LeRefl(Star);
    forall a: nat, b: nat ensures !Applies(h, DominatedLeft, a, b) {
    }
    FindsNothing(h, DominatedLeft);
    FindsFirst(h, DominatedRight, 1, 0);
    assert FirstReduction(h) == Some((DominatedRight, 1, 0));
    assert Rewrite(h, DominatedRight, 1, 0) == G([Star, Up], [Zero]);
  }

  /** In { *, up | 0 } Left's move to up is reversed through *, and bypassing it
      leaves { *, 0 | 0 }. */
  lemma UpStarSecondStep()
    ensures Simplify(G([Star, Up], [Zero])) == Simplify(G([Star, Zero], [Zero]))
  {
    var h := G([Star, Up], [Zero]);
    UpStarReplies();
    UpComparisons();
    forall a: nat, b: nat ensures !Applies(h, DominatedLeft, a, b) && !Applies(h, DominatedRight, a, b) {
    }
    FindsNothing(h, DominatedLeft);
    FindsNothing(h, DominatedRight);
    FindsFirst(h, ReversibleLeft, 1, 0);
    assert FirstReduction(h) == Some((ReversibleLeft, 1, 0));
    assert Rewrite(h, ReversibleLeft, 1, 0) == G([Star, Zero], [Zero]);
  }

  /** In { *, up | 0 }, Right's reply * to up is <= the game, and Right's reply 0
      to * is not. */
  lemma UpStarReplies()
    ensures Le(Star, G([Star, Up], [Zero])) && !Le(Zero, G([Star, Up], [Zero]))
  {
    var h := G([Star, Up], [Zero]);
    UpComparisons();
    StarComparisons();
    LeRefl(Zero);
    NotLeByLeft(h, Zero, Up);
    NotLeByRight(Zero, h, Zero);
  }

  /** { *, 0 | 0 } is reduced. */
  lemma UpStarReduced()
    ensures Reduced(G([Star, Zero], [Zero]))
  {
    var h := G([Star, Zero], [Zero]);
    StarComparisons();
    LeRefl(Zero);
    NotLeByRight(Zero, h, Zero);
    forall r: Reduction, a: nat, b: nat ensures !Applies(h, r, a, b) {
    }
  }

  /** The canonical form of up + * is { 0, * | 0 }. */
  lemma CanonicalUpStar()
    ensures Canonical(Add(Up, Star)) == G([Star, Zero], [Zero])
  {
    UpStarOptions();
    UpStarFirstStep();
    UpStarSecondStep();
    UpStarReduced();
    SimplifyReduced(G([Star, Zero], [Zero]));
  }

  // ---------------------------------------------------------------------
  // Birthdays

  lemma SmallHeights()
    ensures Height(Star) == 1 && Height(Up) == 2
    ensures Height(G([Zero], [One])) == 2 && Height(G([Star, Zero], [Zero])) == 2
  {
    assert [Zero][..0] == [] && [Star][..0] == [] && [One][..0] == [];
    assert MaxHeight([Zero]) == 0;
    assert Height(Star) == 1;
    assert MaxHeight([Star]) == 1;
    assert Height(One) == 1;
    assert MaxHeight([One]) == 1;
    assert [Star, Zero][..1] == [Star];
    assert MaxHeight([Star, Zero]) == 1;
  }

  /** The birthdays of the fixtures. */
  lemma BirthdayFixtures()
    ensures Birthday(Zero) == 0 && Birthday(One) == 1 && Birthday(MinusOne) == 1
    ensures Birthday(Star) == 1 && Birthday(Up) == 2
  {
    IntegerOne();
    BirthdayInteger(0);
    BirthdayInteger(1);
    BirthdayInteger(-1);
    SmallHeights();
    CanonicalFixtures();
  }

  /** 1/2 = { 0 | 1 } is canonical and born on day 2. */
  lemma HalfBirthday()
    ensures Birthday(Half) == 2
  {
    FixtureForms();
    DyadicCanonical(1, 1);
    BirthdayHeight(Half);
    SmallHeights();
  }

  /** The canonical form { *, 0 | 0 } of up + * is born on day 2. */
  lemma UpStarBirthday()
    ensures Birthday(Canonical(Add(Up, Star))) == 2
  {
    var c := Canonical(Add(Up, Star));
    CanonicalSpec(Add(Up, Star));
    CanonicalIdempotent(c);
    CanonicalUpStar();
    SmallHeights();
  }

  // ---------------------------------------------------------------------
  // Display strings

  /** +-1 is shown as "±1" and { 3 | 1 } as "2±1". */
  lemma ValueFixtures()
    ensures Value(Pm) == Some("±1")
    ensures Value(G([Integer(3)], [Integer(1)])) == Some("2±1")
  {
    PmValue();
    ThreeOneValue();
  }

  lemma PmValue()
    ensures Value(Pm) == Some("±1")
  {
    IntegerOne();
    IntegerComparisons();
    assert Pm == G([Dyadic(1, 0)], [Dyadic(-1, 0)]);
    ValueSwitch(1, 0, -1, 0);
    PmText();
  }

  lemma PmText()
    ensures RenderSwitch(Reduce(1, 0), Reduce(-1, 0)) == "±1"
  {
    assert Reduce(1, 0) == (1, 0) && Reduce(-1, 0) == (-1, 0);
    assert SwitchParts((1, 0), (-1, 0)) == ((0, 0), (1, 0));
    assert NatToString(1) == "1";
  }

  lemma ThreeOneValue()
    ensures Value(G([Integer(3)], [Integer(1)])) == Some("2±1")
  {
    IntegerLe(3, 1);
    IntegerLe(1, 3);
    assert G([Integer(3)], [Integer(1)]) == G([Dyadic(3, 0)], [Dyadic(1, 0)]);
    ValueSwitch(3, 0, 1, 0);
    ThreeOneText();
  }

  lemma ThreeOneText()
    ensures RenderSwitch(Reduce(3, 0), Reduce(1, 0)) == "2±1"
  {
    assert Reduce(3, 0) == (3, 0) && Reduce(1, 0) == (1, 0);
    assert SwitchParts((3, 0), (1, 0)) == ((2, 0), (1, 0));
    assert NatToString(2) == "2" && NatToString(1) == "1";
  }
}
