/** Classification of games: the outcome class, impartiality, numbers, switches
    and the birthday. */
module Classify {
  import opened Games
  import opened Order
  import opened Arith
  import opened Numbers
  import opened Canon

  // ---------------------------------------------------------------------
  // Outcome classes

  /** Who wins under normal play: Left whoever starts, Right whoever starts, the
      second player (Previous) or the first player (Next). */
  datatype Outcome = Left | Right | Previous | Next

  /** The outcome class, read off the comparison with 0. */
  function OutcomeOf(g: Game): Outcome
  {
    match Compare(g, Zero)
    case Greater => Left
    case Less => Right
    case Equal => Previous
    case Confused => Next
  }

  /** Left, moving first, has a move to a position Left wins moving second. */
  predicate LeftWinsFirst(g: Game)
    decreases g
  {
    exists x :: x in g.L && LeftWinsSecond(x)
  }

  /** Left wins moving second: every Right move leads to a position Left wins moving
      first; a player who cannot move loses. */
  predicate LeftWinsSecond(g: Game)
    decreases g
  {
    forall y :: y in g.R ==> LeftWinsFirst(y)
  }

  predicate RightWinsFirst(g: Game)
    decreases g
  {
    exists y :: y in g.R && RightWinsSecond(y)
  }

  predicate RightWinsSecond(g: Game)
    decreases g
  {
    forall x :: x in g.L ==> RightWinsFirst(x)
  }

  /** 0 <= g exactly when Left wins g moving second. */
  lemma {:induction false} ZeroLePlay(g: Game)
    ensures Le(Zero, g) <==> LeftWinsSecond(g)
    decreases g
  {
    forall y | y in g.R ensures !Le(y, Zero) <==> LeftWinsFirst(y) {
      forall x | x in y.L ensures Le(Zero, x) <==> LeftWinsSecond(x) {
        ZeroLePlay(x);
      }
    }
  }

  /** g <= 0 exactly when Right wins g moving second. */
  lemma {:induction false} LeZeroPlay(g: Game)
    ensures Le(g, Zero) <==> RightWinsSecond(g)
    decreases g
  {
    forall x | x in g.L ensures !Le(Zero, x) <==> RightWinsFirst(x) {
      forall y | y in x.R ensures Le(y, Zero) <==> RightWinsSecond(y) {
        LeZeroPlay(y);
      }
    }
  }

  /** Every game is determined: exactly one player wins it, for either starter. */
  lemma {:induction false} Determined(g: Game)
    ensures LeftWinsFirst(g) <==> !RightWinsSecond(g)
    ensures RightWinsFirst(g) <==> !LeftWinsSecond(g)
    decreases g
  {
    forall x | x in g.L ensures LeftWinsSecond(x) <==> !RightWinsFirst(x) {
      Determined(x);
    }
    forall y | y in g.R ensures RightWinsSecond(y) <==> !LeftWinsFirst(y) {
      Determined(y);
    }
  }

  /** The outcome read off the order agrees with who wins the game in play. */
  lemma OutcomePlay(g: Game)
    ensures OutcomeOf(g) == Left <==> LeftWinsFirst(g) && LeftWinsSecond(g)
    ensures OutcomeOf(g) == Right <==> RightWinsFirst(g) && RightWinsSecond(g)
    ensures OutcomeOf(g) == Previous <==> LeftWinsSecond(g) && RightWinsSecond(g)
    ensures OutcomeOf(g) == Next <==> LeftWinsFirst(g) && RightWinsFirst(g)
  {
    ZeroLePlay(g);
    LeZeroPlay(g);
    Determined(g);
  }

  // ---------------------------------------------------------------------
  // Impartial games

  /** Both players have the same moves, up to equality, here and in every position
      that can be reached. */
  predicate Impartial(g: Game)
    decreases g
  {
    (forall x :: x in g.L ==> Impartial(x)) &&
    (forall y :: y in g.R ==> Impartial(y)) &&
    Matched(g)
  }

  /** The impartiality flag of a game: its canonical form is impartial. Equal
      games with the same canonical form get the same flag. */
  predicate IsImpartial(g: Game)
  {
    Impartial(Canonical(g))
  }

  /** Every Left option has an equal Right option and every Right option an equal
      Left option. */
  predicate Matched(g: Game)
  {
    (forall x :: x in g.L ==> exists y :: y in g.R && Eq(x, y)) &&
    (forall y :: y in g.R ==> exists x :: x in g.L && Eq(x, y))
  }

  /** g is equal to its own negative. */
  predicate SelfNegative(g: Game)
  {
    Eq(g, Neg(g))
  }

  /** An impartial game is its own negative. */
  lemma {:induction false} ImpartialNeg(g: Game)
    requires Impartial(g)
    ensures SelfNegative(g)
    decreases g
  {
    forall z | z in g.L || z in g.R ensures SelfNegative(z) {
      ImpartialNeg(z);
    }
    SelfNegativeByOptions(g);
  }

  /** g = -g once g's options match among themselves and each is its own negative. */
  lemma SelfNegativeByOptions(g: Game)
    requires Matched(g)
    requires forall z :: z in g.L || z in g.R ==> SelfNegative(z)
    ensures SelfNegative(g)
  {
    NegMatch(g);
    MirrorLe(g, Neg(g));
    MirrorGe(g, Neg(g));
  }

  /** When every option is equal to its negative, the options of -g match those of
      g up to equality. */
  lemma NegMatch(g: Game)
    requires forall z :: z in g.L || z in g.R ==> SelfNegative(z)
    ensures forall y :: y in g.R ==> exists z :: z in Neg(g).L && Eq(y, z)
    ensures forall x :: x in g.L ==> exists z :: z in Neg(g).R && Eq(x, z)
    ensures forall z :: z in Neg(g).L ==> exists y :: y in g.R && Eq(y, z)
    ensures forall z :: z in Neg(g).R ==> exists x :: x in g.L && Eq(x, z)
  {
    var h := Neg(g);
    assert |h.L| == |g.R| && |h.R| == |g.L|;
    forall y | y in g.R ensures exists z :: z in h.L && Eq(y, z) {
      var i :| 0 <= i < |g.R| && g.R[i] == y;
      assert h.L[i] == Neg(y);
    }
    forall x | x in g.L ensures exists z :: z in h.R && Eq(x, z) {
      var i :| 0 <= i < |g.L| && g.L[i] == x;
      assert h.R[i] == Neg(x);
    }
    forall z | z in h.L ensures exists y :: y in g.R && Eq(y, z) {
      var i :| 0 <= i < |h.L| && h.L[i] == z;
      assert g.R[i] in g.R;
    }
    forall z | z in h.R ensures exists x :: x in g.L && Eq(x, z) {
      var i :| 0 <= i < |h.R| && h.R[i] == z;
      assert g.L[i] in g.L;
    }
  }

  /** g <= h when g's Left and Right options match up to equality, h's Left options
      match g's Right ones and h's Right options match g's Left ones. */
  lemma MirrorLe(g: Game, h: Game)
    requires forall x :: x in g.L ==> exists y :: y in g.R && Eq(x, y)
    requires forall y :: y in g.R ==> exists z :: z in h.L && Eq(y, z)
    requires forall z :: z in h.R ==> exists x :: x in g.L && Eq(x, z)
    ensures Le(g, h)
  {
    forall x | x in g.L ensures exists z :: z in h.L && Le(x, z) {
      var y :| y in g.R && Eq(x, y);
      var z :| z in h.L && Eq(y, z);
      LeTrans(x, y, z);
    }
    forall z | z in h.R ensures exists y :: y in g.R && Le(y, z) {
      var x :| x in g.L && Eq(x, z);
      var y :| y in g.R && Eq(x, y);
      LeTrans(y, x, z);
    }
    LeByOptions(g, h);
  }

  /** The mirror image of MirrorLe: h <= g under the same matching. */
  lemma MirrorGe(g: Game, h: Game)
    requires forall y :: y in g.R ==> exists x :: x in g.L && Eq(x, y)
    requires forall x :: x in g.L ==> exists z :: z in h.R && Eq(x, z)
    requires forall z :: z in h.L ==> exists y :: y in g.R && Eq(y, z)
    ensures Le(h, g)
  {
    forall z | z in h.L ensures exists x :: x in g.L && Le(z, x) {
      var y :| y in g.R && Eq(y, z);
      var x :| x in g.L && Eq(x, y);
      LeTrans(z, y, x);
    }
    forall y | y in g.R ensures exists z :: z in h.R && Le(z, y) {
      var x :| x in g.L && Eq(x, y);
      var z :| z in h.R && Eq(x, z);
      LeTrans(z, x, y);
    }
    LeByOptions(h, g);
  }

  /** An impartial game is won by the first or by the second player, never by a
      fixed one. */
  lemma ImpartialOutcome(g: Game)
    requires Impartial(g)
    ensures OutcomeOf(g) == Previous || OutcomeOf(g) == Next
  {
    ImpartialNeg(g);
    NegLe(Zero, g);
    NegZero();
    if Le(Zero, g) {
      LeTrans(g, Neg(g), Zero);
    }
    if Le(g, Zero) {
      NegLe(g, Zero);
      LeTrans(Zero, Neg(g), g);
    }
  }
  /** Equal games have the same outcome. */
  lemma OutcomeEq(g: Game, h: Game)
    requires Eq(g, h)
    ensures OutcomeOf(g) == OutcomeOf(h)
  {
    EqSubstLeft(g, h, Zero);
  }

  /** A game with an impartial canonical form is won by the first or by the second
      player, never by a fixed one. */
  lemma IsImpartialOutcome(g: Game)
    requires IsImpartial(g)
    ensures OutcomeOf(g) == Previous || OutcomeOf(g) == Next
  {
    CanonicalSpec(g);
    ImpartialOutcome(Canonical(g));
    OutcomeEq(Canonical(g), g);
  }

  /** A canonical game carries the flag exactly when it is impartial as it stands. */
  lemma IsImpartialCanonical(g: Game)
    requires IsCanonical(g)
    ensures IsImpartial(g) <==> Impartial(g)
  {
    CanonicalIdempotent(g);
  }


  // ---------------------------------------------------------------------
  // Numbers

  /** Conway's numbers: every option is a number and no Left option is >= any Right
      option. */
  predicate IsNumber(g: Game)
    decreases g
  {
    (forall x :: x in g.L ==> IsNumber(x)) &&
    (forall y :: y in g.R ==> IsNumber(y)) &&
    (forall x, y :: x in g.L && y in g.R ==> !Le(y, x))
  }

  /** Every dyadic rational is a number. */
  lemma {:induction false} DyadicNumber(m: int, k: nat)
    ensures IsNumber(Dyadic(m, k))
    decreases Size(Dyadic(m, k))
  {
    var g := Dyadic(m, k);
    DyadicShape(m, k);
    if |g.L| == 1 {
      DyadicNumber(m - Step(m, k), k);
    }
    if |g.R| == 1 {
      DyadicNumber(m + Step(m, k), k);
    }
    SinglesNumber(g);
  }

  /** The options of a game with at most one option on each side. */
  lemma OptionsOfSingles(g: Game)
    requires |g.L| <= 1 && |g.R| <= 1
    ensures forall x :: x in g.L ==> x == g.L[0]
    ensures forall y :: y in g.R ==> y == g.R[0]
  {
  }

  /** A game with at most one option on each side is a number when its options are
      numbers and its Right option is not <= its Left option. */
  lemma SinglesNumber(g: Game)
    requires |g.L| <= 1 && |g.R| <= 1
    requires |g.L| == 1 ==> IsNumber(g.L[0])
    requires |g.R| == 1 ==> IsNumber(g.R[0])
    requires |g.L| == 1 && |g.R| == 1 ==> !Le(g.R[0], g.L[0])
    ensures IsNumber(g)
  {
    OptionsOfSingles(g);
  }

  // ---------------------------------------------------------------------
  // Canonical dyadics

  /** The dyadic m / 2^k is in canonical form. */
  lemma {:induction false} DyadicCanonical(m: int, k: nat)
    ensures IsCanonical(Dyadic(m, k))
    decreases Size(Dyadic(m, k))
  {
    var g := Dyadic(m, k);
    DyadicOptions(m, k);
    OptionsOfSingles(g);
    DyadicOptionsSmaller(m, k);
    if |g.L| == 1 {
      DyadicCanonical(m - Step(m, k), k);
      LeftIrreversible(m, k);
    }
    if |g.R| == 1 {
      DyadicCanonical(m + Step(m, k), k);
      RightIrreversible(m, k);
    }
    forall r: Reduction, i: nat, j: nat ensures !Applies(g, r, i, j) {
    }
  }

  /** No Right reply to the Left option of m / 2^k is <= m / 2^k. */
  lemma LeftIrreversible(m: int, k: nat)
    requires !Integral(m, k) || m > 0
    ensures var x := Dyadic(m - Step(m, k), k);
      forall j :: 0 <= j < |x.R| ==> !Le(x.R[j], Dyadic(m, k))
  {
    var a := m - Step(m, k);
    DyadicOptions(a, k);
    NeighbourStep(m, k, 1);
    if Integral(m, k) {
      IntegralNeighbourSign(m, k);
    }
    if !Integral(a, k) || a < 0 {
      DyadicLe(a + Step(a, k), m, k);
    }
  }

  /** No Left reply to the Right option of m / 2^k is >= m / 2^k. */
  lemma RightIrreversible(m: int, k: nat)
    requires !Integral(m, k) || m < 0
    ensures var y := Dyadic(m + Step(m, k), k);
      forall j :: 0 <= j < |y.L| ==> !Le(Dyadic(m, k), y.L[j])
  {
    var a := m + Step(m, k);
    DyadicOptions(a, k);
    NeighbourStep(m, k, -1);
    if Integral(m, k) {
      IntegralNeighbourSign(m, k);
    }
    if !Integral(a, k) || a > 0 {
      DyadicLe(m, a - Step(a, k), k);
    }
  }

  // ---------------------------------------------------------------------
  // Switches

  /** A switch { x | y }: one option for each player, both numbers, Left's strictly
      greater than Right's. */
  predicate SwitchForm(g: Game)
  {
    |g.L| == 1 && |g.R| == 1 && IsNumber(g.L[0]) && IsNumber(g.R[0]) && Lt(g.R[0], g.L[0])
  }

  /** A game is a switch when its canonical form is one. */
  predicate IsSwitch(g: Game)
  {
    SwitchForm(Canonical(g))
  }

  /** A switch is confused with both of its options, and is not a number. */
  lemma SwitchConfused(g: Game)
    requires IsSwitch(g)
    ensures Fuzzy(g, Canonical(g).L[0]) && Fuzzy(g, Canonical(g).R[0])
    ensures !IsNumber(Canonical(g))
  {
    var c := Canonical(g);
    var a, b := c.L[0], c.R[0];
    assert a in c.L && b in c.R;
    CanonicalSpec(g);
    LeRefl(c);
    assert !Le(a, c) && !Le(c, b);
    if Le(g, a) {
      LeTrans(c, g, a);
    }
    if Le(a, g) {
      LeTrans(a, g, c);
    }
    if Le(g, b) {
      LeTrans(c, g, b);
    }
    if Le(b, g) {
      LeTrans(b, g, c);
    }
  }

  /** { x | y } for dyadics x > y is canonical. */
  lemma DyadicSwitchCanonical(a: int, i: nat, b: int, j: nat)
    requires Lt(Dyadic(b, j), Dyadic(a, i))
    ensures IsCanonical(G([Dyadic(a, i)], [Dyadic(b, j)]))
  {
    var x, y := Dyadic(a, i), Dyadic(b, j);
    var g := G([x], [y]);
    DyadicCanonical(a, i);
    DyadicCanonical(b, j);
    assert OptionsCanonical(g) by {
      OptionsOfSingles(g);
    }
    SwitchLeftIrreversible(a, i, y);
    SwitchRightIrreversible(x, b, j);
    DyadicOptions(a, i);
    DyadicOptions(b, j);
    forall r: Reduction, p: nat, q: nat ensures !Applies(g, r, p, q) {
      if r == ReversibleLeft && p == 0 && q < |x.R| {
        assert q == 0;
      } else if r == ReversibleRight && p == 0 && q < |y.L| {
        assert q == 0;
      }
    }
  }

  /** In { x | y } with y < x = a / 2^i, Left's move to x is not reversible. */
  lemma SwitchLeftIrreversible(a: int, i: nat, y: Game)
    requires Lt(y, Dyadic(a, i))
    ensures var x := Dyadic(a, i);
      forall q :: 0 <= q < |x.R| ==> !Le(x.R[q], G([x], [y]))
  {
    var x := Dyadic(a, i);
    var g := G([x], [y]);
    DyadicOptions(a, i);
    if |x.R| == 1 {
      DyadicLe(a, a + Step(a, i), i);
      if Le(x.R[0], g) {
        assert y in g.R;
        LeTrans(y, x, x.R[0]);
      }
    }
  }

  /** In { x | y } with y = b / 2^j < x, Right's move to y is not reversible. */
  lemma SwitchRightIrreversible(x: Game, b: int, j: nat)
    requires Lt(Dyadic(b, j), x)
    ensures var y := Dyadic(b, j);
      forall q :: 0 <= q < |y.L| ==> !Le(G([x], [y]), y.L[q])
  {
    var y := Dyadic(b, j);
    var g := G([x], [y]);
    DyadicOptions(b, j);
    if |y.L| == 1 {
      DyadicLe(b - Step(b, j), b, j);
      if Le(g, y.L[0]) {
        assert x in g.L;
        LeTrans(y.L[0], y, x);
      }
    }
  }

  // ---------------------------------------------------------------------
  // Birthdays

  /** The birthday: the height of the canonical form. */
  function Birthday(g: Game): nat
  {
    Height(Canonical(g))
  }

  /** The birthday is at most the height of any form of the game, and equals the
      height of a canonical form. */
  lemma BirthdayHeight(g: Game)
    ensures Birthday(g) <= Height(g)
    ensures IsCanonical(g) ==> Birthday(g) == Height(g)
  {
    CanonicalSpec(g);
    if IsCanonical(g) {
      CanonicalIdempotent(g);
    }
  }

  /** The integer n is born on day |n|. */
  lemma BirthdayInteger(n: int)
    ensures Birthday(Integer(n)) == Abs(n)
  {
    DyadicCanonical(n, 0);
    BirthdayHeight(Integer(n));
    IntegerHeight(n);
  }

  lemma {:induction false} IntegerHeight(n: int)
    ensures Height(Integer(n)) == Abs(n)
    decreases Abs(n)
  {
    var g := Integer(n);
    if n > 0 {
      IntegerHeight(n - 1);
      assert g.L == [Integer(n - 1)] && g.R == [];
      assert MaxHeight(g.L) == Height(Integer(n - 1)) by {
        assert g.L[..0] == [];
      }
    } else if n < 0 {
      IntegerHeight(n + 1);
      assert g.L == [] && g.R == [Integer(n + 1)];
      assert MaxHeight(g.R) == Height(Integer(n + 1)) by {
        assert g.R[..0] == [];
      }
    }
  }
}
