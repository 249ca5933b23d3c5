/** Canonical forms. A game is simplified by deleting dominated options and
    bypassing reversible ones; both steps keep the game equal to the original,
    and a game with no such option whose options are all canonical is canonical. */
module Canon {
  import opened Games
  import opened Order

  /** The four simplifications of an option list. */
  datatype Reduction = DominatedLeft | DominatedRight | ReversibleLeft | ReversibleRight

  /** Row i of a reduction ranges over one option list of g. */
  function Rows(g: Game, r: Reduction): nat
  {
    if r == DominatedLeft || r == ReversibleLeft then |g.L| else |g.R|
  }

  /** Column j ranges over the other options of the same side (dominated) or over
      the replies to option i (reversible). */
  function Cols(g: Game, r: Reduction, i: nat): nat
  {
    match r
    case DominatedLeft => |g.L|
    case DominatedRight => |g.R|
    case ReversibleLeft => if i < |g.L| then |g.L[i].R| else 0
    case ReversibleRight => if i < |g.R| then |g.R[i].L| else 0
  }

  /** Reduction r applies to option i of g, with witness j:
      - DominatedLeft: Left option i is no better for Left than Left option j;
      - DominatedRight: Right option i is no better for Right than Right option j;
      - ReversibleLeft: Right's reply j to Left option i is at most g;
      - ReversibleRight: Left's reply j to Right option i is at least g. */
  predicate Applies(g: Game, r: Reduction, i: nat, j: nat)
  {
    i < Rows(g, r) && j < Cols(g, r, i) &&
    match r
    case DominatedLeft => i != j && Le(g.L[i], g.L[j])
    case DominatedRight => i != j && Le(g.R[j], g.R[i])
    case ReversibleLeft => Le(g.L[i].R[j], g)
    case ReversibleRight => Le(g, g.R[i].L[j])
  }

  /** No option of g is dominated or reversible. */
  ghost predicate Reduced(g: Game)
  {
    forall r: Reduction, i: nat, j: nat :: !Applies(g, r, i, j)
  }

  ghost predicate IsCanonical(g: Game)
    decreases g
  {
    (forall x :: x in g.L ==> IsCanonical(x)) &&
    (forall y :: y in g.R ==> IsCanonical(y)) &&
    Reduced(g)
  }

  ghost predicate OptionsCanonical(g: Game)
  {
    (forall x :: x in g.L ==> IsCanonical(x)) && (forall y :: y in g.R ==> IsCanonical(y))
  }

  // ---------------------------------------------------------------------
  // Searching for a reduction

  /** (i, j) comes at or after (i0, j0) in row-major order. */
  predicate AtOrAfter(i: nat, j: nat, i0: nat, j0: nat)
  {
    i > i0 || (i == i0 && j >= j0)
  }

  /** The first (i, j) at or after (i0, j0) in row-major order where r applies. */
  function FindFrom(g: Game, r: Reduction, i0: nat, j0: nat): (res: Option<(nat, nat)>)
    ensures res.Some? ==> Applies(g, r, res.value.0, res.value.1)
    ensures res.Some? ==> AtOrAfter(res.value.0, res.value.1, i0, j0)
    ensures res.Some? ==> forall i: nat, j: nat ::
      AtOrAfter(i, j, i0, j0) && !AtOrAfter(i, j, res.value.0, res.value.1) ==> !Applies(g, r, i, j)
    ensures res.None? ==>
      forall i: nat, j: nat :: AtOrAfter(i, j, i0, j0) ==> !Applies(g, r, i, j)
    decreases Rows(g, r) - i0, Cols(g, r, i0) - j0
  {
    if i0 >= Rows(g, r) then None
    else if j0 >= Cols(g, r, i0) then FindFrom(g, r, i0 + 1, 0)
    else if Applies(g, r, i0, j0) then Some((i0, j0))
    else FindFrom(g, r, i0, j0 + 1)
  }

  /** The position of a reduction in the order they are tried. */
  function Rank(r: Reduction): nat
  {
    match r
    case DominatedLeft => 0
    case DominatedRight => 1
    case ReversibleLeft => 2
    case ReversibleRight => 3
  }

  /** The first applicable reduction, trying dominated Left, dominated Right,
      reversible Left and reversible Right options in turn. */
  function FirstReduction(g: Game): (res: Option<(Reduction, nat, nat)>)
    ensures res.Some? ==> Applies(g, res.value.0, res.value.1, res.value.2)
    ensures res.Some? ==> FindFrom(g, res.value.0, 0, 0) == Some((res.value.1, res.value.2))
    ensures res.Some? ==> forall r: Reduction, i: nat, j: nat ::
      Rank(r) < Rank(res.value.0) ==> !Applies(g, r, i, j)
    ensures res.None? <==> Reduced(g)
  {
    match FindFrom(g, DominatedLeft, 0, 0)
    case Some((i, j)) => Some((DominatedLeft, i, j))
    case None =>
      match FindFrom(g, DominatedRight, 0, 0)
      case Some((i, j)) => Some((DominatedRight, i, j))
      case None =>
        match FindFrom(g, ReversibleLeft, 0, 0)
        case Some((i, j)) => Some((ReversibleLeft, i, j))
        case None =>
          match FindFrom(g, ReversibleRight, 0, 0)
          case Some((i, j)) => Some((ReversibleRight, i, j))
          case None => None
  }

  // ---------------------------------------------------------------------
  // One simplification step

  /** g after reduction r at (i, j): a dominated option is deleted; a reversible
      option is replaced by the options, for the same player, of the reversing reply. */
  function Rewrite(g: Game, r: Reduction, i: nat, j: nat): Game
    requires i < Rows(g, r) && j < Cols(g, r, i)
  {
    match r
    case DominatedLeft => G(RemoveAt(g.L, i), g.R)
    case DominatedRight => G(g.L, RemoveAt(g.R, i))
    case ReversibleLeft => G(RemoveAt(g.L, i) + g.L[i].R[j].L, g.R)
    case ReversibleRight => G(g.L, RemoveAt(g.R, i) + g.R[i].L[j].R)
  }

  /** Total size of the options: the measure that every step decreases. */
  function Weight(g: Game): nat
  {
    SizeSum(g.L) + SizeSum(g.R)
  }

  lemma RewriteLighter(g: Game, r: Reduction, i: nat, j: nat)
    requires i < Rows(g, r) && j < Cols(g, r, i)
    ensures Weight(Rewrite(g, r, i, j)) < Weight(g)
  {
    match r
    case DominatedLeft =>
      SizeSumRemoveAt(g.L, i);
    case DominatedRight =>
      SizeSumRemoveAt(g.R, i);
    case ReversibleLeft =>
      var x := g.L[i];
      var y := x.R[j];
      assert y in x.R;
      SizeSumRemoveAt(g.L, i);
      SizeSumAppend(RemoveAt(g.L, i), y.L);
    case ReversibleRight =>
      var x := g.R[i];
      var y := x.L[j];
      assert y in x.L;
      SizeSumRemoveAt(g.R, i);
      SizeSumAppend(RemoveAt(g.R, i), y.R);
  }

  /** Applies reductions until none applies. */
  function Simplify(g: Game): Game
    decreases Weight(g)
  {
    match FirstReduction(g)
    case None => g
    case Some((r, i, j)) =>
      assert Weight(Rewrite(g, r, i, j)) < Weight(g) by { RewriteLighter(g, r, i, j); }
      Simplify(Rewrite(g, r, i, j))
  }

  /** The canonical form: canonical options, then simplification. */
  function Canonical(g: Game): Game
    decreases g
  {
    Simplify(G(seq(|g.L|, i requires 0 <= i < |g.L| => Canonical(g.L[i])),
               seq(|g.R|, i requires 0 <= i < |g.R| => Canonical(g.R[i]))))
  }

  // ---------------------------------------------------------------------
  // Deleting a dominated option keeps the game equal

  /** X <= Y when X's Left options are among Y's and Y's Right options among X's. */
  lemma LeByCover(X: Game, Y: Game)
    requires forall x :: x in X.L ==> x in Y.L
    requires forall y :: y in Y.R ==> y in X.R
    ensures Le(X, Y)
  {
    LeRefl(X);
    LeRefl(Y);
  }

  lemma DominatedLeftEq(g: Game, i: nat, j: nat)
    requires Applies(g, DominatedLeft, i, j)
    ensures Eq(Rewrite(g, DominatedLeft, i, j), g)
  {
    var g2 := Rewrite(g, DominatedLeft, i, j);
    LeByCover(g2, g);
    LeRefl(g);
    LeRefl(g2);
    var x, w := g.L[i], g.L[j];
    assert w in g2.L;
    forall a | a in g.L ensures !Le(g2, a) {
      if a !in g2.L && Le(g2, a) {
        assert a == x;
        LeTrans(g2, x, w);
      }
    }
  }

  lemma DominatedRightEq(g: Game, i: nat, j: nat)
    requires Applies(g, DominatedRight, i, j)
    ensures Eq(Rewrite(g, DominatedRight, i, j), g)
  {
    var g2 := Rewrite(g, DominatedRight, i, j);
    LeByCover(g, g2);
    LeRefl(g);
    LeRefl(g2);
    var x, w := g.R[i], g.R[j];
    assert w in g2.R;
    forall b | b in g.R ensures !Le(b, g2) {
      if b !in g2.R && Le(b, g2) {
        assert b == x;
        LeTrans(w, x, g2);
      }
    }
  }

  // ---------------------------------------------------------------------
  // Bypassing a reversible option keeps the game equal

  /** g2 keeps g's Right options, and each Left option of g2 is a Left option of g
      or a Left option of y, a reply at most g. */
  predicate LeftBypass(g: Game, g2: Game, y: Game)
  {
    g2.R == g.R && Le(y, g) && forall a :: a in g2.L ==> a in g.L || a in y.L
  }

  lemma {:induction false} LeftBypassAbove(g: Game, g2: Game, y: Game, h: Game)
    requires LeftBypass(g, g2, y) && Le(g, h)
    ensures Le(g2, h)
    decreases Size(h)
  {
    forall a | a in g2.L ensures !Le(h, a) {
      if a !in g.L && Le(h, a) {
        LeTrans(g, h, a);
      }
    }
    forall e | e in h.R ensures !Le(e, g2) {
      if Le(e, g2) {
        LeftBypassBelow(g, g2, y, e);
      }
    }
  }

  lemma {:induction false} LeftBypassBelow(g: Game, g2: Game, y: Game, k: Game)
    requires LeftBypass(g, g2, y) && Le(k, g2)
    ensures Le(k, g)
    decreases Size(k)
  {
    forall c | c in k.L ensures !Le(g, c) {
      if Le(g, c) {
        LeftBypassAbove(g, g2, y, c);
      }
    }
  }

  lemma ReversibleLeftEq(g: Game, i: nat, j: nat)
    requires Applies(g, ReversibleLeft, i, j)
    ensures Eq(Rewrite(g, ReversibleLeft, i, j), g)
  {
    var x := g.L[i];
    var y := x.R[j];
    var g2 := Rewrite(g, ReversibleLeft, i, j);
    assert LeftBypass(g, g2, y);
    LeRefl(g);
    LeftBypassAbove(g, g2, y, g);
    LeRefl(g2);
    assert Le(y, g2) by {
      assert forall c :: c in y.L ==> c in g2.L;
    }
    forall a | a in g.L ensures !Le(g2, a) {
      if a !in g2.L {
        assert a == x;
        NotLeByRight(g2, x, y);
      }
    }
  }

  /** g2 keeps g's Left options, and each Right option of g2 is a Right option of g
      or a Right option of y, a reply at least g. */
  predicate RightBypass(g: Game, g2: Game, y: Game)
  {
    g2.L == g.L && Le(g, y) && forall b :: b in g2.R ==> b in g.R || b in y.R
  }

  lemma {:induction false} RightBypassBelow(g: Game, g2: Game, y: Game, k: Game)
    requires RightBypass(g, g2, y) && Le(k, g)
    ensures Le(k, g2)
    decreases Size(k)
  {
    forall b | b in g2.R ensures !Le(b, k) {
      if b !in g.R && Le(b, k) {
        LeTrans(b, k, g);
      }
    }
    forall c | c in k.L ensures !Le(g2, c) {
      if Le(g2, c) {
        RightBypassAbove(g, g2, y, c);
      }
    }
  }

  lemma {:induction false} RightBypassAbove(g: Game, g2: Game, y: Game, h: Game)
    requires RightBypass(g, g2, y) && Le(g2, h)
    ensures Le(g, h)
    decreases Size(h)
  {
    forall e | e in h.R ensures !Le(e, g) {
      if Le(e, g) {
        RightBypassBelow(g, g2, y, e);
      }
    }
  }

  lemma ReversibleRightEq(g: Game, i: nat, j: nat)
    requires Applies(g, ReversibleRight, i, j)
    ensures Eq(Rewrite(g, ReversibleRight, i, j), g)
  {
    var x := g.R[i];
    var y := x.L[j];
    var g2 := Rewrite(g, ReversibleRight, i, j);
    assert RightBypass(g, g2, y);
    LeRefl(g);
    RightBypassBelow(g, g2, y, g);
    LeRefl(g2);
    assert Le(g2, y) by {
      assert forall e :: e in y.R ==> e in g2.R;
    }
    forall b | b in g.R ensures !Le(b, g2) {
      if b !in g2.R {
        assert b == x;
        NotLeByLeft(x, g2, y);
      }
    }
  }

  /** Every reduction step keeps the game equal. */
  lemma RewriteEq(g: Game, r: Reduction, i: nat, j: nat)
    requires Applies(g, r, i, j)
    ensures Eq(Rewrite(g, r, i, j), g)
  {
    match r
    case DominatedLeft => DominatedLeftEq(g, i, j);
    case DominatedRight => DominatedRightEq(g, i, j);
    case ReversibleLeft => ReversibleLeftEq(g, i, j);
    case ReversibleRight => ReversibleRightEq(g, i, j);
  }

  /** A step keeps every option canonical: a bypass brings in options of an option's
      option. */
  lemma RewriteOptionsCanonical(g: Game, r: Reduction, i: nat, j: nat)
    requires i < Rows(g, r) && j < Cols(g, r, i)
    requires OptionsCanonical(g)
    ensures OptionsCanonical(Rewrite(g, r, i, j))
  {
    match r
    case DominatedLeft =>
    case DominatedRight =>
    case ReversibleLeft =>
      var x := g.L[i];
      var y := x.R[j];
      assert x in g.L && y in x.R;
      assert IsCanonical(y);
      assert forall c :: c in y.L ==> IsCanonical(c);
    case ReversibleRight =>
      var x := g.R[i];
      var y := x.L[j];
      assert x in g.R && y in x.L;
      assert IsCanonical(y);
      assert forall c :: c in y.R ==> IsCanonical(c);
  }

  /** A step never raises the height. */
  lemma RewriteHeight(g: Game, r: Reduction, i: nat, j: nat)
    requires i < Rows(g, r) && j < Cols(g, r, i)
    ensures Height(Rewrite(g, r, i, j)) <= Height(g)
  {
    var g2 := Rewrite(g, r, i, j);
    HeightBound(g, Height(g));
    if r == ReversibleLeft {
      var x := g.L[i];
      var y := x.R[j];
      assert x in g.L && y in x.R;
      HeightBound(x, Height(x));
      HeightBound(y, Height(y));
    } else if r == ReversibleRight {
      var x := g.R[i];
      var y := x.L[j];
      assert x in g.R && y in x.L;
      HeightBound(x, Height(x));
      HeightBound(y, Height(y));
    }
    assert forall c :: c in g2.L ==> Height(c) < Height(g);
    assert forall c :: c in g2.R ==> Height(c) < Height(g);
    HeightBound(g2, Height(g));
  }

  // ---------------------------------------------------------------------
  // Properties of Simplify and Canonical

  /** Simplify keeps the game equal, and reaches a canonical game when the options
      are canonical. */
  lemma {:induction false} SimplifySpec(g: Game)
    ensures Eq(Simplify(g), g)
    ensures OptionsCanonical(g) ==> IsCanonical(Simplify(g))
    ensures Height(Simplify(g)) <= Height(g)
    decreases Weight(g)
  {
    match FirstReduction(g)
    case None =>
      EqRefl(g);
    case Some((r, i, j)) =>
      var g2 := Rewrite(g, r, i, j);
      RewriteLighter(g, r, i, j);
      SimplifySpec(g2);
      RewriteEq(g, r, i, j);
      EqTrans(Simplify(g2), g2, g);
      if OptionsCanonical(g) {
        RewriteOptionsCanonical(g, r, i, j);
      }
      RewriteHeight(g, r, i, j);
  }

  /** A reduced game equal to 0 is 0 itself. */
  lemma ReducedZero(g: Game)
    requires Reduced(g) && Eq(g, Zero)
    ensures g == Zero
  {
    if |g.L| > 0 {
      ZeroLeftReversible(g);
    }
    if |g.R| > 0 {
      ZeroRightReversible(g);
    }
  }

  /** In a game equal to 0, a Left option x is not >= 0, so x has a Right reply
      <= 0, which reverses x. */
  lemma ZeroLeftReversible(g: Game)
    requires Eq(g, Zero) && |g.L| > 0
    ensures exists j: nat :: Applies(g, ReversibleLeft, 0, j)
  {
    var x := g.L[0];
    assert x in g.L && !Le(Zero, x);
    var y :| y in x.R && Le(y, Zero);
    var j :| 0 <= j < |x.R| && x.R[j] == y;
    LeTrans(y, Zero, g);
    assert Applies(g, ReversibleLeft, 0, j);
  }

  /** In a game equal to 0, a Right option x is not <= 0, so x has a Left reply
      >= 0, which reverses x. */
  lemma ZeroRightReversible(g: Game)
    requires Eq(g, Zero) && |g.R| > 0
    ensures exists j: nat :: Applies(g, ReversibleRight, 0, j)
  {
    var x := g.R[0];
    assert x in g.R && !Le(x, Zero);
    var y :| y in x.L && Le(Zero, y);
    var j :| 0 <= j < |x.L| && x.L[j] == y;
    LeTrans(g, Zero, y);
    assert Applies(g, ReversibleRight, 0, j);
  }

  /** The canonical form of a game equal to 0 is 0. */
  lemma CanonicalOfZero(g: Game)
    requires Eq(g, Zero)
    ensures Canonical(g) == Zero
  {
    CanonicalSpec(g);
    EqTrans(Canonical(g), g, Zero);
    EqSymm(g, Zero);
    EqTrans(Zero, g, Canonical(g));
    ReducedZero(Canonical(g));
  }

  /** A reduced game is left as it is. */
  lemma SimplifyReduced(g: Game)
    requires Reduced(g)
    ensures Simplify(g) == g
  {
  }

  /** The canonical form is canonical and equal to the game, and no higher. */
  lemma {:induction false} CanonicalSpec(g: Game)
    ensures IsCanonical(Canonical(g)) && Eq(Canonical(g), g)
    ensures Height(Canonical(g)) <= Height(g)
    decreases g
  {
    var h := G(seq(|g.L|, i requires 0 <= i < |g.L| => Canonical(g.L[i])),
               seq(|g.R|, i requires 0 <= i < |g.R| => Canonical(g.R[i])));
    forall i | 0 <= i < |g.L| ensures IsCanonical(h.L[i]) && Eq(h.L[i], g.L[i])
      && Height(h.L[i]) < Height(g)
    {
      assert g.L[i] in g.L;
      CanonicalSpec(g.L[i]);
      HeightBound(g, Height(g));
    }
    forall i | 0 <= i < |g.R| ensures IsCanonical(h.R[i]) && Eq(h.R[i], g.R[i])
      && Height(h.R[i]) < Height(g)
    {
      assert g.R[i] in g.R;
      CanonicalSpec(g.R[i]);
      HeightBound(g, Height(g));
    }
    CanonicalFromOptions(g, h);
  }

  /** Simplifying a game h whose options are canonical forms of g's, position by
      position, gives a canonical game equal to g and no higher. */
  lemma CanonicalFromOptions(g: Game, h: Game)
    requires |h.L| == |g.L| && |h.R| == |g.R|
    requires forall i :: 0 <= i < |g.L| ==>
      IsCanonical(h.L[i]) && Eq(h.L[i], g.L[i]) && Height(h.L[i]) < Height(g)
    requires forall i :: 0 <= i < |g.R| ==>
      IsCanonical(h.R[i]) && Eq(h.R[i], g.R[i]) && Height(h.R[i]) < Height(g)
    ensures IsCanonical(Simplify(h)) && Eq(Simplify(h), g)
    ensures Height(Simplify(h)) <= Height(g)
  {
    OptionsCanonicalByIndex(h);
    EqByOptions(h, g);
    HeightBound(h, Height(g));
    SimplifySpec(h);
    EqTrans(Simplify(h), h, g);
  }

  lemma OptionsCanonicalByIndex(h: Game)
    requires forall i :: 0 <= i < |h.L| ==> IsCanonical(h.L[i])
    requires forall i :: 0 <= i < |h.R| ==> IsCanonical(h.R[i])
    ensures OptionsCanonical(h)
  {
    forall x | x in h.L ensures IsCanonical(x) {
      var i :| 0 <= i < |h.L| && h.L[i] == x;
    }
    forall y | y in h.R ensures IsCanonical(y) {
      var i :| 0 <= i < |h.R| && h.R[i] == y;
    }
  }

  /** Canonicalizing a canonical game changes nothing. */
  lemma {:induction false} CanonicalIdempotent(g: Game)
    requires IsCanonical(g)
    ensures Canonical(g) == g
    decreases g
  {
    var h := G(seq(|g.L|, i requires 0 <= i < |g.L| => Canonical(g.L[i])),
               seq(|g.R|, i requires 0 <= i < |g.R| => Canonical(g.R[i])));
    forall i | 0 <= i < |g.L| ensures h.L[i] == g.L[i] {
      assert g.L[i] in g.L;
      CanonicalIdempotent(g.L[i]);
    }
    forall i | 0 <= i < |g.R| ensures h.R[i] == g.R[i] {
      assert g.R[i] in g.R;
      CanonicalIdempotent(g.R[i]);
    }
    assert h == g;
    SimplifyReduced(g);
  }
}
