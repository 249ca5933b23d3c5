/** Conway's order on games and the relations derived from it. */
module Order {
  import opened Games

  /** g <= h: no Left option of g is >= h, and no Right option of h is <= g. */
  predicate Le(g: Game, h: Game)
    decreases Size(g) + Size(h)
  {
    (forall x :: x in g.L ==> !Le(h, x)) &&
    (forall y :: y in h.R ==> !Le(y, g))
  }

  predicate Ge(g: Game, h: Game) { Le(h, g) }

  /** Equivalence: the only sameness between games. */
  predicate Eq(g: Game, h: Game) { Le(g, h) && Le(h, g) }

  predicate Lt(g: Game, h: Game) { Le(g, h) && !Le(h, g) }

  predicate Gt(g: Game, h: Game) { Lt(h, g) }

  /** Confused (fuzzy): neither game is <= the other. */
  predicate Fuzzy(g: Game, h: Game) { !Le(g, h) && !Le(h, g) }

  /** The four possible answers to a comparison. */
  datatype Comparison = Equal | Less | Greater | Confused

  function Compare(g: Game, h: Game): (c: Comparison)
    ensures c == Equal <==> Eq(g, h)
    ensures c == Less <==> Lt(g, h)
    ensures c == Greater <==> Gt(g, h)
    ensures c == Confused <==> Fuzzy(g, h)
  {
    if Le(g, h) then (if Le(h, g) then Equal else Less)
    else if Le(h, g) then Greater else Confused
  }

  /** A Left option of g that is >= h refutes g <= h. */
  lemma NotLeByLeft(g: Game, h: Game, x: Game)
    requires x in g.L && Le(h, x)
    ensures !Le(g, h)
  {
  }

  /** A Right option of h that is <= g refutes g <= h. */
  lemma NotLeByRight(g: Game, h: Game, y: Game)
    requires y in h.R && Le(y, g)
    ensures !Le(g, h)
  {
  }

  /** Every game is <= itself; moreover no Left option of g is >= g and no
      Right option of g is <= g. */
  lemma {:induction false} LeRefl(g: Game)
    ensures Le(g, g)
    ensures forall x :: x in g.L ==> !Le(g, x)
    ensures forall y :: y in g.R ==> !Le(y, g)
    decreases Size(g)
  {
    forall x | x in g.L ensures !Le(g, x) {
      LeRefl(x);
    }
    forall y | y in g.R ensures !Le(y, g) {
      LeRefl(y);
    }
  }

  lemma {:induction false} LeTrans(a: Game, b: Game, c: Game)
    requires Le(a, b) && Le(b, c)
    ensures Le(a, c)
    decreases Size(a) + Size(b) + Size(c)
  {
    forall x | x in a.L ensures !Le(c, x) {
      if Le(c, x) {
        LeTrans(b, c, x);
      }
    }
    forall y | y in c.R ensures !Le(y, a) {
      if Le(y, a) {
        LeTrans(y, a, b);
      }
    }
  }

  lemma EqRefl(g: Game)
    ensures Eq(g, g)
  {
    LeRefl(g);
  }

  lemma EqSymm(g: Game, h: Game)
    requires Eq(g, h)
    ensures Eq(h, g)
  {
  }

  lemma EqTrans(a: Game, b: Game, c: Game)
    requires Eq(a, b) && Eq(b, c)
    ensures Eq(a, c)
  {
    LeTrans(a, b, c);
    LeTrans(c, b, a);
  }

  /** Replacing the options of X by options at least as good for Left
      (Left options dominated, Right options dominating) makes a game >= X. */
  lemma LeByOptions(X: Game, Y: Game)
    requires forall x :: x in X.L ==> exists y :: y in Y.L && Le(x, y)
    requires forall y :: y in Y.R ==> exists x :: x in X.R && Le(x, y)
    ensures Le(X, Y)
  {
    forall x | x in X.L ensures !Le(Y, x) {
      var y :| y in Y.L && Le(x, y);
      if Le(Y, x) {
        LeTrans(Y, x, y);
        LeRefl(Y);
      }
    }
    forall y | y in Y.R ensures !Le(y, X) {
      var x :| x in X.R && Le(x, y);
      if Le(y, X) {
        LeTrans(x, y, X);
        LeRefl(X);
      }
    }
  }

  /** Two games whose option lists match up pairwise by equivalence are equivalent. */
  lemma EqByOptions(X: Game, Y: Game)
    requires |X.L| == |Y.L| && |X.R| == |Y.R|
    requires forall i :: 0 <= i < |X.L| ==> Eq(X.L[i], Y.L[i])
    requires forall i :: 0 <= i < |X.R| ==> Eq(X.R[i], Y.R[i])
    ensures Eq(X, Y)
  {
    forall x | x in X.L ensures exists y :: y in Y.L && Le(x, y) {
      var i :| 0 <= i < |X.L| && X.L[i] == x;
      assert Y.L[i] in Y.L;
    }
    forall y | y in Y.R ensures exists x :: x in X.R && Le(x, y) {
      var i :| 0 <= i < |Y.R| && Y.R[i] == y;
      assert X.R[i] in X.R;
    }
    LeByOptions(X, Y);
    forall y | y in Y.L ensures exists x :: x in X.L && Le(y, x) {
      var i :| 0 <= i < |Y.L| && Y.L[i] == y;
      assert X.L[i] in X.L;
    }
    forall x | x in X.R ensures exists y :: y in Y.R && Le(y, x) {
      var i :| 0 <= i < |X.R| && X.R[i] == x;
      assert Y.R[i] in Y.R;
    }
    LeByOptions(Y, X);
  }

  /** Equivalent games compare alike with every third game. */
  lemma EqSubstLeft(g: Game, g': Game, h: Game)
    requires Eq(g, g')
    ensures Le(g, h) <==> Le(g', h)
    ensures Le(h, g) <==> Le(h, g')
  {
    if Le(g, h) { LeTrans(g', g, h); }
    if Le(g', h) { LeTrans(g, g', h); }
    if Le(h, g) { LeTrans(h, g, g'); }
    if Le(h, g') { LeTrans(h, g', g); }
  }
}
