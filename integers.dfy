/** Sums and products of integer games agree with integer arithmetic, up to
    equality of games. */
module IntegerArith {
  import opened Games
  import opened Order
  import opened Arith
  import opened Numbers

  /** Integers are ordered as games exactly as they are as numbers. */
  lemma IntegerLe(a: int, b: int)
    ensures Le(Integer(a), Integer(b)) <==> a <= b
  {
    DyadicLe(a, b, 0);
  }

  lemma IntegerShape(c: int)
    ensures Integer(c).L == (if c > 0 then [Integer(c - 1)] else [])
    ensures Integer(c).R == (if c < 0 then [Integer(c + 1)] else [])
  {
  }

  /** A game whose Left options all equal c - 1 and whose Right options all equal
      c + 1 equals c, provided it has a Left option when c > 0 and a Right option
      when c < 0. */
  lemma IntegerByOptions(X: Game, c: int)
    requires forall x :: x in X.L ==> Eq(x, Integer(c - 1))
    requires forall y :: y in X.R ==> Eq(y, Integer(c + 1))
    requires c > 0 ==> |X.L| > 0
    requires c < 0 ==> |X.R| > 0
    ensures Eq(X, Integer(c))
  {
    var Y := Integer(c);
    IntegerShape(c);
    IntegerLe(c, c - 1);
    IntegerLe(c + 1, c);
    LeRefl(X);
    forall x | x in X.L ensures !Le(Y, x) {
      if Le(Y, x) {
        LeTrans(Y, x, Integer(c - 1));
      }
    }
    forall y | y in Y.R ensures !Le(y, X) {
      var w := X.R[0];
      assert w in X.R;
      if Le(y, X) {
        LeTrans(w, y, X);
      }
    }
    assert Le(X, Y);
    forall y | y in Y.L ensures !Le(X, y) {
      var w := X.L[0];
      assert w in X.L;
      if Le(X, y) {
        LeTrans(X, y, w);
      }
    }
    forall x | x in X.R ensures !Le(x, Y) {
      if Le(x, Y) {
        LeTrans(Integer(c + 1), x, Y);
      }
    }
  }

  // ---------------------------------------------------------------------
  // Sums

  /** The options of a + b: a move in a or a move in b. */
  lemma AddIntegerShape(a: int, b: int)
    ensures Add(Integer(a), Integer(b)).L ==
      (if a > 0 then [Add(Integer(a - 1), Integer(b))] else []) +
      (if b > 0 then [Add(Integer(a), Integer(b - 1))] else [])
    ensures Add(Integer(a), Integer(b)).R ==
      (if a < 0 then [Add(Integer(a + 1), Integer(b))] else []) +
      (if b < 0 then [Add(Integer(a), Integer(b + 1))] else [])
  {
    IntegerShape(a);
    IntegerShape(b);
    AddSingles(Integer(a), Integer(b));
  }

  /** The options of g + h when g and h have at most one option on each side. */
  lemma AddSingles(g: Game, h: Game)
    requires |g.L| <= 1 && |g.R| <= 1 && |h.L| <= 1 && |h.R| <= 1
    ensures Add(g, h).L ==
      (if |g.L| == 1 then [Add(g.L[0], h)] else []) + (if |h.L| == 1 then [Add(g, h.L[0])] else [])
    ensures Add(g, h).R ==
      (if |g.R| == 1 then [Add(g.R[0], h)] else []) + (if |h.R| == 1 then [Add(g, h.R[0])] else [])
  {
    AddSinglesSide(g, h, true);
    AddSinglesSide(g, h, false);
  }

  /** AddSingles on one side: left for the Left options, otherwise the Right. */
  lemma AddSinglesSide(g: Game, h: Game, left: bool)
    requires |g.L| <= 1 && |g.R| <= 1 && |h.L| <= 1 && |h.R| <= 1
    ensures var gs, hs, s := if left then g.L else g.R, if left then h.L else h.R,
                             if left then Add(g, h).L else Add(g, h).R;
      s == (if |gs| == 1 then [Add(gs[0], h)] else []) + (if |hs| == 1 then [Add(g, hs[0])] else [])
  {
    var gs, hs := if left then g.L else g.R, if left then h.L else h.R;
    var s := if left then Add(g, h).L else Add(g, h).R;
    assert |s| == |gs| + |hs|;
    if |gs| == 1 {
      AddOptionAt(g, h, 0, left);
    }
    if |hs| == 1 {
      AddOptionAt(g, h, |gs|, left);
    }
    Singles(s, |gs|, |hs|, if |gs| == 1 then Add(gs[0], h) else h,
            if |hs| == 1 then Add(g, hs[0]) else g);
  }

  /** A list of m + n <= 2 entries, m, n <= 1, given entry by entry. */
  lemma Singles(s: seq<Game>, m: nat, n: nat, e1: Game, e2: Game)
    requires m <= 1 && n <= 1 && |s| == m + n
    requires m == 1 ==> s[0] == e1
    requires n == 1 ==> s[m] == e2
    ensures s == (if m == 1 then [e1] else []) + (if n == 1 then [e2] else [])
  {
  }

  /** a + b as games equals the integer a + b. */
  lemma {:induction false} AddInteger(a: int, b: int)
    ensures Eq(Add(Integer(a), Integer(b)), Integer(a + b))
    decreases Abs(a) + Abs(b), 1
  {
    AddIntegerLeft(a, b);
    AddIntegerRight(a, b);
    IntegerByOptions(Add(Integer(a), Integer(b)), a + b);
  }

  lemma {:induction false} AddIntegerLeft(a: int, b: int)
    ensures a + b > 0 ==> |Add(Integer(a), Integer(b)).L| > 0
    ensures forall x :: x in Add(Integer(a), Integer(b)).L ==> Eq(x, Integer(a + b - 1))
    decreases Abs(a) + Abs(b), 0
  {
    AddIntegerShape(a, b);
    if a > 0 {
      AddInteger(a - 1, b);
    }
    if b > 0 {
      AddInteger(a, b - 1);
    }
    AllEqual(Add(Integer(a), Integer(b)).L, Add(Integer(a - 1), Integer(b)),
             Add(Integer(a), Integer(b - 1)), a > 0, b > 0, Integer(a + b - 1));
  }

  lemma {:induction false} AddIntegerRight(a: int, b: int)
    ensures a + b < 0 ==> |Add(Integer(a), Integer(b)).R| > 0
    ensures forall y :: y in Add(Integer(a), Integer(b)).R ==> Eq(y, Integer(a + b + 1))
    decreases Abs(a) + Abs(b), 0
  {
    AddIntegerShape(a, b);
    if a < 0 {
      AddInteger(a + 1, b);
    }
    if b < 0 {
      AddInteger(a, b + 1);
    }
    AllEqual(Add(Integer(a), Integer(b)).R, Add(Integer(a + 1), Integer(b)),
             Add(Integer(a), Integer(b + 1)), a < 0, b < 0, Integer(a + b + 1));
  }

  /** Every element of a list of at most two candidates equals c. */
  lemma AllEqual(s: seq<Game>, e1: Game, e2: Game, p1: bool, p2: bool, c: Game)
    requires s == (if p1 then [e1] else []) + (if p2 then [e2] else [])
    requires p1 ==> Eq(e1, c)
    requires p2 ==> Eq(e2, c)
    ensures p1 || p2 ==> |s| > 0
    ensures forall x :: x in s ==> Eq(x, c)
  {
  }

  // ---------------------------------------------------------------------
  // Products

  function Sign(n: int): int
  {
    if n > 0 then 1 else if n < 0 then -1 else 0
  }

  /** The options of a * b: with a, b both nonzero there is one product option,
      built from the options a - Sign(a) and b - Sign(b); it is a Left option when
      the signs agree and a Right option when they differ. */
  lemma MulIntegerShape(a: int, b: int)
    ensures a != 0 ==> Integer(a - Sign(a)) in Integer(a).L || Integer(a - Sign(a)) in Integer(a).R
    ensures b != 0 ==> Integer(b - Sign(b)) in Integer(b).L || Integer(b - Sign(b)) in Integer(b).R
    ensures var X := Mul(Integer(a), Integer(b));
      if a == 0 || b == 0 then X.L == [] && X.R == []
      else
        var T := Term(Integer(a), Integer(b), Integer(a - Sign(a)), Integer(b - Sign(b)));
        if Sign(a) == Sign(b) then X.L == [T] && X.R == [] else X.L == [] && X.R == [T]
  {
    var g, h := Integer(a), Integer(b);
    IntegerShape(a);
    IntegerShape(b);
    if a == 0 || b == 0 {
      MulZero(g);
      MulZero(h);
    } else {
      MulOfSingles(g, h, Integer(a - Sign(a)), Integer(b - Sign(b)));
    }
  }

  /** The product of two games with one option each has the one option
      x*h + g*y - x*y, for Left when both options belong to the same player. */
  lemma MulOfSingles(g: Game, h: Game, x: Game, y: Game)
    requires (g.L == [x] && g.R == []) || (g.L == [] && g.R == [x])
    requires (h.L == [y] && h.R == []) || (h.L == [] && h.R == [y])
    ensures x in g.L || x in g.R
    ensures y in h.L || y in h.R
    ensures var X, T := Mul(g, h), Term(g, h, x, y);
      if (g.L == [x]) == (h.L == [y]) then X.L == [T] && X.R == [] else X.L == [] && X.R == [T]
  {
    TermsPair(g, h, g.L, h.L);
    TermsPair(g, h, g.R, h.R);
    TermsPair(g, h, g.L, h.R);
    TermsPair(g, h, g.R, h.L);
  }

  /** Product options of at most one x and at most one y. */
  lemma TermsPair(g: Game, h: Game, xs: seq<Game>, ys: seq<Game>)
    requires |xs| <= 1 && |ys| <= 1
    requires forall x :: x in xs ==> x in g.L || x in g.R
    requires forall y :: y in ys ==> y in h.L || y in h.R
    ensures Terms(g, h, xs, ys) ==
      if xs == [] || ys == [] then [] else [Term(g, h, xs[0], ys[0])]
  {
    if xs != [] {
      if ys == [] {
        TermsNoRight(g, h, xs);
      } else {
        TermsSingle(g, h, xs, ys[0]);
        assert ys == [ys[0]];
      }
    }
  }

  /** The product option p * b + a * q - p * q of integers, given the three
      products it is built from. */
  lemma TermInteger(a: int, b: int, p: int, q: int)
    requires Integer(p) in Integer(a).L || Integer(p) in Integer(a).R
    requires Integer(q) in Integer(b).L || Integer(q) in Integer(b).R
    requires Eq(Mul(Integer(p), Integer(b)), Integer(p * b))
    requires Eq(Mul(Integer(a), Integer(q)), Integer(a * q))
    requires Eq(Mul(Integer(p), Integer(q)), Integer(p * q))
    ensures Eq(Term(Integer(a), Integer(b), Integer(p), Integer(q)), Integer(p * b + a * q - p * q))
  {
    var m1, m2, m3 := Mul(Integer(p), Integer(b)), Mul(Integer(a), Integer(q)), Mul(Integer(p), Integer(q));
    SumInteger(m1, m2, p * b, a * q);
    NegEq(m3, Integer(p * q));
    NegInteger(p * q);
    SumInteger(Add(m1, m2), Neg(m3), p * b + a * q, -(p * q));
  }

  /** Games equal to the integers u and v sum to u + v. */
  lemma SumInteger(x: Game, y: Game, u: int, v: int)
    requires Eq(x, Integer(u)) && Eq(y, Integer(v))
    ensures Eq(Add(x, y), Integer(u + v))
  {
    AddCongruence(x, Integer(u), y, Integer(v));
    AddInteger(u, v);
    EqTrans(Add(x, y), Add(Integer(u), Integer(v)), Integer(u + v));
  }

  /** The value of a product option: a * b less the product of the two steps. */
  lemma TermValue(a: int, b: int, s: int, t: int)
    ensures (a - s) * b + a * (b - t) - (a - s) * (b - t) == a * b - s * t
  {
  }

  lemma ProductSign(a: int, b: int)
    ensures a == 0 || b == 0 ==> a * b == 0
    ensures a != 0 && b != 0 && Sign(a) == Sign(b) ==> Sign(a) * Sign(b) == 1 && a * b > 0
    ensures a != 0 && b != 0 && Sign(a) != Sign(b) ==> Sign(a) * Sign(b) == -1 && a * b < 0
  {
    if (a > 0 && b > 0) || (a < 0 && b < 0) {
      assert a * b > 0;
    } else if (a > 0 && b < 0) || (a < 0 && b > 0) {
      assert a * b < 0;
    }
  }

  /** a * b as games equals the integer a * b. */
  lemma {:induction false} MulInteger(a: int, b: int)
    ensures Eq(Mul(Integer(a), Integer(b)), Integer(a * b))
    decreases Abs(a) + Abs(b), 1
  {
    var X := Mul(Integer(a), Integer(b));
    MulIntegerShape(a, b);
    ProductSign(a, b);
    if a == 0 || b == 0 {
      IntegerByOptions(X, 0);
    } else {
      MulIntegerOption(a, b);
      var T := Term(Integer(a), Integer(b), Integer(a - Sign(a)), Integer(b - Sign(b)));
      OneOption(X, T, a * b, Sign(a) == Sign(b));
    }
  }

  /** A game whose only option is T equals c when T is the integer next to c on
      that side. */
  lemma OneOption(X: Game, T: Game, c: int, left: bool)
    requires if left then X.L == [T] && X.R == [] && c > 0 else X.L == [] && X.R == [T] && c < 0
    requires Eq(T, Integer(if left then c - 1 else c + 1))
    ensures Eq(X, Integer(c))
  {
    IntegerByOptions(X, c);
  }

  /** The one product option of a * b is the integer next to a * b on its side. */
  lemma {:induction false} MulIntegerOption(a: int, b: int)
    requires a != 0 && b != 0
    ensures Integer(a - Sign(a)) in Integer(a).L || Integer(a - Sign(a)) in Integer(a).R
    ensures Integer(b - Sign(b)) in Integer(b).L || Integer(b - Sign(b)) in Integer(b).R
    ensures Eq(Term(Integer(a), Integer(b), Integer(a - Sign(a)), Integer(b - Sign(b))),
               Integer(if Sign(a) == Sign(b) then a * b - 1 else a * b + 1))
    decreases Abs(a) + Abs(b), 0
  {
    var p, q := a - Sign(a), b - Sign(b);
    IntegerShape(a);
    IntegerShape(b);
    MulInteger(p, b);
    MulInteger(a, q);
    MulInteger(p, q);
    TermInteger(a, b, p, q);
    TermValue(a, b, Sign(a), Sign(b));
    ProductSign(a, b);
  }
}
