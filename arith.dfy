/** Negation, disjunctive sum and Conway's product of games. Results are
    raw (not canonical); module Canon reduces them on demand. */
module Arith {
  import opened Games
  import opened Order

  /** -g: the roles of Left and Right swapped at every node. */
  function Neg(g: Game): Game
  {
    G(seq(|g.R|, i requires 0 <= i < |g.R| => Neg(g.R[i])),
      seq(|g.L|, i requires 0 <= i < |g.L| => Neg(g.L[i])))
  }

  /** g + h: a move is a move in exactly one of the two components. */
  function Add(g: Game, h: Game): Game
    decreases g, h
  {
    G(seq(|g.L|, i requires 0 <= i < |g.L| => Add(g.L[i], h)) +
      seq(|h.L|, j requires 0 <= j < |h.L| => Add(g, h.L[j])),
      seq(|g.R|, i requires 0 <= i < |g.R| => Add(g.R[i], h)) +
      seq(|h.R|, j requires 0 <= j < |h.R| => Add(g, h.R[j])))
  }

  /** g - h. */
  function Sub(g: Game, h: Game): Game
  {
    Add(g, Neg(h))
  }

  /** Conway's product: Left's options pair Left with Left and Right with Right
      options, Right's options pair Left with Right and Right with Left options;
      each pair (x, y) contributes x*h + g*y - x*y. */
  function Mul(g: Game, h: Game): Game
    decreases Size(g) + Size(h), 2, 0
  {
    G(Terms(g, h, g.L, h.L) + Terms(g, h, g.R, h.R),
      Terms(g, h, g.L, h.R) + Terms(g, h, g.R, h.L))
  }

  /** The product options x*h + g*y - x*y for every x in xs and y in ys,
      grouped by x. */
  function Terms(g: Game, h: Game, xs: seq<Game>, ys: seq<Game>): seq<Game>
    requires forall x :: x in xs ==> x in g.L || x in g.R
    requires forall y :: y in ys ==> y in h.L || y in h.R
    decreases Size(g) + Size(h), 1, |xs|
  {
    if xs == [] then []
    else seq(|ys|, j requires 0 <= j < |ys| => Term(g, h, xs[0], ys[j])) + Terms(g, h, xs[1..], ys)
  }

  function Term(g: Game, h: Game, x: Game, y: Game): Game
    requires x in g.L || x in g.R
    requires y in h.L || y in h.R
    decreases Size(g) + Size(h), 0, 0
  {
    Sub(Add(Mul(x, h), Mul(g, y)), Mul(x, y))
  }

  // ---------------------------------------------------------------------
  // Options of negations and sums

  lemma NegOptions(g: Game)
    ensures |Neg(g).L| == |g.R| && |Neg(g).R| == |g.L|
    ensures forall i :: 0 <= i < |g.R| ==> Neg(g).L[i] == Neg(g.R[i])
    ensures forall i :: 0 <= i < |g.L| ==> Neg(g).R[i] == Neg(g.L[i])
    ensures forall y :: y in g.R ==> Neg(y) in Neg(g).L
    ensures forall x :: x in g.L ==> Neg(x) in Neg(g).R
    ensures forall z :: z in Neg(g).L ==> exists y :: y in g.R && z == Neg(y)
    ensures forall z :: z in Neg(g).R ==> exists x :: x in g.L && z == Neg(x)
  {
    forall y | y in g.R ensures Neg(y) in Neg(g).L {
      var i :| 0 <= i < |g.R| && g.R[i] == y;
      assert Neg(g).L[i] == Neg(y);
    }
    forall x | x in g.L ensures Neg(x) in Neg(g).R {
      var i :| 0 <= i < |g.L| && g.L[i] == x;
      assert Neg(g).R[i] == Neg(x);
    }
    forall z | z in Neg(g).L ensures exists y :: y in g.R && z == Neg(y) {
      var i :| 0 <= i < |Neg(g).L| && Neg(g).L[i] == z;
      assert g.R[i] in g.R;
    }
    forall z | z in Neg(g).R ensures exists x :: x in g.L && z == Neg(x) {
      var i :| 0 <= i < |Neg(g).R| && Neg(g).R[i] == z;
      assert g.L[i] in g.L;
    }
  }

  lemma AddOptions(g: Game, h: Game)
    ensures forall x :: x in g.L ==> Add(x, h) in Add(g, h).L
    ensures forall y :: y in h.L ==> Add(g, y) in Add(g, h).L
    ensures forall x :: x in g.R ==> Add(x, h) in Add(g, h).R
    ensures forall y :: y in h.R ==> Add(g, y) in Add(g, h).R
    ensures forall z :: z in Add(g, h).L ==>
      (exists x :: x in g.L && z == Add(x, h)) || (exists y :: y in h.L && z == Add(g, y))
    ensures forall z :: z in Add(g, h).R ==>
      (exists x :: x in g.R && z == Add(x, h)) || (exists y :: y in h.R && z == Add(g, y))
  {
    AddOptionsIn(g, h);
    forall z | z in Add(g, h).L
      ensures (exists x :: x in g.L && z == Add(x, h)) || (exists y :: y in h.L && z == Add(g, y))
    {
      AddOptionCases(g, h, z, true);
    }
    forall z | z in Add(g, h).R
      ensures (exists x :: x in g.R && z == Add(x, h)) || (exists y :: y in h.R && z == Add(g, y))
    {
      AddOptionCases(g, h, z, false);
    }
  }

  lemma AddOptionsIn(g: Game, h: Game)
    ensures forall x :: x in g.L ==> Add(x, h) in Add(g, h).L
    ensures forall y :: y in h.L ==> Add(g, y) in Add(g, h).L
    ensures forall x :: x in g.R ==> Add(x, h) in Add(g, h).R
    ensures forall y :: y in h.R ==> Add(g, y) in Add(g, h).R
  {
    var s := Add(g, h);
    forall x | x in g.L ensures Add(x, h) in s.L { AddOptionFirst(g.L, h.L, s.L, x, h); }
    forall x | x in g.R ensures Add(x, h) in s.R { AddOptionFirst(g.R, h.R, s.R, x, h); }
    forall y | y in h.L ensures Add(g, y) in s.L { AddOptionSecond(g.L, h.L, s.L, g, y); }
    forall y | y in h.R ensures Add(g, y) in s.R { AddOptionSecond(g.R, h.R, s.R, g, y); }
  }

  /** An option of g + h is a move in g or a move in h. */
  lemma AddOptionCases(g: Game, h: Game, z: Game, left: bool)
    requires z in (if left then Add(g, h).L else Add(g, h).R)
    ensures var gs, hs := if left then g.L else g.R, if left then h.L else h.R;
      (exists x :: x in gs && z == Add(x, h)) || (exists y :: y in hs && z == Add(g, y))
  {
    var s := if left then Add(g, h).L else Add(g, h).R;
    var k :| 0 <= k < |s| && s[k] == z;
    AddOptionAt(g, h, k, left);
  }

  /** Position k of one side of g + h: a move in g, or a move in h. */
  lemma AddOptionAt(g: Game, h: Game, k: int, left: bool)
    requires 0 <= k < (if left then |Add(g, h).L| else |Add(g, h).R|)
    ensures var gs, hs, s := if left then g.L else g.R, if left then h.L else h.R,
                             if left then Add(g, h).L else Add(g, h).R;
      |s| == |gs| + |hs| &&
      (k < |gs| ==> gs[k] in gs && s[k] == Add(gs[k], h)) &&
      (k >= |gs| ==> hs[k - |gs|] in hs && s[k] == Add(g, hs[k - |gs|]))
  {
  }

  lemma AddOptionFirst(gs: seq<Game>, hs: seq<Game>, s: seq<Game>, x: Game, h: Game)
    requires x in gs
    requires |s| == |gs| + |hs| && forall i :: 0 <= i < |gs| ==> s[i] == Add(gs[i], h)
    ensures Add(x, h) in s
  {
    var i :| 0 <= i < |gs| && gs[i] == x;
    assert s[i] == Add(x, h);
  }

  lemma AddOptionSecond(gs: seq<Game>, hs: seq<Game>, s: seq<Game>, g: Game, y: Game)
    requires y in hs
    requires |s| == |gs| + |hs| && forall j :: 0 <= j < |hs| ==> s[|gs| + j] == Add(g, hs[j])
    ensures Add(g, y) in s
  {
    var j :| 0 <= j < |hs| && hs[j] == y;
    assert s[|gs| + j] == Add(g, y);
  }

  // ---------------------------------------------------------------------
  // Negation

  lemma {:induction false} NegNeg(g: Game)
    ensures Neg(Neg(g)) == g
  {
    var n := Neg(Neg(g));
    forall i | 0 <= i < |g.L| ensures n.L[i] == g.L[i] { NegNeg(g.L[i]); }
    forall i | 0 <= i < |g.R| ensures n.R[i] == g.R[i] { NegNeg(g.R[i]); }
  }

  /** -{ a | b } = { -b | -a }. */
  lemma NegSimple(a: Game, b: Game)
    ensures Neg(G([a], [b])) == G([Neg(b)], [Neg(a)])
  {
    var n := Neg(G([a], [b]));
    assert n.L == [Neg(b)] && n.R == [Neg(a)];
  }

  lemma NegZero()
    ensures Neg(Zero) == Zero
  {
  }

  /** Negation reverses the order. */
  lemma {:induction false} NegLe(g: Game, h: Game)
    ensures Le(g, h) <==> Le(Neg(h), Neg(g))
    decreases Size(g) + Size(h)
  {
    NegOptions(g);
    NegOptions(h);
    forall y | y in h.R ensures Le(y, g) <==> Le(Neg(g), Neg(y)) { NegLe(y, g); }
    forall x | x in g.L ensures Le(h, x) <==> Le(Neg(x), Neg(h)) { NegLe(h, x); }
  }

  lemma NegEq(g: Game, h: Game)
    ensures Eq(g, h) <==> Eq(Neg(g), Neg(h))
  {
    NegLe(g, h);
    NegLe(h, g);
  }

  lemma {:induction false} NegAdd(g: Game, h: Game)
    ensures Neg(Add(g, h)) == Add(Neg(g), Neg(h))
    decreases g, h
  {
    var a, b := Neg(Add(g, h)), Add(Neg(g), Neg(h));
    NegOptions(g);
    NegOptions(h);
    assert |a.L| == |b.L| && |a.R| == |b.R|;
    forall k | 0 <= k < |a.L| ensures a.L[k] == b.L[k] {
      if k < |g.R| { NegAdd(g.R[k], h); } else { NegAdd(g, h.R[k - |g.R|]); }
    }
    forall k | 0 <= k < |a.R| ensures a.R[k] == b.R[k] {
      if k < |g.L| { NegAdd(g.L[k], h); } else { NegAdd(g, h.L[k - |g.L|]); }
    }
  }

  // ---------------------------------------------------------------------
  // Sum

  /** Zero is the identity of the sum, on both sides, structurally. */
  lemma {:induction false} AddZero(g: Game)
    ensures Add(g, Zero) == g && Add(Zero, g) == g
  {
    var a, b := Add(g, Zero), Add(Zero, g);
    forall i | 0 <= i < |g.L| ensures a.L[i] == g.L[i] && b.L[i] == g.L[i] { AddZero(g.L[i]); }
    forall i | 0 <= i < |g.R| ensures a.R[i] == g.R[i] && b.R[i] == g.R[i] { AddZero(g.R[i]); }
  }

  /** The sum is associative, structurally (the option lists come out in the same order). */
  lemma {:induction false} AddAssoc(a: Game, b: Game, c: Game)
    ensures Add(Add(a, b), c) == Add(a, Add(b, c))
    decreases Size(a) + Size(b) + Size(c), 1
  {
    var p, q := Add(Add(a, b), c), Add(a, Add(b, c));
    forall k | 0 <= k < |p.L| ensures k < |q.L| && p.L[k] == q.L[k] {
      AddAssocAt(a, b, c, k, true);
    }
    forall k | 0 <= k < |p.R| ensures k < |q.R| && p.R[k] == q.R[k] {
      AddAssocAt(a, b, c, k, false);
    }
    assert |p.L| == |q.L| && |p.R| == |q.R|;
  }

  /** Position k of one side of (a + b) + c and of a + (b + c): the same move, made
      in a, b or c. */
  lemma {:induction false} AddAssocAt(a: Game, b: Game, c: Game, k: int, left: bool)
    requires 0 <= k < (if left then |Add(Add(a, b), c).L| else |Add(Add(a, b), c).R|)
    ensures var p, q := Add(Add(a, b), c), Add(a, Add(b, c));
      if left then k < |q.L| && p.L[k] == q.L[k] else k < |q.R| && p.R[k] == q.R[k]
    decreases Size(a) + Size(b) + Size(c), 0
  {
    var ab, bc := Add(a, b), Add(b, c);
    var sa, sb, sc := if left then a.L else a.R, if left then b.L else b.R, if left then c.L else c.R;
    AddOptionAt(ab, c, k, left);
    AddOptionAt(a, bc, k, left);
    if k < |sa| {
      AddOptionAt(a, b, k, left);
      AddAssoc(sa[k], b, c);
    } else if k < |sa| + |sb| {
      AddOptionAt(a, b, k, left);
      AddOptionAt(b, c, k - |sa|, left);
      AddAssoc(a, sb[k - |sa|], c);
    } else {
      AddOptionAt(b, c, k - |sa|, left);
      AddAssoc(a, b, sc[k - |sa| - |sb|]);
    }
  }

  lemma {:induction false} AddComm(g: Game, h: Game)
    ensures Eq(Add(g, h), Add(h, g))
    decreases Size(g) + Size(h)
  {
    var a, b := Add(g, h), Add(h, g);
    AddOptions(g, h);
    AddOptions(h, g);
    forall z | z in a.L ensures exists w :: w in b.L && Le(z, w) && Le(w, z) {
      if x :| x in g.L && z == Add(x, h) {
        AddComm(x, h);
        assert Add(h, x) in b.L;
      } else {
        var y :| y in h.L && z == Add(g, y);
        AddComm(g, y);
        assert Add(y, g) in b.L;
      }
    }
    forall z | z in a.R ensures exists w :: w in b.R && Le(z, w) && Le(w, z) {
      if x :| x in g.R && z == Add(x, h) {
        AddComm(x, h);
        assert Add(h, x) in b.R;
      } else {
        var y :| y in h.R && z == Add(g, y);
        AddComm(g, y);
        assert Add(y, g) in b.R;
      }
    }
    forall z | z in b.L ensures exists w :: w in a.L && Le(z, w) && Le(w, z) {
      if x :| x in h.L && z == Add(x, g) {
        AddComm(g, x);
        assert Add(g, x) in a.L;
      } else {
        var y :| y in g.L && z == Add(h, y);
        AddComm(y, h);
        assert Add(y, h) in a.L;
      }
    }
    forall z | z in b.R ensures exists w :: w in a.R && Le(z, w) && Le(w, z) {
      if x :| x in h.R && z == Add(x, g) {
        AddComm(g, x);
        assert Add(g, x) in a.R;
      } else {
        var y :| y in g.R && z == Add(h, y);
        AddComm(y, h);
        assert Add(y, h) in a.R;
      }
    }
    LeByOptions(a, b);
    LeByOptions(b, a);
  }

  /** Adding the same game to both sides preserves the order. */
  lemma {:induction false} AddMonotone(g: Game, h: Game, k: Game)
    requires Le(g, h)
    ensures Le(Add(g, k), Add(h, k))
    decreases Size(g) + Size(h) + Size(k)
  {
    var a, b := Add(g, k), Add(h, k);
    AddOptions(g, k);
    AddOptions(h, k);
    forall z | z in a.L ensures !Le(b, z) {
      if x :| x in g.L && z == Add(x, k) {
        if Le(b, z) {
          assert !Le(h, x);
          AddOptions(x, k);
          if hl :| hl in h.L && Le(x, hl) {
            AddMonotone(x, hl, k);
            LeTrans(b, z, Add(hl, k));
            LeRefl(b);
          } else {
            var xr :| xr in x.R && Le(xr, h);
            AddMonotone(xr, h, k);
            LeTrans(Add(xr, k), b, z);
            LeRefl(z);
          }
        }
      } else {
        var y :| y in k.L && z == Add(g, y);
        if Le(b, z) {
          AddOptions(h, y);
          AddMonotone(g, h, y);
          LeTrans(b, z, Add(h, y));
          LeRefl(b);
        }
      }
    }
    forall w | w in b.R ensures !Le(w, a) {
      if x :| x in h.R && w == Add(x, k) {
        if Le(w, a) {
          assert !Le(x, g);
          AddOptions(x, k);
          if xl :| xl in x.L && Le(g, xl) {
            AddMonotone(g, xl, k);
            LeTrans(w, a, Add(xl, k));
            LeRefl(w);
          } else {
            var gr :| gr in g.R && Le(gr, x);
            AddMonotone(gr, x, k);
            LeTrans(Add(gr, k), w, a);
            LeRefl(a);
          }
        }
      } else {
        var y :| y in k.R && w == Add(h, y);
        if Le(w, a) {
          AddMonotone(g, h, y);
          LeTrans(Add(g, y), w, a);
          LeRefl(a);
        }
      }
    }
  }

  lemma AddMonotoneLeft(k: Game, g: Game, h: Game)
    requires Le(g, h)
    ensures Le(Add(k, g), Add(k, h))
  {
    AddMonotone(g, h, k);
    AddComm(k, g);
    AddComm(h, k);
    LeTrans(Add(k, g), Add(g, k), Add(h, k));
    LeTrans(Add(k, g), Add(h, k), Add(k, h));
  }

  /** Equivalent summands give equivalent sums. */
  lemma AddCongruence(g: Game, g': Game, h: Game, h': Game)
    requires Eq(g, g') && Eq(h, h')
    ensures Eq(Add(g, h), Add(g', h'))
  {
    AddMonotone(g, g', h);
    AddMonotone(g', g, h);
    AddMonotoneLeft(g', h, h');
    AddMonotoneLeft(g', h', h);
    EqTrans(Add(g, h), Add(g', h), Add(g', h'));
  }

  /** g + (-g) = 0 for every game. */
  lemma {:induction false} AddNegZero(g: Game)
    ensures Eq(Add(g, Neg(g)), Zero)
    decreases Size(g)
  {
    var s := Add(g, Neg(g));
    NegOptions(g);
    AddOptions(g, Neg(g));
    forall z | z in s.L ensures !Le(Zero, z) {
      if x :| x in g.L && z == Add(x, Neg(g)) {
        AddOptions(x, Neg(g));
        AddNegZero(x);
        NotLeByRight(Zero, z, Add(x, Neg(x)));
      } else {
        var y :| y in Neg(g).L && z == Add(g, y);
        var r :| r in g.R && y == Neg(r);
        AddOptions(g, y);
        AddNegZero(r);
        NotLeByRight(Zero, z, Add(r, Neg(r)));
      }
    }
    forall w | w in s.R ensures !Le(w, Zero) {
      if x :| x in g.R && w == Add(x, Neg(g)) {
        AddOptions(x, Neg(g));
        AddNegZero(x);
        NotLeByLeft(w, Zero, Add(x, Neg(x)));
      } else {
        var y :| y in Neg(g).R && w == Add(g, y);
        var l :| l in g.L && y == Neg(l);
        AddOptions(g, y);
        AddNegZero(l);
        NotLeByLeft(w, Zero, Add(l, Neg(l)));
      }
    }
  }

  /** The converse of monotonicity: a common summand can be cancelled. */
  lemma AddCancel(g: Game, h: Game, k: Game)
    requires Le(Add(g, k), Add(h, k))
    ensures Le(g, h)
  {
    var nk := Neg(k);
    AddMonotone(Add(g, k), Add(h, k), nk);
    AddAssoc(g, k, nk);
    AddAssoc(h, k, nk);
    AddNegZero(k);
    EqRefl(g);
    EqRefl(h);
    AddCongruence(g, g, Add(k, nk), Zero);
    AddCongruence(h, h, Add(k, nk), Zero);
    AddZero(g);
    AddZero(h);
    LeTrans(g, Add(g, Add(k, nk)), Add(h, Add(k, nk)));
    LeTrans(g, Add(h, Add(k, nk)), h);
  }

  // ---------------------------------------------------------------------
  // Product

  lemma {:induction false} TermsNoRight(g: Game, h: Game, xs: seq<Game>)
    requires forall x :: x in xs ==> x in g.L || x in g.R
    ensures Terms(g, h, xs, []) == []
    decreases |xs|
  {
    if xs != [] {
      TermsNoRight(g, h, xs[1..]);
    }
  }

  /** With a single y, the product options are x*h + g*y - x*y in the order of xs. */
  lemma {:induction false} TermsSingle(g: Game, h: Game, xs: seq<Game>, y: Game)
    requires forall x :: x in xs ==> x in g.L || x in g.R
    requires y in h.L || y in h.R
    ensures |Terms(g, h, xs, [y])| == |xs|
    ensures forall i :: 0 <= i < |xs| ==> Terms(g, h, xs, [y])[i] == Term(g, h, xs[i], y)
    decreases |xs|
  {
    if xs != [] {
      TermsSingle(g, h, xs[1..], y);
    }
  }

  /** With a single x, the product options are x*h + g*y - x*y in the order of ys. */
  lemma TermsSingleLeft(g: Game, h: Game, x: Game, ys: seq<Game>)
    requires x in g.L || x in g.R
    requires forall y :: y in ys ==> y in h.L || y in h.R
    ensures |Terms(g, h, [x], ys)| == |ys|
    ensures forall j :: 0 <= j < |ys| ==> Terms(g, h, [x], ys)[j] == Term(g, h, x, ys[j])
  {
    assert [x][1..] == [];
  }

  /** g * 0 = 0 and 0 * g = 0, structurally. */
  lemma MulZero(g: Game)
    ensures Mul(g, Zero) == Zero && Mul(Zero, g) == Zero
  {
    TermsNoRight(g, Zero, g.L);
    TermsNoRight(g, Zero, g.R);
  }

  /** g * 1 = g, structurally. */
  lemma {:induction false} MulOne(g: Game)
    ensures Mul(g, One) == g
    decreases Size(g)
  {
    forall x | x in g.L || x in g.R
      ensures Mul(x, One) == x
    {
      MulOne(x);
    }
    assert One.L == [Zero] && One.R == [];
    TermsNoRight(g, One, g.L);
    TermsNoRight(g, One, g.R);
    TermsByOne(g, g.L);
    TermsByOne(g, g.R);
  }

  /** The product options of g * 1 from the options xs are xs themselves, once
      each x * 1 = x. */
  lemma {:induction false} TermsByOne(g: Game, xs: seq<Game>)
    requires forall x :: x in xs ==> x in g.L || x in g.R
    requires forall x :: x in xs ==> Mul(x, One) == x
    ensures Terms(g, One, xs, [Zero]) == xs
    decreases |xs|
  {
    assert Zero in One.L;
    if xs != [] {
      TermByOne(g, xs[0]);
      TermsByOne(g, xs[1..]);
      assert xs == [xs[0]] + xs[1..];
    }
  }

  /** The product option x*1 + g*0 - x*0 is x once x*1 = x. */
  lemma TermByOne(g: Game, x: Game)
    requires x in g.L || x in g.R
    requires Mul(x, One) == x
    ensures Term(g, One, x, Zero) == x
  {
    assert Zero in One.L;
    MulZero(g);
    MulZero(x);
    NegZero();
    AddZero(x);
  }

  /** 1 * g = g, structurally. */
  lemma {:induction false} OneMul(g: Game)
    ensures Mul(One, g) == g
    decreases Size(g)
  {
    forall y | y in g.L || y in g.R
      ensures Mul(One, y) == y
    {
      OneMul(y);
    }
    assert One.L == [Zero] && One.R == [];
    assert Terms(One, g, [], g.R) == [] && Terms(One, g, [], g.L) == [];
    OneByTerms(g, g.L);
    OneByTerms(g, g.R);
  }

  /** The product options of 1 * g from the options ys are ys themselves, once
      each 1 * y = y. */
  lemma OneByTerms(g: Game, ys: seq<Game>)
    requires forall y :: y in ys ==> y in g.L || y in g.R
    requires forall y :: y in ys ==> Mul(One, y) == y
    ensures Terms(One, g, [Zero], ys) == ys
  {
    assert Zero in One.L;
    TermsSingleLeft(One, g, Zero, ys);
    forall j | 0 <= j < |ys| ensures Terms(One, g, [Zero], ys)[j] == ys[j] {
      assert ys[j] in ys;
      OneByTerm(g, ys[j]);
    }
  }

  /** The product option 0*g + 1*y - 0*y is y once 1*y = y. */
  lemma OneByTerm(g: Game, y: Game)
    requires y in g.L || y in g.R
    requires Mul(One, y) == y
    ensures Term(One, g, Zero, y) == y
  {
    assert Zero in One.L;
    MulZero(g);
    MulZero(y);
    NegZero();
    AddZero(y);
  }

  /** g * (-1) = -g, structurally. */
  lemma {:induction false} MulMinusOne(g: Game)
    ensures Mul(g, MinusOne) == Neg(g)
    decreases Size(g)
  {
    var p := Mul(g, MinusOne);
    TermsSingle(g, MinusOne, g.L, Zero);
    TermsSingle(g, MinusOne, g.R, Zero);
    TermsNoRight(g, MinusOne, g.L);
    TermsNoRight(g, MinusOne, g.R);
    MulZero(g);
    forall i | 0 <= i < |g.R| ensures p.L[i] == Neg(g).L[i] {
      assert g.R[i] in g.R;
      MulMinusOne(g.R[i]);
      MulZero(g.R[i]);
      AddZero(Neg(g.R[i]));
    }
    forall i | 0 <= i < |g.L| ensures p.R[i] == Neg(g).R[i] {
      assert g.L[i] in g.L;
      MulMinusOne(g.L[i]);
      MulZero(g.L[i]);
      AddZero(Neg(g.L[i]));
    }
  }
}
