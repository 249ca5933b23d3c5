/** Integers and dyadic rationals as games, built by the simplest-number rule:
    n + 1 = { n | }, -(n + 1) = { | -n }, and an odd m / 2^k (k >= 1) is
    { (m - 1) / 2^k | (m + 1) / 2^k }. */
module Numbers {
  import opened Games
  import opened Order
  import opened Arith

  function Pow2(k: nat): (p: nat)
    ensures p >= 1
  {
    if k == 0 then 1 else 2 * Pow2(k - 1)
  }

  lemma {:induction false} Pow2Add(a: nat, b: nat)
    ensures Pow2(a + b) == Pow2(a) * Pow2(b)
    decreases b
  {
    if b > 0 {
      Pow2Add(a, b - 1);
      assert Pow2(a + b) == 2 * Pow2(a + b - 1);
    }
  }

  /** The integer n as a game. */
  function Integer(n: int): Game
    decreases Abs(n)
  {
    if n > 0 then G([Integer(n - 1)], [])
    else if n < 0 then G([], [Integer(n + 1)])
    else Zero
  }

  /** The dyadic rational m / 2^k as a game. */
  function Dyadic(m: int, k: nat): Game
    decreases k
  {
    if k == 0 then Integer(m)
    else if m % 2 == 0 then Dyadic(m / 2, k - 1)
    else G([Dyadic((m - 1) / 2, k - 1)], [Dyadic((m + 1) / 2, k - 1)])
  }

  /** Lowest terms of m / 2^k: halve the numerator and the exponent while both allow it. */
  function Reduce(m: int, k: nat): (r: (int, nat))
    ensures r.1 <= k
    decreases k
  {
    if k == 0 || m % 2 != 0 then (m, k) else Reduce(m / 2, k - 1)
  }

  /** Reduce(m, k) = (a, i) names the same game, m / 2^k == a / 2^i, and a is odd
      unless i == 0. */
  lemma ReduceSpec(m: int, k: nat)
    ensures var r := Reduce(m, k);
      && m == r.0 * Pow2(k - r.1)
      && (r.1 == 0 || r.0 % 2 == 1)
      && Dyadic(m, k) == Dyadic(r.0, r.1)
  {
    ReduceValue(m, k);
    ReduceGame(m, k);
  }

  lemma {:induction false} ReduceValue(m: int, k: nat)
    ensures var r := Reduce(m, k);
      m == r.0 * Pow2(k - r.1) && (r.1 == 0 || r.0 % 2 == 1)
    decreases k
  {
    if k != 0 && m % 2 == 0 {
      ReduceValue(m / 2, k - 1);
      var r := Reduce(m / 2, k - 1);
      assert Reduce(m, k) == r;
      Double(m / 2, r.0, Pow2(k - 1 - r.1));
      assert Pow2(k - r.1) == 2 * Pow2(k - 1 - r.1);
    }
  }

  lemma Double(h: int, a: int, p: int)
    requires h == a * p
    ensures 2 * h == a * (2 * p)
  {
  }

  lemma {:induction false} ReduceGame(m: int, k: nat)
    ensures Dyadic(m, k) == Dyadic(Reduce(m, k).0, Reduce(m, k).1)
    decreases k
  {
    if k != 0 && m % 2 == 0 {
      ReduceGame(m / 2, k - 1);
      assert Reduce(m, k) == Reduce(m / 2, k - 1);
      assert Dyadic(m, k) == Dyadic(m / 2, k - 1);
    }
  }

  lemma IntegerOne()
    ensures Integer(1) == One && Integer(-1) == MinusOne && Integer(0) == Zero
  {
  }

  /** Writing a dyadic with a larger denominator does not change the game. */
  lemma {:induction false} DyadicScale(m: int, k: nat, d: nat)
    ensures Dyadic(m * Pow2(d), k + d) == Dyadic(m, k)
    decreases d
  {
    if d > 0 {
      var md, half := m * Pow2(d), m * Pow2(d - 1);
      EvenMultiple(m, d);
      assert Dyadic(md, k + d) == Dyadic(half, k + d - 1);
      DyadicScale(m, k, d - 1);
    }
  }

  lemma EvenMultiple(m: int, d: nat)
    requires d > 0
    ensures (m * Pow2(d)) % 2 == 0 && (m * Pow2(d)) / 2 == m * Pow2(d - 1)
  {
    var half := m * Pow2(d - 1);
    assert m * Pow2(d) == m * (2 * Pow2(d - 1)) == 2 * half;
  }

  lemma {:induction false} NegInteger(n: int)
    ensures Neg(Integer(n)) == Integer(-n)
    decreases Abs(n)
  {
    if n > 0 {
      NegInteger(n - 1);
    } else if n < 0 {
      NegInteger(n + 1);
    }
  }

  lemma {:induction false} NegDyadic(m: int, k: nat)
    ensures Neg(Dyadic(m, k)) == Dyadic(-m, k)
    decreases k, 1
  {
    if k == 0 {
      NegInteger(m);
    } else if m % 2 == 0 {
      NegDyadicEven(m, k);
    } else {
      NegDyadicOdd(m, k);
    }
  }

  lemma {:induction false} NegDyadicEven(m: int, k: nat)
    requires k > 0 && m % 2 == 0
    ensures Neg(Dyadic(m, k)) == Dyadic(-m, k)
    decreases k, 0
  {
    NegDyadic(m / 2, k - 1);
    NegHalves(m);
    assert Dyadic(m, k) == Dyadic(m / 2, k - 1);
    assert Dyadic(-m, k) == Dyadic((-m) / 2, k - 1);
  }

  lemma {:induction false} NegDyadicOdd(m: int, k: nat)
    requires k > 0 && m % 2 == 1
    ensures Neg(Dyadic(m, k)) == Dyadic(-m, k)
    decreases k, 0
  {
    var lo, hi := (m - 1) / 2, (m + 1) / 2;
    NegDyadic(lo, k - 1);
    NegDyadic(hi, k - 1);
    NegOddStep(m, k, lo, hi);
  }

  /** -(m / 2^k) for odd m, once the negations of its two halves are known. */
  lemma NegOddStep(m: int, k: nat, lo: int, hi: int)
    requires k > 0 && m % 2 == 1 && lo == (m - 1) / 2 && hi == (m + 1) / 2
    requires Neg(Dyadic(lo, k - 1)) == Dyadic(-lo, k - 1)
    requires Neg(Dyadic(hi, k - 1)) == Dyadic(-hi, k - 1)
    ensures Neg(Dyadic(m, k)) == Dyadic(-m, k)
  {
    DyadicOdd(m, k);
    DyadicOddNeg(m, k);
    NegOfPair(Dyadic(m, k), Dyadic(-m, k), Dyadic(lo, k - 1), Dyadic(hi, k - 1),
      Dyadic(-lo, k - 1), Dyadic(-hi, k - 1));
  }

  /** -{ x | y } = { -y | -x }, with the negations given. */
  lemma NegOfPair(g: Game, h: Game, x: Game, y: Game, nx: Game, ny: Game)
    requires g == G([x], [y]) && h == G([ny], [nx])
    requires Neg(x) == nx && Neg(y) == ny
    ensures Neg(g) == h
  {
    NegSimple(x, y);
  }

  /** -m / 2^k for odd m, with its options written through m's halves. */
  lemma DyadicOddNeg(m: int, k: nat)
    requires k >= 1 && m % 2 == 1
    ensures Dyadic(-m, k) == G([Dyadic(-((m + 1) / 2), k - 1)], [Dyadic(-((m - 1) / 2), k - 1)])
  {
    NegHalves(m);
    DyadicOdd(-m, k);
  }

  /** An odd m / 2^k, k >= 1, is { (m - 1) / 2^k | (m + 1) / 2^k } with both options
      written over 2^(k - 1). */
  lemma DyadicOdd(m: int, k: nat)
    requires k >= 1 && m % 2 == 1
    ensures Dyadic(m, k) == G([Dyadic((m - 1) / 2, k - 1)], [Dyadic((m + 1) / 2, k - 1)])
  {
  }

  /** Halving commutes with negation, for even and odd numerators alike. */
  lemma NegHalves(m: int)
    ensures m % 2 == 0 ==> (-m) % 2 == 0 && (-m) / 2 == -(m / 2)
    ensures m % 2 == 1 ==> (-m) % 2 == 1 && (-m - 1) / 2 == -((m + 1) / 2) && (-m + 1) / 2 == -((m - 1) / 2)
  {
  }

  // ---------------------------------------------------------------------
  // The order on dyadic games is the order of their values

  /** m / 2^k is an integer. */
  predicate Integral(m: int, k: nat)
  {
    Reduce(m, k).1 == 0
  }

  /** The distance, over the denominator 2^k, from m / 2^k to its options: 2^e
      where m / 2^k in lowest terms is q / 2^(k - e). */
  function Step(m: int, k: nat): (d: nat)
    ensures d >= 1
  {
    Pow2(k - Reduce(m, k).1)
  }

  /** The Left option of m / 2^k is (m - Step) / 2^k and the Right option is
      (m + Step) / 2^k; an integer has a Left option only when it is positive
      and a Right option only when it is negative. */
  lemma DyadicOptions(m: int, k: nat)
    ensures |Dyadic(m, k).L| <= 1 && |Dyadic(m, k).R| <= 1
    ensures |Dyadic(m, k).L| == 1 <==> (!Integral(m, k) || m > 0)
    ensures |Dyadic(m, k).R| == 1 <==> (!Integral(m, k) || m < 0)
    ensures |Dyadic(m, k).L| == 1 ==> Dyadic(m, k).L[0] == Dyadic(m - Step(m, k), k)
    ensures |Dyadic(m, k).R| == 1 ==> Dyadic(m, k).R[0] == Dyadic(m + Step(m, k), k)
  {
    if Integral(m, k) {
      IntegralOptions(m, k);
    } else {
      FractionalOptions(m, k);
    }
  }

  /** DyadicOptions for an integer m / 2^k. */
  lemma IntegralOptions(m: int, k: nat)
    requires Integral(m, k)
    ensures var g := Dyadic(m, k);
      && |g.L| == (if m > 0 then 1 else 0) && |g.R| == (if m < 0 then 1 else 0)
      && (|g.L| == 1 ==> g.L[0] == Dyadic(m - Step(m, k), k))
      && (|g.R| == 1 ==> g.R[0] == Dyadic(m + Step(m, k), k))
  {
    ReduceSpec(m, k);
    var a := Reduce(m, k).0;
    assert Step(m, k) == Pow2(k);
    assert Dyadic(m, k) == Integer(a);
    IntegerOptions(a, k);
  }

  /** DyadicOptions for an m / 2^k that is not an integer. */
  lemma FractionalOptions(m: int, k: nat)
    requires !Integral(m, k)
    ensures Dyadic(m, k).L == [Dyadic(m - Step(m, k), k)]
    ensures Dyadic(m, k).R == [Dyadic(m + Step(m, k), k)]
  {
    ReduceSpec(m, k);
    var r := Reduce(m, k);
    FractionOptions(r.0, r.1, k - r.1, m);
    assert r.1 + (k - r.1) == k;
  }

  /** The options of the integer a, written over the denominator 2^k. */
  lemma IntegerOptions(a: int, k: nat)
    ensures var X, d := Integer(a), Pow2(k);
      && |X.L| == (if a * d > 0 then 1 else 0)
      && |X.R| == (if a * d < 0 then 1 else 0)
      && (|X.L| == 1 ==> X.L[0] == Dyadic(a * d - d, k))
      && (|X.R| == 1 ==> X.R[0] == Dyadic(a * d + d, k))
  {
    var d := Pow2(k);
    SignOfMultiple(a, d);
    Neighbours(a, d);
    DyadicScale(a - 1, 0, k);
    DyadicScale(a + 1, 0, k);
  }

  /** The options of the odd a / 2^i, i >= 1, written over the denominator 2^(i + e). */
  lemma FractionOptions(a: int, i: nat, e: nat, m: int)
    requires i >= 1 && a % 2 == 1 && m == a * Pow2(e)
    ensures Dyadic(a, i).L == [Dyadic(m - Pow2(e), i + e)]
    ensures Dyadic(a, i).R == [Dyadic(m + Pow2(e), i + e)]
  {
    var d := Pow2(e);
    var lo, hi := (a - 1) / 2, (a + 1) / 2;
    DyadicOdd(a, i);
    HalfNeighbours(a, e);
    Neighbours(a, d);
    ScaledOption(lo, i, e, m - d);
    ScaledOption(hi, i, e, m + d);
  }

  /** c / 2^(i - 1) written over the denominator 2^(i + e). */
  lemma ScaledOption(c: int, i: nat, e: nat, n: int)
    requires i >= 1 && n == c * Pow2(e + 1)
    ensures Dyadic(n, i + e) == Dyadic(c, i - 1)
  {
    DyadicScale(c, i - 1, e + 1);
    assert i - 1 + (e + 1) == i + e;
  }

  lemma SignOfMultiple(a: int, d: int)
    requires d > 0
    ensures a * d > 0 <==> a > 0
    ensures a * d < 0 <==> a < 0
  {
    if a > 0 { MulMonotone(1, a, d); }
    if a <= 0 { MulMonotone(a, 0, d); }
    if a < 0 { MulMonotone(a, -1, d); }
    if a >= 0 { MulMonotone(0, a, d); }
  }

  lemma Neighbours(a: int, d: int)
    ensures (a - 1) * d == a * d - d && (a + 1) * d == a * d + d
  {
  }

  lemma HalfNeighbours(a: int, d: nat)
    requires a % 2 == 1
    ensures ((a - 1) / 2) * Pow2(d + 1) == (a - 1) * Pow2(d)
    ensures ((a + 1) / 2) * Pow2(d + 1) == (a + 1) * Pow2(d)
  {
    var p := Pow2(d);
    assert Pow2(d + 1) == 2 * p;
    var h := (a - 1) / 2;
    assert a - 1 == 2 * h;
    assert h * (2 * p) == (2 * h) * p;
    assert a + 1 == 2 * (h + 1);
    assert (h + 1) * (2 * p) == (2 * (h + 1)) * p;
  }

  lemma MulMonotone(a: int, b: int, d: int)
    requires d > 0 && a <= b
    ensures a * d <= b * d
  {
  }

  /** Two distinct multiples of d are at least d apart. */
  lemma MultipleGap(m: int, n: int, a: int, b: int, d: int)
    requires d > 0 && m == a * d && n == b * d && m > n
    ensures m - d >= n
  {
    if a <= b {
      MulMonotone(a, b, d);
    }
    MulMonotone(b, a - 1, d);
  }

  /** A multiple of 2^e' is a multiple of 2^e when e <= e'. */
  lemma PowMultiple(n: int, q: int, e: nat, e': nat)
    requires e <= e' && n == q * Pow2(e')
    ensures n == (q * Pow2(e' - e)) * Pow2(e)
  {
    Pow2Add(e' - e, e);
    assert e' - e + e == e';
  }

  /** Two dyadics over the same denominator compare as their numerators. */
  lemma DyadicLe(m: int, n: int, k: nat)
    ensures Le(Dyadic(m, k), Dyadic(n, k)) <==> m <= n
  {
    DyadicLeBelow(m, n, k, Size(Dyadic(m, k)) + Size(Dyadic(n, k)) + 1);
  }

  /** DyadicLe, by induction on a bound b of the combined size of the two games. */
  lemma {:induction false} DyadicLeBelow(m: int, n: int, k: nat, b: nat)
    requires Size(Dyadic(m, k)) + Size(Dyadic(n, k)) < b
    ensures Le(Dyadic(m, k), Dyadic(n, k)) <==> m <= n
    decreases b, 1
  {
    DyadicOptions(m, k);
    DyadicOptions(n, k);
    if !Integral(m, k) || m > 0 {
      LeftOptionLe(m, n, k, b);
    }
    if !Integral(n, k) || n < 0 {
      RightOptionLe(m, n, k, b);
    }
    LeBySingleOptions(Dyadic(m, k), Dyadic(n, k));
    if m > n {
      DyadicGap(m, n, k);
    }
  }

  /** The induction step for the Left option of m / 2^k. */
  lemma {:induction false} LeftOptionLe(m: int, n: int, k: nat, b: nat)
    requires !Integral(m, k) || m > 0
    requires Size(Dyadic(m, k)) + Size(Dyadic(n, k)) < b
    ensures Le(Dyadic(n, k), Dyadic(m - Step(m, k), k)) <==> n <= m - Step(m, k)
    decreases b, 0
  {
    NeighbourSmaller(m, k);
    DyadicLeBelow(n, m - Step(m, k), k, b - 1);
  }

  /** The induction step for the Right option of n / 2^k. */
  lemma {:induction false} RightOptionLe(m: int, n: int, k: nat, b: nat)
    requires !Integral(n, k) || n < 0
    requires Size(Dyadic(m, k)) + Size(Dyadic(n, k)) < b
    ensures Le(Dyadic(n + Step(n, k), k), Dyadic(m, k)) <==> n + Step(n, k) <= m
    decreases b, 0
  {
    NeighbourSmaller(n, k);
    DyadicLeBelow(n + Step(n, k), m, k, b - 1);
  }

  /** The neighbours of m / 2^k that are its options are smaller games. */
  lemma NeighbourSmaller(m: int, k: nat)
    ensures (!Integral(m, k) || m > 0) ==> Size(Dyadic(m - Step(m, k), k)) < Size(Dyadic(m, k))
    ensures (!Integral(m, k) || m < 0) ==> Size(Dyadic(m + Step(m, k), k)) < Size(Dyadic(m, k))
  {
    DyadicOptions(m, k);
    DyadicOptionsSmaller(m, k);
  }

  lemma OptionSmaller(g: Game, x: Game, left: bool)
    requires left ==> |g.L| == 1 && g.L[0] == x
    requires !left ==> |g.R| == 1 && g.R[0] == x
    ensures Size(x) < Size(g)
  {
    if left { assert x in g.L; } else { assert x in g.R; }
  }

  /** The shape of m / 2^k: at most one option each, (m - Step) / 2^k for Left
      and (m + Step) / 2^k for Right, each smaller than the game, Right's above
      Left's. */
  lemma DyadicShape(m: int, k: nat)
    ensures var g, a, b := Dyadic(m, k), m - Step(m, k), m + Step(m, k);
      && |g.L| <= 1 && |g.R| <= 1
      && (|g.L| == 1 ==> g.L[0] == Dyadic(a, k) && Size(Dyadic(a, k)) < Size(g))
      && (|g.R| == 1 ==> g.R[0] == Dyadic(b, k) && Size(Dyadic(b, k)) < Size(g))
      && (|g.L| == 1 && |g.R| == 1 ==> !Le(Dyadic(b, k), Dyadic(a, k)))
  {
    DyadicOptions(m, k);
    DyadicOptionsSmaller(m, k);
    DyadicNeighboursApart(m, k);
  }

  /** (m + Step) / 2^k is not <= (m - Step) / 2^k. */
  lemma DyadicNeighboursApart(m: int, k: nat)
    ensures !Le(Dyadic(m + Step(m, k), k), Dyadic(m - Step(m, k), k))
  {
    DyadicLe(m + Step(m, k), m - Step(m, k), k);
  }

  /** The options of m / 2^k are smaller games. */
  lemma DyadicOptionsSmaller(m: int, k: nat)
    ensures |Dyadic(m, k).L| == 1 ==> Size(Dyadic(m - Step(m, k), k)) < Size(Dyadic(m, k))
    ensures |Dyadic(m, k).R| == 1 ==> Size(Dyadic(m + Step(m, k), k)) < Size(Dyadic(m, k))
  {
    var g := Dyadic(m, k);
    DyadicOptions(m, k);
    if |g.L| == 1 {
      OptionSmaller(g, g.L[0], true);
    }
    if |g.R| == 1 {
      OptionSmaller(g, g.R[0], false);
    }
  }

  /** g <= h for a g with at most one Left option and an h with at most one Right option. */
  lemma LeBySingleOptions(g: Game, h: Game)
    requires |g.L| <= 1 && |h.R| <= 1
    ensures Le(g, h) <==> (|g.L| == 1 ==> !Le(h, g.L[0])) && (|h.R| == 1 ==> !Le(h.R[0], g))
  {
    if |g.L| == 1 { assert g.L == [g.L[0]]; }
    if |h.R| == 1 { assert h.R == [h.R[0]]; }
  }

  /** When m > n, either the Left option of m / 2^k or the Right option of n / 2^k
      lies between them. */
  lemma DyadicGap(m: int, n: int, k: nat)
    requires m > n
    ensures ((!Integral(m, k) || m > 0) && m - Step(m, k) >= n)
         || ((!Integral(n, k) || n < 0) && n + Step(n, k) <= m)
  {
    ReduceSpec(m, k);
    ReduceSpec(n, k);
    var rx, ry := Reduce(m, k), Reduce(n, k);
    var qx, ex, qy, ey := rx.0, k - rx.1, ry.0, k - ry.1;
    if ex <= ey {
      PowMultiple(n, qy, ex, ey);
      MultipleGap(m, n, qx, qy * Pow2(ey - ex), Pow2(ex));
      if !(!Integral(m, k) || m > 0) {
        assert ex == k && ey == k;
        MultipleGap(m, n, qx, qy, Pow2(ey));
      }
    } else {
      PowMultiple(m, qx, ey, ex);
      MultipleGap(m, n, qx * Pow2(ex - ey), qy, Pow2(ey));
    }
  }

  /** Dyadics over any two denominators compare by cross-multiplication. */
  lemma DyadicOrder(m: int, j: nat, n: int, l: nat)
    ensures Le(Dyadic(m, j), Dyadic(n, l)) <==> m * Pow2(l) <= n * Pow2(j)
  {
    DyadicScale(m, j, l);
    DyadicScale(n, l, j);
    assert j + l == l + j;
    DyadicLe(m * Pow2(l), n * Pow2(j), j + l);
  }

  /** An integer written over the denominator 2^k is that integer. */
  lemma DyadicInteger(n: int, k: nat)
    ensures Dyadic(n * Pow2(k), k) == Integer(n)
  {
    DyadicScale(n, 0, k);
  }

  lemma {:induction false} Pow2Mono(a: nat, b: nat)
    requires a <= b
    ensures Pow2(a) <= Pow2(b)
    decreases b
  {
    if a < b {
      Pow2Mono(a, b - 1);
    }
  }

  /** A multiple of 2^d, written over 2^k with d <= k, reduces to an exponent of
      at most k - d. */
  lemma {:induction false} ReduceMultiple(c: int, d: nat, k: nat)
    requires d <= k
    ensures Reduce(c * Pow2(d), k).1 <= k - d
    decreases d
  {
    if d > 0 {
      EvenMultiple(c, d);
      assert Reduce(c * Pow2(d), k) == Reduce(c * Pow2(d - 1), k - 1);
      ReduceMultiple(c, d - 1, k - 1);
    }
  }

  /** (2c) * 2^e == c * 2^(e + 1). */
  lemma TwiceMultiple(c: int, e: nat)
    ensures (2 * c) * Pow2(e) == c * Pow2(e + 1)
  {
    assert Pow2(e + 1) == 2 * Pow2(e);
  }

  /** Moving from m / 2^k to a neighbour m - s * Step(m, k), s = 1 or -1: the
      neighbour is a multiple of twice the step, or (from an integer) an integer. */
  lemma NeighbourStep(m: int, k: nat, s: int)
    requires s == 1 || s == -1
    ensures var a := m - s * Step(m, k);
      (Integral(m, k) ==> Integral(a, k)) &&
      (!Integral(m, k) ==> Step(a, k) > Step(m, k))
  {
    StepFactor(m, k);
    var q, p := Reduce(m, k).0, Step(m, k);
    NeighbourMultiple(q, p, s);
    NeighbourCore(k, s, q, Reduce(m, k).1, p, m - s * p, q - s);
  }

  /** NeighbourStep with the lowest terms q / 2^f of m / 2^k, the step p and the
      neighbour a = c * p given. */
  lemma NeighbourCore(k: nat, s: int, q: int, f: nat, p: int, a: int, c: int)
    requires s == 1 || s == -1
    requires f <= k && p == Pow2(k - f) && a == c * p && c == q - s
    requires f == 0 || q % 2 == 1
    ensures f == 0 ==> Integral(a, k)
    ensures f > 0 ==> Step(a, k) > p
  {
    if f > 0 {
      OddNeighbour(q, s);
    }
    NeighbourCases(a, c, f, k);
  }

  lemma OddNeighbour(q: int, s: int)
    requires q % 2 == 1 && (s == 1 || s == -1)
    ensures (q - s) % 2 == 0
  {
  }

  /** m is its lowest-terms numerator times the step. */
  lemma StepFactor(m: int, k: nat)
    ensures m == Reduce(m, k).0 * Step(m, k)
    ensures Reduce(m, k).1 == 0 || Reduce(m, k).0 % 2 == 1
  {
    ReduceValue(m, k);
  }

  /** A neighbour a = q * 2^(k - f) of a dyadic whose lowest terms are over 2^f:
      an integer when f = 0, and with a larger step when q is even and f > 0. */
  lemma NeighbourCases(a: int, q: int, f: nat, k: nat)
    requires f <= k && a == q * Pow2(k - f)
    ensures f == 0 ==> Integral(a, k)
    ensures f > 0 && q % 2 == 0 ==> Step(a, k) > Pow2(k - f)
  {
    if f == 0 {
      ReduceMultiple(q, k, k);
    } else if q % 2 == 0 {
      EvenNeighbour(q, k - f, k);
    }
  }

  /** An even multiple q of 2^e, e < k, has a step over 2^k larger than 2^e. */
  lemma EvenNeighbour(q: int, e: nat, k: nat)
    requires q % 2 == 0 && e < k
    ensures Step(q * Pow2(e), k) > Pow2(e)
  {
    var c := q / 2;
    assert q == 2 * c;
    TwiceMultiple(c, e);
    StepMultiple(c, e + 1, k);
    assert Pow2(e + 1) == 2 * Pow2(e);
  }

  /** A multiple of 2^d, written over 2^k with d <= k, has a step of at least 2^d. */
  lemma {:induction false} StepMultiple(c: int, d: nat, k: nat)
    requires d <= k
    ensures Step(c * Pow2(d), k) >= Pow2(d)
    decreases d
  {
    if d > 0 {
      var x, h := c * Pow2(d), c * Pow2(d - 1);
      EvenMultiple(c, d);
      assert Reduce(x, k) == Reduce(h, k - 1);
      StepMultiple(c, d - 1, k - 1);
      var i := Reduce(h, k - 1).1;
      assert Step(x, k) == Pow2(k - i) == 2 * Pow2(k - 1 - i);
    }
  }

  /** From a positive integer the Left neighbour is >= 0; from a negative one the
      Right neighbour is <= 0. */
  lemma IntegralNeighbourSign(m: int, k: nat)
    requires Integral(m, k)
    ensures m > 0 ==> m - Step(m, k) >= 0
    ensures m < 0 ==> m + Step(m, k) <= 0
  {
    ReduceSpec(m, k);
    var n, p := Reduce(m, k).0, Pow2(k);
    assert m == n * p && Step(m, k) == p;
    SignOfMultiple(n, p);
    Neighbours(n, p);
    if m > 0 {
      MulMonotone(1, n, p);
    }
    if m < 0 {
      MulMonotone(n, -1, p);
    }
  }

  lemma NeighbourMultiple(x: int, p: int, s: int)
    requires s == 1 || s == -1
    ensures x * p - s * p == (x - s) * p
  {
    Neighbours(x, p);
  }
}
