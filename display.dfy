/** The display string of a game, for the forms this model recognizes: numbers,
    written "n" or "n/d" in lowest terms, and switches { x | y } between two
    numbers, written "m±h" with the mean m omitted when it is 0. */
module Display {
  import opened Games
  import opened Order
  import opened Numbers
  import opened Canon
  import opened Classify

  // ---------------------------------------------------------------------
  // Decimal text

  predicate IsDigit(c: char)
  {
    '0' <= c <= '9'
  }

  /** The character of the decimal digit d. */
  function DigitChar(d: nat): (c: char)
    requires d < 10
    ensures IsDigit(c)
  {
    (('0' as int) + d) as char
  }

  /** The decimal digits of n, most significant first, without leading zeros. */
  function NatToString(n: nat): (s: string)
    ensures |s| >= 1
    ensures forall i :: 0 <= i < |s| ==> IsDigit(s[i])
    decreases n
  {
    if n < 10 then [DigitChar(n)] else NatToString(n / 10) + [DigitChar(n % 10)]
  }

  /** The number a string of decimal digits denotes. */
  function DigitsValue(s: string): nat
    decreases |s|
  {
    if s == [] then 0 else 10 * DigitsValue(s[..|s| - 1]) + DigitValue(s[|s| - 1])
  }

  function DigitValue(c: char): nat
  {
    if IsDigit(c) then (c as int) - ('0' as int) else 0
  }

  lemma DigitRoundTrip(d: nat)
    requires d < 10
    ensures DigitValue(DigitChar(d)) == d
  {
  }

  /** Reading the digits of n back gives n. */
  lemma {:induction false} NatToStringValue(n: nat)
    ensures DigitsValue(NatToString(n)) == n
    decreases n
  {
    var s := NatToString(n);
    if n < 10 {
      DigitRoundTrip(n);
      assert s[..0] == [];
    } else {
      NatToStringValue(n / 10);
      DigitRoundTrip(n % 10);
      assert s[..|s| - 1] == NatToString(n / 10);
    }
  }

  /** The decimal text of an integer, with a leading '-' when it is negative. */
  function IntToString(n: int): (s: string)
    ensures |s| >= 1 && '/' !in s
  {
    if n < 0 then "-" + NatToString(-n) else NatToString(n)
  }

  /** The integer a decimal text denotes. */
  function ParseInt(s: string): int
  {
    if |s| > 0 && s[0] == '-' then 0 - DigitsValue(s[1..]) else DigitsValue(s)
  }

  lemma IntToStringValue(n: int)
    ensures ParseInt(IntToString(n)) == n
  {
    if n < 0 {
      NatToStringValue(-n);
      ParseDigits(NatToString(-n));
    } else {
      NatToStringValue(n);
      ParseDigits(NatToString(n));
    }
  }

  /** A digit string reads as its value, and as its negation after a '-'. */
  lemma ParseDigits(t: string)
    requires |t| >= 1 && IsDigit(t[0])
    ensures ParseInt(t) == DigitsValue(t)
    ensures ParseInt("-" + t) == 0 - DigitsValue(t)
  {
    assert ("-" + t)[1..] == t;
  }

  /** The position of the first c in s, or |s| when there is none. */
  function Find(s: string, c: char): (k: nat)
    ensures k <= |s|
    ensures k < |s| ==> s[k] == c
    ensures forall i :: 0 <= i < k ==> s[i] != c
  {
    if s == [] then 0 else if s[0] == c then 0 else 1 + Find(s[1..], c)
  }

  /** The numerator and denominator a text "n" or "n/d" denotes. */
  function Fraction(s: string): (int, nat)
  {
    var k := Find(s, '/');
    if k < |s| then (ParseInt(s[..k]), DigitsValue(s[k + 1..])) else (ParseInt(s), 1)
  }

  // ---------------------------------------------------------------------
  // Numbers

  /** a / 2^i in lowest terms: an odd numerator unless the denominator is 1. */
  predicate Lowest(r: (int, nat))
  {
    r.1 == 0 || r.0 % 2 == 1
  }

  /** The text of the number a / 2^i: "a" when i == 0, otherwise "a/2^i". */
  function RenderNumber(r: (int, nat)): string
  {
    if r.1 == 0 then IntToString(r.0) else IntToString(r.0) + "/" + NatToString(Pow2(r.1))
  }

  /** The text of a number reads back as its numerator and denominator. */
  lemma RenderNumberFraction(r: (int, nat))
    ensures Fraction(RenderNumber(r)) == (r.0, Pow2(r.1))
    ensures '/' in RenderNumber(r) <==> r.1 > 0
  {
    var a := IntToString(r.0);
    IntToStringValue(r.0);
    if r.1 == 0 {
      assert Find(a, '/') == |a|;
    } else {
      var s := RenderNumber(r);
      var d := NatToString(Pow2(r.1));
      NatToStringValue(Pow2(r.1));
      assert s[|a|] == '/';
      assert Find(s, '/') == |a| by {
        FindFirst(s, '/', |a|);
      }
      assert s[..|a|] == a && s[|a| + 1..] == d;
    }
  }

  lemma FindFirst(s: string, c: char, k: nat)
    requires k < |s| && s[k] == c
    requires forall i :: 0 <= i < k ==> s[i] != c
    ensures Find(s, c) == k
  {
  }

  /** The numerator of a / 2^i over the larger denominator 2^e. */
  function Scaled(r: (int, nat), e: nat): int
    requires r.1 <= e
  {
    r.0 * Pow2(e - r.1)
  }

  /** Recognizes the canonical number games: Some((a, i)) for the game a / 2^i,
      in lowest terms, built by the simplest-number rule; None for anything else. */
  function NumberValue(g: Game): (r: Option<(int, nat)>)
    ensures r.Some? ==> g == Dyadic(r.value.0, r.value.1) && Lowest(r.value)
    decreases g
  {
    if g.L == [] && g.R == [] then Some((0, 0))
    else if |g.L| == 1 && g.R == [] then
      var x := NumberValue(g.L[0]);
      if x.Some? && x.value.1 == 0 && x.value.0 >= 0 then
        assert g.L == [g.L[0]];
        Some((x.value.0 + 1, 0))
      else None
    else if g.L == [] && |g.R| == 1 then
      var y := NumberValue(g.R[0]);
      if y.Some? && y.value.1 == 0 && y.value.0 <= 0 then
        assert g.R == [g.R[0]];
        Some((y.value.0 - 1, 0))
      else None
    else if |g.L| == 1 && |g.R| == 1 then
      match (NumberValue(g.L[0]), NumberValue(g.R[0]))
      case (Some(x), Some(y)) => Midpoint(g, x, y)
      case _ => None
    else None
  }

  /** The candidate value of { x | y } for numbers x and y in lowest terms: their
      mean, accepted only when it has an odd numerator over a denominator one
      doubling finer than both, and g is exactly its simplest-number game. */
  function Midpoint(g: Game, x: (int, nat), y: (int, nat)): (r: Option<(int, nat)>)
    ensures r.Some? ==> g == Dyadic(r.value.0, r.value.1) && Lowest(r.value)
  {
    var t := Max(x.1, y.1);
    var c := Scaled(x, t) + Scaled(y, t);
    if c % 2 == 1 && Dyadic(c, t + 1) == g then Some((c, t + 1)) else None
  }

  /** Every dyadic game is recognized, with its value in lowest terms. */
  lemma {:induction false} NumberValueDyadic(m: int, k: nat)
    ensures NumberValue(Dyadic(m, k)) == Some(Reduce(m, k))
    decreases k, 2
  {
    ReduceSpec(m, k);
    var q, e := Reduce(m, k).0, Reduce(m, k).1;
    if e < k {
      NumberValueDyadic(q, e);
      assert Reduce(q, e) == (q, e);
    } else if k == 0 {
      NumberValueInteger(m);
    } else {
      assert q == m && m % 2 == 1;
      NumberValueOdd(m, k);
    }
  }

  /** The odd numerator m over 2^k, k >= 1, is recognized as itself. */
  lemma {:induction false} NumberValueOdd(m: int, k: nat)
    requires k >= 1 && m % 2 == 1
    ensures NumberValue(Dyadic(m, k)) == Some((m, k))
    decreases k, 1
  {
    HalvesRecognized(m, k);
    MidpointOdd(m, k);
    NumberValuePair(Dyadic(m, k), Reduce((m - 1) / 2, k - 1), Reduce((m + 1) / 2, k - 1));
  }

  /** The two options of an odd m / 2^k are recognized. */
  lemma {:induction false} HalvesRecognized(m: int, k: nat)
    requires k >= 1 && m % 2 == 1
    ensures |Dyadic(m, k).L| == 1 && |Dyadic(m, k).R| == 1
    ensures NumberValue(Dyadic(m, k).L[0]) == Some(Reduce((m - 1) / 2, k - 1))
    ensures NumberValue(Dyadic(m, k).R[0]) == Some(Reduce((m + 1) / 2, k - 1))
    decreases k, 0
  {
    DyadicOdd(m, k);
    NumberValueDyadic((m - 1) / 2, k - 1);
    NumberValueDyadic((m + 1) / 2, k - 1);
  }

  /** The mean of the two halves of an odd m / 2^k is accepted as m / 2^k. */
  lemma MidpointOdd(m: int, k: nat)
    requires k >= 1 && m % 2 == 1
    ensures Midpoint(Dyadic(m, k), Reduce((m - 1) / 2, k - 1), Reduce((m + 1) / 2, k - 1)) == Some((m, k))
  {
    var x, y := Reduce((m - 1) / 2, k - 1), Reduce((m + 1) / 2, k - 1);
    OddHalves(m, k);
    MidpointAccepts(Dyadic(m, k), x, y, m, k);
  }

  lemma MidpointAccepts(g: Game, x: (int, nat), y: (int, nat), c: int, e: nat)
    requires Max(x.1, y.1) + 1 == e
    requires Scaled(x, e - 1) + Scaled(y, e - 1) == c && c % 2 == 1
    requires Dyadic(c, e) == g
    ensures Midpoint(g, x, y) == Some((c, e))
  {
  }

  /** NumberValue on a game with one number option on each side is their Midpoint. */
  lemma NumberValuePair(g: Game, x: (int, nat), y: (int, nat))
    requires |g.L| == 1 && |g.R| == 1
    requires NumberValue(g.L[0]) == Some(x) && NumberValue(g.R[0]) == Some(y)
    ensures NumberValue(g) == Midpoint(g, x, y)
  {
  }

  /** The halves (m - 1) / 2 and (m + 1) / 2 of an odd m, in lowest terms over
      2^(k - 1): one keeps the exponent k - 1 and their numerators over 2^(k - 1)
      add up to m. */
  lemma OddHalves(m: int, k: nat)
    requires k >= 1 && m % 2 == 1
    ensures var x, y := Reduce((m - 1) / 2, k - 1), Reduce((m + 1) / 2, k - 1);
      Max(x.1, y.1) == k - 1 && Scaled(x, k - 1) + Scaled(y, k - 1) == m
  {
    var lo, hi := (m - 1) / 2, (m + 1) / 2;
    ReduceValue(lo, k - 1);
    ReduceValue(hi, k - 1);
    assert lo % 2 == 1 || hi % 2 == 1;
  }

  /** The integer n is recognized as n / 1. */
  lemma {:induction false} NumberValueInteger(n: int)
    ensures NumberValue(Integer(n)) == Some((n, 0))
    decreases Abs(n)
  {
    if n > 0 {
      NumberValueInteger(n - 1);
    } else if n < 0 {
      NumberValueInteger(n + 1);
    }
  }

  // ---------------------------------------------------------------------
  // Switches

  /** a / 2^i < b / 2^j. */
  predicate Below(x: (int, nat), y: (int, nat))
  {
    x.0 * Pow2(y.1) < y.0 * Pow2(x.1)
  }

  /** The mean and the half-spread of two numbers, each in lowest terms. */
  function SwitchParts(x: (int, nat), y: (int, nat)): ((int, nat), (int, nat))
  {
    var t := Max(x.1, y.1);
    var a, b := Scaled(x, t), Scaled(y, t);
    (Reduce(a + b, t + 1), Reduce(a - b, t + 1))
  }

  /** The mean plus the half-spread is x and the mean minus the half-spread is y,
      both parts are in lowest terms, and the half-spread is positive when y < x. */
  lemma SwitchPartsSpec(x: (int, nat), y: (int, nat))
    ensures var (mean, half) := SwitchParts(x, y);
      var e := Max(x.1, y.1) + 1;
      && Lowest(mean) && Lowest(half)
      && Scaled(mean, e) + Scaled(half, e) == Scaled(x, e)
      && Scaled(mean, e) - Scaled(half, e) == Scaled(y, e)
      && (Below(y, x) ==> half.0 > 0)
  {
    var t := Max(x.1, y.1);
    var a, b := Scaled(x, t), Scaled(y, t);
    var (mean, half) := SwitchParts(x, y);
    assert mean == Reduce(a + b, t + 1) && half == Reduce(a - b, t + 1);
    ScaledReduce(a + b, t + 1);
    ScaledReduce(a - b, t + 1);
    ScaledTwice(x, t);
    ScaledTwice(y, t);
    if Below(y, x) {
      BelowScaled(y, x, t);
      SignOfMultiple(half.0, Pow2(t + 1 - half.1));
    }
  }

  /** Lowest terms of n / 2^e, scaled back over 2^e, give n. */
  lemma ScaledReduce(n: int, e: nat)
    ensures Lowest(Reduce(n, e)) && Scaled(Reduce(n, e), e) == n
  {
    ReduceValue(n, e);
  }

  lemma ScaledTwice(x: (int, nat), t: nat)
    requires x.1 <= t
    ensures Scaled(x, t + 1) == 2 * Scaled(x, t)
  {
    assert Pow2(t + 1 - x.1) == 2 * Pow2(t - x.1);
  }

  /** Below compares the numerators over a common denominator. */
  lemma BelowScaled(y: (int, nat), x: (int, nat), t: nat)
    requires x.1 <= t && y.1 <= t
    ensures Below(y, x) <==> Scaled(y, t) < Scaled(x, t)
  {
    Pow2Add(x.1, t - x.1);
    Pow2Add(y.1, t - y.1);
    var p, q := Pow2(t - x.1), Pow2(t - y.1);
    var px, py := Pow2(x.1), Pow2(y.1);
    assert Pow2(t) == px * p == py * q;
    ScaleCompare(y.0, px, x.0, py, p, q);
  }

  /** u * px < v * py exactly when u * q < v * p, given px * p == py * q > 0. */
  lemma ScaleCompare(u: int, px: int, v: int, py: int, p: int, q: int)
    requires px > 0 && py > 0 && p > 0 && q > 0 && px * p == py * q
    ensures u * px < v * py <==> u * q < v * p
  {
    assert (u * px) * p == (u * q) * py;
    assert (v * py) * p == (v * p) * py;
    MulMonotoneStrict(u * px, v * py, p);
    MulMonotoneStrict(u * q, v * p, py);
  }

  lemma MulMonotoneStrict(a: int, b: int, c: int)
    requires c > 0
    ensures a < b <==> a * c < b * c
  {
    if a < b {
      assert (b - a) * c > 0;
    } else {
      assert (a - b) * c >= 0;
    }
  }

  /** The text "m±h" of a switch with mean m and half-spread h; "±h" when m == 0. */
  function RenderSwitch(x: (int, nat), y: (int, nat)): string
  {
    var (mean, half) := SwitchParts(x, y);
    (if mean.0 == 0 then "" else RenderNumber(mean)) + "±" + RenderNumber(half)
  }

  // ---------------------------------------------------------------------
  // The display string

  /** The display string of g's canonical form when it is a number or a switch
      between two numbers; None for the forms this model does not print. */
  function Value(g: Game): Option<string>
  {
    var c := Canonical(g);
    match NumberValue(c)
    case Some(r) => Some(RenderNumber(r))
    case None =>
      if |c.L| == 1 && |c.R| == 1 then
        match (NumberValue(c.L[0]), NumberValue(c.R[0]))
        case (Some(x), Some(y)) => if Below(y, x) then Some(RenderSwitch(x, y)) else None
        case _ => None
      else None
  }

  /** A dyadic game displays as its value in lowest terms. */
  lemma ValueDyadic(m: int, k: nat)
    ensures Value(Dyadic(m, k)) == Some(RenderNumber(Reduce(m, k)))
  {
    DyadicCanonical(m, k);
    CanonicalIdempotent(Dyadic(m, k));
    NumberValueDyadic(m, k);
  }

  /** The display string of m / 2^k is "n/d" with n / d == m / 2^k in lowest terms,
      d a power of two, or "n" when d == 1. */
  lemma DyadicText(m: int, k: nat)
    ensures Value(Dyadic(m, k)).Some?
    ensures var s := Value(Dyadic(m, k)).value;
      var (n, d) := Fraction(s);
      && n * Pow2(k) == m * d
      && (d == 1 || n % 2 == 1)
      && (exists e: nat :: e <= k && d == Pow2(e))
      && s == if d > 1 then IntToString(n) + "/" + NatToString(d) else IntToString(n)
  {
    var r := Reduce(m, k);
    ValueDyadic(m, k);
    RenderNumberFraction(r);
    ReducedFraction(m, k);
  }

  /** Reduce(m, k) = (n, e) gives n / 2^e == m / 2^k, in lowest terms. */
  lemma ReducedFraction(m: int, k: nat)
    ensures var r := Reduce(m, k);
      && r.0 * Pow2(k) == m * Pow2(r.1)
      && (r.1 == 0 || r.0 % 2 == 1)
      && (r.1 > 0 <==> Pow2(r.1) > 1)
  {
    var r := Reduce(m, k);
    ReduceValue(m, k);
    Pow2Add(r.1, k - r.1);
    assert r.0 * Pow2(k) == r.0 * (Pow2(r.1) * Pow2(k - r.1)) == (r.0 * Pow2(k - r.1)) * Pow2(r.1);
    if r.1 > 0 {
      Pow2Mono(1, r.1);
    }
  }

  /** A switch { x | y } between dyadics x > y displays as "m±h" for the mean m and
      the half-spread h of x and y. */
  lemma ValueSwitch(a: int, i: nat, b: int, j: nat)
    requires Lt(Dyadic(b, j), Dyadic(a, i))
    ensures Value(G([Dyadic(a, i)], [Dyadic(b, j)])) == Some(RenderSwitch(Reduce(a, i), Reduce(b, j)))
  {
    var x, y := Dyadic(a, i), Dyadic(b, j);
    var g := G([x], [y]);
    DyadicSwitchCanonical(a, i, b, j);
    CanonicalIdempotent(g);
    NumberValueDyadic(a, i);
    NumberValueDyadic(b, j);
    SwitchNotNumber(g);
    ReducedOrder(a, i, b, j);
  }

  /** A game whose Right option is below its Left option is not recognized as a
      number. */
  lemma SwitchNotNumber(g: Game)
    requires |g.L| == 1 && |g.R| == 1 && Le(g.R[0], g.L[0])
    ensures NumberValue(g).None?
  {
    var r := NumberValue(g);
    assert g.L[0] in g.L && g.R[0] in g.R;
    if r.Some? {
      DyadicNumber(r.value.0, r.value.1);
    }
  }

  /** y < x as games makes the value of y below the value of x, in lowest terms. */
  lemma ReducedOrder(a: int, i: nat, b: int, j: nat)
    requires Lt(Dyadic(b, j), Dyadic(a, i))
    ensures Below(Reduce(b, j), Reduce(a, i))
  {
    ReduceSpec(a, i);
    ReduceSpec(b, j);
    var x, y := Reduce(a, i), Reduce(b, j);
    DyadicOrder(x.0, x.1, y.0, y.1);
  }
}
