/** The value type of partizan combinatorial game theory: a game is a pair of
    option lists, the positions Left may move to and those Right may move to.
    Lists are used instead of sets so that recursion is structural; every notion
    of sameness between games is the order defined in module Order, never the
    order or multiplicity of options. */
module Games {

  datatype Game = G(L: seq<Game>, R: seq<Game>)

  datatype Option<T> = None | Some(value: T)

  /** The zero game { | }: no player has a move. */
  const Zero: Game := G([], [])

  /** 1 = { 0 | } and -1 = { | 0 }. */
  const One: Game := G([Zero], [])
  const MinusOne: Game := G([], [Zero])

  /** The absolute value of an integer: the height of the integer game n. */
  function Abs(n: int): nat
  {
    if n < 0 then -n else n
  }

  /** Number of nodes of the option tree; the termination measure of every
      recursion that visits two games at once. */
  function Size(g: Game): (n: nat)
    ensures n >= 1
    ensures forall x {:trigger x in g.L} :: x in g.L ==> Size(x) < n
    ensures forall y {:trigger y in g.R} :: y in g.R ==> Size(y) < n
    decreases g, 1
  {
    1 + SizeSum(g.L) + SizeSum(g.R)
  }

  /** Total size of a list of games. */
  function SizeSum(s: seq<Game>): (n: nat)
    ensures forall x {:trigger x in s} :: x in s ==> Size(x) <= n
    ensures |s| > 0 ==> n >= |s|
    decreases s, 0
  {
    if s == [] then 0
    else
      assert forall x {:trigger x in s} :: x in s ==> x in s[..|s| - 1] || x == s[|s| - 1];
      SizeSum(s[..|s| - 1]) + Size(s[|s| - 1])
  }

  lemma {:induction false} SizeSumAppend(a: seq<Game>, b: seq<Game>)
    ensures SizeSum(a + b) == SizeSum(a) + SizeSum(b)
    decreases |b|
  {
    if b != [] {
      assert (a + b)[..|a + b| - 1] == a + b[..|b| - 1];
      SizeSumAppend(a, b[..|b| - 1]);
    } else {
      assert a + b == a;
    }
  }

  /** The list s with its i-th element taken out. */
  function RemoveAt(s: seq<Game>, i: nat): (r: seq<Game>)
    requires i < |s|
    ensures |r| == |s| - 1
    ensures forall x :: x in r ==> x in s
    ensures forall x :: x in s ==> x in r || x == s[i]
    ensures forall j :: 0 <= j < |s| && j != i ==> s[j] in r
  {
    var r := s[..i] + s[i + 1..];
    assert forall j :: 0 <= j < |s| && j != i ==> s[j] in r by {
      forall j | 0 <= j < |s| && j != i ensures s[j] in r {
        if j < i { assert r[j] == s[j]; } else { assert r[j - 1] == s[j]; }
      }
    }
    r
  }

  lemma {:induction false} SizeSumRemoveAt(s: seq<Game>, i: nat)
    requires i < |s|
    ensures SizeSum(RemoveAt(s, i)) + Size(s[i]) == SizeSum(s)
  {
    assert s == s[..i] + [s[i]] + s[i + 1..];
    SizeSumAppend(s[..i] + [s[i]], s[i + 1..]);
    SizeSumAppend(s[..i], [s[i]]);
    SizeSumAppend(s[..i], s[i + 1..]);
    assert [s[i]][..0] == [];
  }

  function Max(a: nat, b: nat): nat
  {
    if a < b then b else a
  }

  /** Height of the option tree: 0 for { | }, otherwise one more than the
      highest option. */
  function Height(g: Game): nat
    decreases g, 1
  {
    if g.L == [] && g.R == [] then 0 else 1 + Max(MaxHeight(g.L), MaxHeight(g.R))
  }

  function MaxHeight(s: seq<Game>): nat
    decreases s, 0
  {
    if s == [] then 0 else Max(MaxHeight(s[..|s| - 1]), Height(s[|s| - 1]))
  }

  lemma {:induction false} MaxHeightBound(s: seq<Game>, b: nat)
    ensures MaxHeight(s) <= b <==> forall x :: x in s ==> Height(x) <= b
    decreases |s|
  {
    if s != [] {
      var init, last := s[..|s| - 1], s[|s| - 1];
      MaxHeightBound(init, b);
      assert s == init + [last];
      assert MaxHeight(s) == Max(MaxHeight(init), Height(last));
      assert forall x :: x in s <==> x in init || x == last;
    }
  }

  /** Height(g) <= n exactly when every option has height below n. */
  lemma HeightBound(g: Game, n: nat)
    ensures Height(g) <= n <==>
      (forall x :: x in g.L ==> Height(x) < n) && (forall y :: y in g.R ==> Height(y) < n)
  {
    if g.L != [] || g.R != [] {
      if n > 0 {
        MaxHeightBound(g.L, n - 1);
        MaxHeightBound(g.R, n - 1);
      } else if g.L != [] {
        assert g.L[0] in g.L;
      } else {
        assert g.R[0] in g.R;
      }
    }
  }
}
