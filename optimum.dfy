/** The 0/1 knapsack optimum: the largest priority sum of a selection
    whose weight stays within a capacity. Defined by the take/skip
    recurrence on the last package, then shown to be the maximum over
    all selections and not to depend on the order of the packages. */
module Optimum {
  import opened Packages

  function Max(a: nat, b: nat): nat
  {
    if a >= b then a else b
  }

  /** Best priority over the packages of `s` within weight `cap`. */
  function Opt(s: seq<Package>, cap: nat): nat
    decreases |s|
  {
    if s == [] then 0
    else
      var last := s[|s| - 1];
      var skip := Opt(s[..|s| - 1], cap);
      if last.weight <= cap then Max(skip, Opt(s[..|s| - 1], cap - last.weight) + last.priority)
      else skip
  }

  /** One more package at the end: either it is skipped or it is taken. */
  lemma OptSnoc(s: seq<Package>, x: Package, cap: nat)
    ensures Opt(s + [x], cap) ==
      if x.weight <= cap then Max(Opt(s, cap), Opt(s, cap - x.weight) + x.priority)
      else Opt(s, cap)
  {
    assert (s + [x])[..|s|] == s;
  }

  /** No selection within the capacity beats the optimum. */
  lemma {:induction false} OptIsUpperBound(s: seq<Package>, cap: nat, m: seq<bool>)
    requires Feasible(s, m, cap)
    ensures Value(s, m) <= Opt(s, cap)
    decreases |s|
  {
    if s != [] {
      var k := |s| - 1;
      var s', m' := s[..k], m[..k];
      var x, b := s[k], m[k];
      assert s == s' + [x] && m == m' + [b];
      var tail := if b then [x] else [];
      PickedSnoc(s', m', x, b);
      assert Picked(s, m) == Picked(s', m') + tail;
      SumConcat(Picked(s', m'), tail);
      OptSnoc(s', x, cap);
      if b {
        assert Load(s', m') + x.weight <= cap;
        OptIsUpperBound(s', cap - x.weight, m');
      } else {
        OptIsUpperBound(s', cap, m');
      }
    }
  }

  /** A selection that attains the optimum within the capacity. */
  ghost function OptWitness(s: seq<Package>, cap: nat): (m: seq<bool>)
    ensures Feasible(s, m, cap)
    ensures Value(s, m) == Opt(s, cap)
    decreases |s|
  {
    if s == [] then []
    else
      var k := |s| - 1;
      var s' := s[..k];
      var x := s[k];
      assert s == s' + [x];
      var take := x.weight <= cap && Opt(s', cap - x.weight) + x.priority > Opt(s', cap);
      var m' := if take then OptWitness(s', cap - x.weight) else OptWitness(s', cap);
      PickedSnoc(s', m', x, take);
      SumConcat(Picked(s', m'), if take then [x] else []);
      m' + [take]
  }

  /** The optimum is exactly the maximum over feasible selections. */
  lemma OptIsMaximum(s: seq<Package>, cap: nat)
    ensures exists m :: Feasible(s, m, cap) && Value(s, m) == Opt(s, cap)
    ensures forall m :: Feasible(s, m, cap) ==> Value(s, m) <= Opt(s, cap)
  {
    var w := OptWitness(s, cap);
    assert Feasible(s, w, cap) && Value(s, w) == Opt(s, cap);
    forall m | Feasible(s, m, cap)
      ensures Value(s, m) <= Opt(s, cap)
    {
      OptIsUpperBound(s, cap, m);
    }
  }

  /** Exchanging the last two packages does not change the optimum. */
  lemma OptSwapLast(s: seq<Package>, a: Package, b: Package, cap: nat)
    ensures Opt(s + [a, b], cap) == Opt(s + [b, a], cap)
  {
    assert s + [a, b] == (s + [a]) + [b];
    assert s + [b, a] == (s + [b]) + [a];
    OptSnoc(s + [a], b, cap);
    OptSnoc(s + [b], a, cap);
    OptSnoc(s, a, cap);
    OptSnoc(s, b, cap);
    if a.weight <= cap {
      OptSnoc(s, b, cap - a.weight);
    }
    if b.weight <= cap {
      OptSnoc(s, a, cap - b.weight);
    }
  }

  /** Exchanging two neighbouring packages does not change the optimum. */
  lemma {:induction false} OptSwapAdjacent(s: seq<Package>, a: Package, b: Package, t: seq<Package>, cap: nat)
    ensures Opt(s + [a, b] + t, cap) == Opt(s + [b, a] + t, cap)
    decreases |t|
  {
    if t == [] {
      assert s + [a, b] + t == s + [a, b];
      assert s + [b, a] + t == s + [b, a];
      OptSwapLast(s, a, b, cap);
    } else {
      var t', x := t[..|t| - 1], t[|t| - 1];
      assert s + [a, b] + t == (s + [a, b] + t') + [x];
      assert s + [b, a] + t == (s + [b, a] + t') + [x];
      OptSnoc(s + [a, b] + t', x, cap);
      OptSnoc(s + [b, a] + t', x, cap);
      OptSwapAdjacent(s, a, b, t', cap);
      if x.weight <= cap {
        OptSwapAdjacent(s, a, b, t', cap - x.weight);
      }
    }
  }

  /** Moving one package to the end does not change the optimum. */
  lemma {:induction false} OptMoveToEnd(s: seq<Package>, x: Package, t: seq<Package>, cap: nat)
    ensures Opt(s + [x] + t, cap) == Opt(s + t + [x], cap)
    decreases |t|
  {
    if t == [] {
      assert s + [x] + t == s + t + [x];
    } else {
      var y, t' := t[0], t[1..];
      assert s + [x] + t == s + [x, y] + t';
      OptSwapAdjacent(s, x, y, t', cap);
      assert s + [y, x] + t' == (s + [y]) + [x] + t';
      OptMoveToEnd(s + [y], x, t', cap);
      assert (s + [y]) + t' + [x] == s + t + [x];
    }
  }

  /** Lists with the same optimum at every capacity keep it after
      appending the same package. */
  lemma OptSnocCongruent(s: seq<Package>, t: seq<Package>, x: Package, cap: nat)
    requires Opt(s, cap) == Opt(t, cap)
    requires x.weight <= cap ==> Opt(s, cap - x.weight) == Opt(t, cap - x.weight)
    ensures Opt(s + [x], cap) == Opt(t + [x], cap)
  {
    OptSnoc(s, x, cap);
    OptSnoc(t, x, cap);
  }

  /** Taking out the package at position k. */
  lemma RemoveAt(s: seq<Package>, k: nat)
    requires k < |s|
    ensures s == s[..k] + [s[k]] + s[k + 1..]
    ensures multiset(s[..k] + s[k + 1..]) == multiset(s) - multiset{s[k]}
  {
    assert s == s[..k] + [s[k]] + s[k + 1..];
    assert multiset(s) == multiset(s[..k]) + multiset{s[k]} + multiset(s[k + 1..]);
  }

  /** The optimum depends only on the multiset of packages: sorting the
      list first (as the greedy and branch-and-bound solvers do) leaves it
      unchanged. */
  lemma {:induction false} OptPermutation(s: seq<Package>, t: seq<Package>, cap: nat)
    requires multiset(s) == multiset(t)
    ensures Opt(s, cap) == Opt(t, cap)
    decreases |t|
  {
    if t == [] {
      assert |s| == |multiset(s)| == 0;
    } else {
      var t', x := t[..|t| - 1], t[|t| - 1];
      RemoveAt(t, |t| - 1);
      assert t == t' + [x];
      assert x in multiset(s);
      var k :| 0 <= k < |s| && s[k] == x;
      var s' := s[..k] + s[k + 1..];
      RemoveAt(s, k);
      OptMoveToEnd(s[..k], x, s[k + 1..], cap);
      assert s[..k] + s[k + 1..] + [x] == s' + [x];
      OptPermutation(s', t', cap);
      if x.weight <= cap {
        OptPermutation(s', t', cap - x.weight);
      }
      OptSnocCongruent(s', t', x, cap);
    }
  }
}
