/** The dynamic-programming solver: a table of best priorities for every
    prefix of the list and every capacity up to the limit, then a walk
    back through the table that recovers one optimal selection. */
module DynamicSolver {
  import opened Packages
  import opened Optimum

  /** `s` back to front: the traceback lists its packages last first. */
  function Reverse<T>(s: seq<T>): (r: seq<T>)
    ensures |r| == |s|
    ensures forall k :: 0 <= k < |s| ==> r[k] == s[|s| - 1 - k]
  {
    if s == [] then [] else Reverse(s[1..]) + [s[0]]
  }

  /** Reversing a list of packages keeps its total weight and priority. */
  lemma {:induction false} ReverseSums(s: seq<Package>)
    ensures SumWeight(Reverse(s)) == SumWeight(s)
    ensures SumPriority(Reverse(s)) == SumPriority(s)
  {
    if s != [] {
      ReverseSums(s[1..]);
      SumConcat(Reverse(s[1..]), [s[0]]);
    }
  }

  /** Fills the table row by row: entry (i, w) is the best priority of the
      first i packages within weight w. */
  method BuildTable(ps: seq<Package>, maxWeight: nat) returns (dp: array2<nat>)
    ensures fresh(dp)
    ensures dp.Length0 == |ps| + 1 && dp.Length1 == maxWeight + 1
    ensures forall i, w :: 0 <= i <= |ps| && 0 <= w <= maxWeight ==> dp[i, w] == Opt(ps[..i], w)
  {
    dp := new nat[|ps| + 1, maxWeight + 1]((i, w) => 0);
    assert ps[..0] == [];
    var i := 1;
    while i <= |ps|
      invariant 1 <= i <= |ps| + 1
      invariant forall r, c :: 0 <= r < i && 0 <= c <= maxWeight ==> dp[r, c] == Opt(ps[..r], c)
    {
      var pkg := ps[i - 1];
      assert ps[..i] == ps[..i - 1] + [pkg];
      var w := 0;
      while w <= maxWeight
        invariant 0 <= w <= maxWeight + 1
        invariant forall r, c :: 0 <= r < i && 0 <= c <= maxWeight ==> dp[r, c] == Opt(ps[..r], c)
        invariant forall c :: 0 <= c < w ==> dp[i, c] == Opt(ps[..i], c)
      {
        OptSnoc(ps[..i - 1], pkg, w);
        if pkg.weight <= w {
          dp[i, w] := Max(dp[i - 1, w], dp[i - 1, w - pkg.weight] + pkg.priority);
        } else {
          dp[i, w] := dp[i - 1, w];
        }
        w := w + 1;
      }
      i := i + 1;
    }
  }

  /** A row differs from the row above exactly when the package of that
      row fits and taking it is strictly better than skipping it. */
  lemma TraceStep(ps: seq<Package>, i: nat, w: nat)
    requires 0 < i <= |ps|
    ensures Opt(ps[..i], w) != Opt(ps[..i - 1], w) ==>
      ps[i - 1].weight <= w && Opt(ps[..i], w) == Opt(ps[..i - 1], w - ps[i - 1].weight) + ps[i - 1].priority
  {
    assert ps[..i] == ps[..i - 1] + [ps[i - 1]];
    OptSnoc(ps[..i - 1], ps[i - 1], w);
  }

  /** One more decision in front of a suffix selection, listed backward. */
  lemma ReversePickedCons(ps: seq<Package>, i: nat, t: seq<bool>, b: bool)
    requires 0 < i <= |ps| && |t| == |ps| - i
    ensures Reverse(Picked(ps[i - 1..], [b] + t)) ==
      Reverse(Picked(ps[i..], t)) + (if b then [ps[i - 1]] else [])
  {
    assert ps[i - 1..][1..] == ps[i..];
    assert ([b] + t)[1..] == t;
    var head := if b then [ps[i - 1]] else [];
    var rest := Picked(ps[i..], t);
    assert Picked(ps[i - 1..], [b] + t) == head + rest;
    if b {
      assert (head + rest)[1..] == rest;
    } else {
      assert head + rest == rest;
    }
  }

  /** Walks the table from the last package back to the first, keeping a
      package whenever its row improves on the row above at the capacity
      still left. `taken` records the decisions over the whole list. */
  method TraceBack(ps: seq<Package>, maxWeight: nat, dp: array2<nat>)
    returns (selected: seq<Package>, ghost taken: seq<bool>)
    requires dp.Length0 == |ps| + 1 && dp.Length1 == maxWeight + 1
    requires forall i, w :: 0 <= i <= |ps| && 0 <= w <= maxWeight ==> dp[i, w] == Opt(ps[..i], w)
    ensures |taken| == |ps| && selected == Reverse(Picked(ps, taken))
    ensures SumWeight(selected) <= maxWeight
    ensures SumPriority(selected) == Opt(ps, maxWeight)
  {
    var w := maxWeight;
    selected, taken := [], [];
    var i := |ps|;
    assert ps[..|ps|] == ps && ps[|ps|..] == [];
    while i > 0
      invariant 0 <= i <= |ps| && 0 <= w <= maxWeight
      invariant |taken| == |ps| - i && selected == Reverse(Picked(ps[i..], taken))
      invariant SumWeight(selected) + w == maxWeight
      invariant SumPriority(selected) + Opt(ps[..i], w) == Opt(ps, maxWeight)
    {
      var pkg := ps[i - 1];
      TraceStep(ps, i, w);
      var keep := dp[i, w] != dp[i - 1, w];
      ReversePickedCons(ps, i, taken, keep);
      if keep {
        SumConcat(selected, [pkg]);
        selected := selected + [pkg];
        w := w - pkg.weight;
      }
      taken := [keep] + taken;
      i := i - 1;
    }
    assert ps[..0] == [];
  }

  /** The solver: the table's last entry is the optimum, and the traceback
      selects packages that fit and reach it. */
  method DynamicProgramming(ps: seq<Package>, maxWeight: nat)
    returns (selected: seq<Package>, totalWeight: nat, totalPriority: nat, ghost taken: seq<bool>)
    ensures |taken| == |ps| && selected == Reverse(Picked(ps, taken))
    ensures totalWeight == SumWeight(selected) && totalWeight <= maxWeight
    ensures totalPriority == SumPriority(selected) && totalPriority == Opt(ps, maxWeight)
    ensures Feasible(ps, taken, maxWeight) && Value(ps, taken) == Opt(ps, maxWeight)
    ensures ps == [] ==> selected == [] && totalWeight == 0 && totalPriority == 0
  {
    var dp := BuildTable(ps, maxWeight);
    selected, taken := TraceBack(ps, maxWeight, dp);
    assert ps[..|ps|] == ps;
    totalPriority := dp[|ps|, maxWeight];
    totalWeight := SumWeight(selected);
    ReverseSums(Picked(ps, taken));
  }
}
