/** How the three solvers compare on the same packages and capacity: the
    dynamic-programming and branch-and-bound solvers both reach the
    optimum, and the greedy solver never exceeds it. */
module Agreement {
  import opened Packages
  import opened Optimum
  import opened GreedySolver
  import opened DynamicSolver
  import opened BranchBound

  /** A fresh array holding the packages of `ps`. */
  method CopyOf(ps: seq<Package>) returns (a: array<Package>)
    ensures fresh(a) && a[..] == ps
  {
    a := new Package[|ps|](i requires 0 <= i < |ps| => ps[i]);
  }

  /** Runs each solver on its own copy of the list. */
  method CompareSolvers(ps: seq<Package>, maxWeight: nat)
    returns (greedyPriority: nat, dpPriority: nat, bbPriority: nat)
    ensures dpPriority == Opt(ps, maxWeight) && bbPriority == dpPriority
    ensures greedyPriority <= dpPriority
  {
    var _, _, p, _ := DynamicProgramming(ps, maxWeight);
    dpPriority := p;
    var forGreedy := CopyOf(ps);
    var _, _, g, _, _ := GreedyAlgorithm(forGreedy, maxWeight);
    greedyPriority := g;
    var forSearch := CopyOf(ps);
    var _, _, b, _ := BranchAndBound(forSearch, maxWeight);
    bbPriority := b;
  }

  /** A list, already in ratio order, on which the greedy choice is not
      optimal: the first package fits and is kept, which leaves no room
      for the second, worth more on its own. */
  lemma GreedyNotOptimal()
    ensures
      var s := [Package("a", 1, 2), Package("b", 2, 3)];
      SortedByRatio(s) &&
      forall taken :: |taken| == 2 && KeptWhenFits(s, taken, 2, 2) ==> Value(s, taken) == 2 < Opt(s, 2) == 3
  {
    var s := [Package("a", 1, 2), Package("b", 2, 3)];
    assert s[..0] == [] && s[..1] == [s[0]];
    assert Opt(s[..1], 2) == 2 && Opt(s[..1], 0) == 0;
    forall taken | |taken| == 2 && KeptWhenFits(s, taken, 2, 2)
      ensures Value(s, taken) == 2
    {
      assert taken[..0] == [] && Picked(s[..0], taken[..0]) == [];
      assert taken[0];
      assert taken[..1] == [true];
      assert Picked(s[..1], taken[..1]) == [s[0]] + Picked([], []);
      assert !taken[1];
      assert taken == [true, false] && s[1..] == [s[1]] && taken[1..] == [false];
      assert Picked(s, taken) == [s[0]] + Picked([s[1]], [false]);
      assert Picked([s[1]], [false]) == [] + Picked([], []);
      assert [s[0]][1..] == [];
      assert SumPriority([s[0]]) == 2;
    }
  }
}
