/** The greedy solver: sort by ratio, then one pass that keeps every
    package that still fits. Feasible, but not always optimal. */
module GreedySolver {
  import opened Packages
  import opened Optimum
  import opened RatioSort

  /** The first n packages of `s` were each kept exactly when they fit
      beside those kept before them. */
  predicate KeptWhenFits(s: seq<Package>, taken: seq<bool>, n: nat, maxWeight: int)
    requires n <= |s| && n <= |taken|
  {
    forall k :: 0 <= k < n ==> (taken[k] <==> Load(s[..k], taken[..k]) + s[k].weight <= maxWeight)
  }

  /** One more decision of the scan keeps the rule and extends the selection. */
  lemma ScanStep(s: seq<Package>, taken: seq<bool>, i: nat, maxWeight: int, fits: bool)
    requires i < |s| && |taken| == i && KeptWhenFits(s, taken, i, maxWeight)
    requires fits <==> Load(s[..i], taken) + s[i].weight <= maxWeight
    ensures KeptWhenFits(s, taken + [fits], i + 1, maxWeight)
    ensures Picked(s[..i + 1], taken + [fits]) == Picked(s[..i], taken) + (if fits then [s[i]] else [])
  {
    var t := taken + [fits];
    assert s[..i + 1] == s[..i] + [s[i]];
    PickedSnoc(s[..i], taken, s[i], fits);
    assert t[..i] == taken;
    forall k | 0 <= k < i
      ensures t[k] <==> Load(s[..k], t[..k]) + s[k].weight <= maxWeight
    {
      assert t[..k] == taken[..k];
    }
  }

  /** Every package the scan left out would overflow the final selection. */
  lemma LeftOutOverflows(s: seq<Package>, taken: seq<bool>, maxWeight: int)
    requires |taken| == |s| && KeptWhenFits(s, taken, |s|, maxWeight)
    ensures forall k :: 0 <= k < |s| && !taken[k] ==> Load(s, taken) + s[k].weight > maxWeight
  {
    forall k | 0 <= k < |s| && !taken[k]
      ensures Load(s, taken) + s[k].weight > maxWeight
    {
      SplitSums(s, taken, k);
    }
  }

  /** The scan over the already sorted list. `taken[k]` records whether
      the k-th package was kept. */
  method GreedyScan(s: seq<Package>, maxWeight: int)
    returns (selected: seq<Package>, totalWeight: nat, totalPriority: nat, ghost taken: seq<bool>)
    ensures |taken| == |s| && selected == Picked(s, taken)
    ensures totalWeight == SumWeight(selected) && totalPriority == SumPriority(selected)
    // A package is kept exactly when it fits beside those kept before it.
    ensures forall k :: 0 <= k < |s| ==>
      (taken[k] <==> Load(s[..k], taken[..k]) + s[k].weight <= maxWeight)
    ensures maxWeight >= 0 ==> totalWeight <= maxWeight
    ensures maxWeight < 0 ==> selected == []
    // No package left out would still fit beside the final selection.
    ensures forall k :: 0 <= k < |s| && !taken[k] ==> totalWeight + s[k].weight > maxWeight
    ensures maxWeight >= 0 ==> totalPriority <= Opt(s, maxWeight)
    ensures s == [] ==> selected == [] && totalWeight == 0 && totalPriority == 0
  {
    selected, totalWeight, totalPriority := [], 0, 0;
    taken := [];
    for i := 0 to |s|
      invariant |taken| == i && selected == Picked(s[..i], taken)
      invariant totalWeight == SumWeight(selected) && totalPriority == SumPriority(selected)
      invariant KeptWhenFits(s, taken, i, maxWeight)
      invariant maxWeight >= 0 ==> totalWeight <= maxWeight
      invariant maxWeight < 0 ==> selected == []
    {
      var pkg := s[i];
      var fits := totalWeight + pkg.weight <= maxWeight;
      ScanStep(s, taken, i, maxWeight, fits);
      if fits {
        SumConcat(selected, [pkg]);
        selected := selected + [pkg];
        totalWeight := totalWeight + pkg.weight;
        totalPriority := totalPriority + pkg.priority;
      }
      taken := taken + [fits];
    }
    assert s[..|s|] == s;
    LeftOutOverflows(s, taken, maxWeight);
    if maxWeight >= 0 {
      OptIsUpperBound(s, maxWeight, taken);
    }
  }

  /** Sorts the caller's list in place by ratio, then scans it. */
  method GreedyAlgorithm(packages: array<Package>, maxWeight: int)
    returns (selected: seq<Package>, totalWeight: nat, totalPriority: nat,
             ghost perm: seq<nat>, ghost taken: seq<bool>)
    modifies packages
    ensures Tracks(packages[..], perm, old(packages[..]))
    ensures multiset(packages[..]) == multiset(old(packages[..]))
    ensures SortedByRatio(packages[..])
    ensures forall p, q :: 0 <= p < q < packages.Length && Ratio(packages[p]) == Ratio(packages[q]) ==>
      perm[p] < perm[q]
    ensures |taken| == packages.Length && selected == Picked(packages[..], taken)
    ensures totalWeight == SumWeight(selected) && totalPriority == SumPriority(selected)
    ensures forall k :: 0 <= k < packages.Length ==>
      (taken[k] <==> Load(packages[..k], taken[..k]) + packages[k].weight <= maxWeight)
    ensures maxWeight >= 0 ==> totalWeight <= maxWeight
    ensures maxWeight < 0 ==> selected == []
    ensures forall k :: 0 <= k < packages.Length && !taken[k] ==> totalWeight + packages[k].weight > maxWeight
    ensures maxWeight >= 0 ==> totalPriority <= Opt(old(packages[..]), maxWeight)
    ensures packages.Length == 0 ==> selected == [] && totalWeight == 0 && totalPriority == 0
  {
    perm := SortByRatio(packages);
    selected, totalWeight, totalPriority, taken := GreedyScan(packages[..], maxWeight);
    if maxWeight >= 0 {
      OptPermutation(packages[..], old(packages[..]), maxWeight);
    }
  }
}
