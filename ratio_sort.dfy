/** The in-place sort both the greedy and the branch-and-bound solvers
    start with: packages by non-increasing priority/weight ratio, stable,
    so that packages of equal ratio keep their original order. */
module RatioSort {
  import opened Packages

  /** Position order of a stable descending sort: `x`, originally at `i`,
      comes before `y`, originally at `j`. */
  predicate Precedes(x: Package, i: nat, y: Package, j: nat)
  {
    Ratio(x) > Ratio(y) || (Ratio(x) == Ratio(y) && i < j)
  }

  lemma PrecedesTransitive(x: Package, i: nat, y: Package, j: nat, z: Package, k: nat)
    requires Precedes(x, i, y, j) && Precedes(y, j, z, k)
    ensures Precedes(x, i, z, k)
  {
  }

  /** `s` lists the packages of `orig`, `perm[k]` being where `s[k]` stood. */
  ghost predicate Tracks(s: seq<Package>, perm: seq<nat>, orig: seq<Package>)
  {
    |perm| == |s| == |orig| &&
    forall k :: 0 <= k < |s| ==> perm[k] < |orig| && s[k] == orig[perm[k]]
  }

  /** The first n positions are in stable descending order. */
  ghost predicate Ordered(s: seq<Package>, perm: seq<nat>, n: nat)
    requires n <= |s| == |perm|
  {
    forall p, q :: 0 <= p < q < n ==> Precedes(s[p], perm[p], s[q], perm[q])
  }

  /** The first n positions are in order once position j is ignored. */
  ghost predicate OrderedExcept(s: seq<Package>, perm: seq<nat>, n: nat, j: nat)
    requires n <= |s| == |perm|
  {
    forall p, q :: 0 <= p < q < n && p != j && q != j ==> Precedes(s[p], perm[p], s[q], perm[q])
  }

  /** The package at j comes before every package after it, up to n. */
  ghost predicate PrecedesAfter(s: seq<Package>, perm: seq<nat>, n: nat, j: nat)
    requires n <= |s| == |perm|
  {
    forall q :: j < q < n ==> Precedes(s[j], perm[j], s[q], perm[q])
  }

  function SwapAt<T>(s: seq<T>, j: nat): (r: seq<T>)
    requires 0 < j < |s|
    ensures |r| == |s| && r[j - 1] == s[j] && r[j] == s[j - 1]
    ensures forall k :: 0 <= k < |s| && k != j - 1 && k != j ==> r[k] == s[k]
  {
    s[j - 1 := s[j]][j := s[j - 1]]
  }

  /** Moving a package of larger ratio one place left keeps the order of
      the rest and puts it before everything behind it. */
  lemma InsertStep(s: seq<Package>, perm: seq<nat>, n: nat, j: nat)
    requires 0 < j < n <= |s| == |perm|
    requires OrderedExcept(s, perm, n, j) && PrecedesAfter(s, perm, n, j)
    requires Ratio(s[j - 1]) < Ratio(s[j])
    ensures OrderedExcept(SwapAt(s, j), SwapAt(perm, j), n, j - 1)
    ensures PrecedesAfter(SwapAt(s, j), SwapAt(perm, j), n, j - 1)
  {
    var s', perm' := SwapAt(s, j), SwapAt(perm, j);
    forall p, q | 0 <= p < q < n && p != j - 1 && q != j - 1
      ensures Precedes(s'[p], perm'[p], s'[q], perm'[q])
    {
      if q == j {
        assert s'[q] == s[j - 1] && perm'[q] == perm[j - 1];
      } else if p == j {
        assert s'[p] == s[j - 1] && perm'[p] == perm[j - 1];
      }
    }
  }

  /** Once the moving package has no larger ratio than its left
      neighbour, the whole prefix is in order. */
  lemma InsertDone(s: seq<Package>, perm: seq<nat>, n: nat, j: nat)
    requires j < n <= |s| == |perm|
    requires OrderedExcept(s, perm, n, j) && PrecedesAfter(s, perm, n, j)
    requires j > 0 ==> Precedes(s[j - 1], perm[j - 1], s[j], perm[j])
    ensures Ordered(s, perm, n)
  {
    forall p, q | 0 <= p < q < n
      ensures Precedes(s[p], perm[p], s[q], perm[q])
    {
      if q == j && p < j - 1 {
        PrecedesTransitive(s[p], perm[p], s[j - 1], perm[j - 1], s[j], perm[j]);
      }
    }
  }

  /** Exchanges the packages at positions i - 1 and i. */
  method SwapDown(a: array<Package>, i: nat)
    requires 0 < i < a.Length
    modifies a
    ensures a[..] == SwapAt(old(a[..]), i)
    ensures multiset(a[..]) == multiset(old(a[..]))
  {
    a[i - 1], a[i] := a[i], a[i - 1];
  }

  /** A list in stable descending order is sorted by ratio, and packages
      of equal ratio keep their original relative order. */
  lemma OrderedIsSorted(s: seq<Package>, perm: seq<nat>)
    requires |s| == |perm| && Ordered(s, perm, |s|)
    ensures SortedByRatio(s)
    ensures forall p, q :: 0 <= p < q < |s| && Ratio(s[p]) == Ratio(s[q]) ==> perm[p] < perm[q]
  {
    forall p, q | 0 <= p < q < |s|
      ensures Ratio(s[p]) >= Ratio(s[q])
    {
      assert Precedes(s[p], perm[p], s[q], perm[q]);
    }
  }

  /** Swapping in step keeps track of where each package came from. */
  lemma TracksSwap(s: seq<Package>, perm: seq<nat>, orig: seq<Package>, j: nat)
    requires Tracks(s, perm, orig) && 0 < j < |s|
    ensures Tracks(SwapAt(s, j), SwapAt(perm, j), orig)
  {
  }

  /** One pass of insertion sort: moves the package at i left past every
      package of smaller ratio, so that the first i + 1 are in order. */
  method InsertAt(a: array<Package>, i: nat, ghost orig: seq<Package>, ghost perm0: seq<nat>)
    returns (ghost perm: seq<nat>)
    requires i < a.Length
    requires Tracks(a[..], perm0, orig)
    requires forall k :: i <= k < a.Length ==> perm0[k] == k
    requires forall k :: 0 <= k < i ==> perm0[k] < i
    requires Ordered(a[..], perm0, i)
    modifies a
    ensures Tracks(a[..], perm, orig)
    ensures forall k :: i < k < a.Length ==> perm[k] == k
    ensures forall k :: 0 <= k <= i ==> perm[k] <= i
    ensures Ordered(a[..], perm, i + 1)
    ensures multiset(a[..]) == multiset(old(a[..]))
  {
    perm := perm0;
    var j := i;
    while j > 0 && Ratio(a[j - 1]) < Ratio(a[j])
      invariant 0 <= j <= i
      invariant Tracks(a[..], perm, orig)
      invariant forall k :: i < k < a.Length ==> perm[k] == k
      invariant perm[j] == i
      invariant forall k :: 0 <= k <= i && k != j ==> perm[k] < i
      invariant OrderedExcept(a[..], perm, i + 1, j) && PrecedesAfter(a[..], perm, i + 1, j)
      invariant multiset(a[..]) == multiset(old(a[..]))
    {
      InsertStep(a[..], perm, i + 1, j);
      TracksSwap(a[..], perm, orig, j);
      SwapDown(a, j);
      perm := SwapAt(perm, j);
      j := j - 1;
    }
    InsertDone(a[..], perm, i + 1, j);
  }

  /** Sorts `a` in place by non-increasing ratio. `perm[k]` is the original
      position of the package that ends at position k. */
  method SortByRatio(a: array<Package>) returns (ghost perm: seq<nat>)
    modifies a
    ensures Tracks(a[..], perm, old(a[..]))
    ensures multiset(a[..]) == multiset(old(a[..]))
    ensures SortedByRatio(a[..])
    ensures forall p, q :: 0 <= p < q < a.Length && Ratio(a[p]) == Ratio(a[q]) ==> perm[p] < perm[q]
  {
    ghost var orig := a[..];
    perm := seq(a.Length, k => k);
    var i := 0;
    while i < a.Length
      invariant 0 <= i <= a.Length
      invariant Tracks(a[..], perm, orig)
      invariant forall k :: i <= k < a.Length ==> perm[k] == k
      invariant forall k :: 0 <= k < i ==> perm[k] < i
      invariant Ordered(a[..], perm, i)
      invariant multiset(a[..]) == multiset(orig)
    {
      perm := InsertAt(a, i, orig, perm);
      i := i + 1;
    }
    OrderedIsSorted(a[..], perm);
  }
}
