/** The fractional relaxation used by branch and bound as an upper
    bound: take whole packages in list order while they fit, then the
    fitting fraction of the first one that does not. On a list sorted by
    non-increasing ratio it is at least the priority of every 0/1
    selection that fits. */
module Relaxation {
  import opened Packages

  /** Relaxed value of `s` within the remaining capacity `cap`. */
  function FracGreedy(s: seq<Package>, cap: nat): (r: real)
    ensures 0.0 <= r
  {
    if s == [] then 0.0
    else if s[0].weight <= cap then s[0].priority as real + FracGreedy(s[1..], cap - s[0].weight)
    else cap as real * Ratio(s[0])
  }

  /** The relaxation of a list whose head package does not fit whole is
      the fitting fraction of that package. */
  lemma FracGreedyFraction(s: seq<Package>, cap: nat)
    requires s != [] && cap < s[0].weight
    ensures FracGreedy(s, cap) == cap as real * Ratio(s[0])
  {
  }

  /** With no capacity left nothing, not even a fraction, fits. */
  lemma FracGreedyNoRoom(s: seq<Package>)
    ensures FracGreedy(s, 0) == 0.0
  {
  }

  lemma ScaleMonotone(k: real, a: real, b: real)
    requires 0.0 <= k && a <= b
    ensures k * a <= k * b
  {
  }

  /** Whole package at capacity c + d against its fraction c / w at c. */
  lemma FractionStep(p: real, q: real, w: real, c: real, d: real, r: real, rest: real)
    requires p == q * w && q <= r && 0.0 <= c < w <= c + d
    requires rest <= (c + d - w) * r
    ensures p + rest <= c * q + d * r
  {
    ScaleMonotone(w - c, q, r);
  }

  /** A larger fraction of the same package at capacity c + d. */
  lemma PartStep(q: real, c: real, d: real, r: real)
    requires q <= r && 0.0 <= d
    ensures (c + d) * q <= c * q + d * r
  {
    ScaleMonotone(d, q, r);
  }

  /** Marginal step when the head package fits whole at both capacities. */
  lemma MarginalWhole(s: seq<Package>, c: nat, d: nat, r: real)
    requires s != [] && s[0].weight <= c
    requires FracGreedy(s[1..], (c - s[0].weight) + d)
          <= FracGreedy(s[1..], c - s[0].weight) + d as real * r
    ensures FracGreedy(s, c + d) <= FracGreedy(s, c) + d as real * r
  {
    assert c + d - s[0].weight == (c - s[0].weight) + d;
  }

  /** Marginal step when the head fits whole only at the larger capacity. */
  lemma MarginalSplit(s: seq<Package>, c: nat, d: nat, r: real)
    requires s != [] && c < s[0].weight <= c + d && Ratio(s[0]) <= r
    requires FracGreedy(s[1..], c + d - s[0].weight)
          <= FracGreedy(s[1..], 0) + (c + d - s[0].weight) as real * r
    ensures FracGreedy(s, c + d) <= FracGreedy(s, c) + d as real * r
  {
    var x := s[0];
    var w := x.weight;
    FracGreedyNoRoom(s[1..]);
    assert (c + d - w) as real == c as real + d as real - w as real;
    RatioScale(x);
    FractionStep(x.priority as real, Ratio(x), w as real, c as real, d as real, r,
      FracGreedy(s[1..], c + d - w));
  }

  /** Marginal step when the head does not fit whole at either capacity. */
  lemma MarginalPart(s: seq<Package>, c: nat, d: nat, r: real)
    requires s != [] && c + d < s[0].weight && Ratio(s[0]) <= r
    ensures FracGreedy(s, c + d) <= FracGreedy(s, c) + d as real * r
  {
    assert (c + d) as real == c as real + d as real;
    PartStep(Ratio(s[0]), c as real, d as real, r);
  }

  /** When no package of `s` has a ratio above `r`, `d` extra units of
      capacity raise the relaxed value by at most `d * r`. */
  lemma {:induction false} FracGreedyMarginal(s: seq<Package>, c: nat, d: nat, r: real)
    requires 0.0 <= r
    requires forall i :: 0 <= i < |s| ==> Ratio(s[i]) <= r
    ensures FracGreedy(s, c + d) <= FracGreedy(s, c) + d as real * r
    decreases |s|
  {
    if s == [] {
      ScaleMonotone(d as real, 0.0, r);
    } else {
      var w := s[0].weight;
      assert forall i :: 0 <= i < |s[1..]| ==> Ratio(s[1..][i]) <= r by {
        forall i | 0 <= i < |s[1..]| ensures Ratio(s[1..][i]) <= r {
          assert s[1..][i] == s[i + 1];
        }
      }
      if w <= c {
        FracGreedyMarginal(s[1..], c - w, d, r);
        MarginalWhole(s, c, d, r);
      } else if w <= c + d {
        FracGreedyMarginal(s[1..], 0, c + d - w, r);
        MarginalSplit(s, c, d, r);
      } else {
        MarginalPart(s, c, d, r);
      }
    }
  }

  /** Every ratio in the tail of a ratio-sorted list is at most the head's. */
  lemma SortedTail(s: seq<Package>)
    requires SortedByRatio(s) && s != []
    ensures SortedByRatio(s[1..])
    ensures forall i :: 0 <= i < |s[1..]| ==> Ratio(s[1..][i]) <= Ratio(s[0])
  {
    forall i | 0 <= i < |s[1..]| ensures Ratio(s[1..][i]) <= Ratio(s[0]) {
      assert s[1..][i] == s[i + 1];
    }
  }

  /** A selection over a non-empty list: its head decision and the rest. */
  lemma PickedHead(s: seq<Package>, m: seq<bool>)
    requires |m| == |s| && s != []
    ensures Load(s, m) == (if m[0] then s[0].weight else 0) + Load(s[1..], m[1..])
    ensures Value(s, m) == (if m[0] then s[0].priority else 0) + Value(s[1..], m[1..])
  {
    var head := if m[0] then [s[0]] else [];
    assert Picked(s, m) == head + Picked(s[1..], m[1..]);
    SumConcat(head, Picked(s[1..], m[1..]));
  }

  /** Capacity taken from a list whose ratios are at most `r` is worth at
      most `r` per unit: in particular, when the head package of ratio `r`
      fits, skipping it cannot beat taking it whole. */
  lemma SkipStep(tail: seq<Package>, cap: nat, w: nat, r: real, rest: real)
    requires w <= cap && 0.0 <= r
    requires forall i :: 0 <= i < |tail| ==> Ratio(tail[i]) <= r
    requires rest <= FracGreedy(tail, cap)
    ensures rest <= FracGreedy(tail, cap - w) + w as real * r
  {
    FracGreedyMarginal(tail, cap - w, w, r);
    assert cap - w + w == cap;
  }

  /** A package too heavy for the capacity: whatever fits from the rest
      is worth at most the capacity times its ratio `r`. */
  lemma TooHeavyStep(tail: seq<Package>, cap: nat, r: real, rest: real)
    requires 0.0 <= r
    requires forall i :: 0 <= i < |tail| ==> Ratio(tail[i]) <= r
    requires rest <= FracGreedy(tail, cap)
    ensures rest <= cap as real * r
  {
    FracGreedyMarginal(tail, 0, cap, r);
    assert 0 + cap == cap;
    FracGreedyNoRoom(tail);
  }

  /** Upper-bound step when the selection takes the head package. */
  lemma UpperTake(s: seq<Package>, cap: nat, m: seq<bool>)
    requires |m| == |s| && s != [] && m[0] && s[0].weight <= cap
    requires Value(s[1..], m[1..]) as real <= FracGreedy(s[1..], cap - s[0].weight)
    ensures Value(s, m) as real <= FracGreedy(s, cap)
  {
    PickedHead(s, m);
    assert Value(s, m) as real == s[0].priority as real + Value(s[1..], m[1..]) as real;
  }

  /** Upper-bound step when the selection skips a head package that fits. */
  lemma UpperSkip(s: seq<Package>, cap: nat, m: seq<bool>)
    requires |m| == |s| && s != [] && !m[0] && s[0].weight <= cap
    requires forall i :: 0 <= i < |s[1..]| ==> Ratio(s[1..][i]) <= Ratio(s[0])
    requires Value(s[1..], m[1..]) as real <= FracGreedy(s[1..], cap)
    ensures Value(s, m) as real <= FracGreedy(s, cap)
  {
    PickedHead(s, m);
    var x := s[0];
    SkipStep(s[1..], cap, x.weight, Ratio(x), Value(s[1..], m[1..]) as real);
    RatioScale(x);
    assert x.weight as real * Ratio(x) == x.priority as real;
  }

  /** Upper-bound step when the head package does not fit at all. */
  lemma UpperTooHeavy(s: seq<Package>, cap: nat, m: seq<bool>)
    requires |m| == |s| && s != [] && cap < s[0].weight
    requires forall i :: 0 <= i < |s[1..]| ==> Ratio(s[1..][i]) <= Ratio(s[0])
    requires Load(s, m) <= cap
    requires Value(s[1..], m[1..]) as real <= FracGreedy(s[1..], cap)
    ensures Value(s, m) as real <= FracGreedy(s, cap)
  {
    var rest := Value(s[1..], m[1..]);
    assert Value(s, m) == rest by {
      PickedHead(s, m);
    }
    assert FracGreedy(s, cap) == cap as real * Ratio(s[0]) by {
      FracGreedyFraction(s, cap);
    }
    assert rest as real <= cap as real * Ratio(s[0]) by {
      TooHeavyStep(s[1..], cap, Ratio(s[0]), rest as real);
    }
  }

  /** On a ratio-sorted list the relaxation bounds every selection that
      fits: no 0/1 choice beats the fractional one. */
  lemma {:induction false} FracGreedyIsUpperBound(s: seq<Package>, cap: nat, m: seq<bool>)
    requires SortedByRatio(s)
    requires Feasible(s, m, cap)
    ensures Value(s, m) as real <= FracGreedy(s, cap)
    decreases |s|
  {
    if s != [] {
      var w, tail, mt := s[0].weight, s[1..], m[1..];
      PickedHead(s, m);
      SortedTail(s);
      if w <= cap && m[0] {
        FracGreedyIsUpperBound(tail, cap - w, mt);
        UpperTake(s, cap, m);
      } else if w <= cap {
        FracGreedyIsUpperBound(tail, cap, mt);
        UpperSkip(s, cap, m);
      } else {
        FracGreedyIsUpperBound(tail, cap, mt);
        UpperTooHeavy(s, cap, m);
      }
    }
  }
}
