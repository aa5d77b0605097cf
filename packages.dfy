/** The item entity shared by the three solvers, and the sums and
    sub-selections every solver's result is described with. */
module Packages {

  /** Weights are strictly positive: every ratio divides by one. */
  type Weight = w: nat | 0 < w witness 1

  /** A package. Only the fields a solver reads are kept; `id` is an opaque label. */
  datatype Package = Package(id: string, weight: Weight, priority: nat)

  /** Priority per unit of weight, the sort key of the greedy and
      branch-and-bound solvers (exact rational arithmetic). */
  function Ratio(p: Package): (r: real)
    ensures 0.0 <= r
  {
    p.priority as real / p.weight as real
  }

  /** The ratio times the weight gives back the priority. */
  lemma RatioScale(p: Package)
    ensures Ratio(p) * p.weight as real == p.priority as real
  {
  }

  function SumWeight(s: seq<Package>): nat
  {
    if s == [] then 0 else s[0].weight + SumWeight(s[1..])
  }

  function SumPriority(s: seq<Package>): nat
  {
    if s == [] then 0 else s[0].priority + SumPriority(s[1..])
  }

  lemma {:induction false} SumConcat(a: seq<Package>, b: seq<Package>)
    ensures SumWeight(a + b) == SumWeight(a) + SumWeight(b)
    ensures SumPriority(a + b) == SumPriority(a) + SumPriority(b)
  {
    if a == [] {
      assert a + b == b;
    } else {
      assert (a + b)[1..] == a[1..] + b;
      SumConcat(a[1..], b);
    }
  }

  /** Only the empty selection weighs nothing. */
  lemma SumWeightZero(s: seq<Package>)
    ensures SumWeight(s) == 0 <==> s == []
  {
  }

  /** The packages of `s` whose flag in `m` is set, in the order of `s`:
      a 0/1 selection over a list. */
  function Picked(s: seq<Package>, m: seq<bool>): (r: seq<Package>)
    requires |m| == |s|
    ensures |r| <= |s|
  {
    if s == [] then []
    else (if m[0] then [s[0]] else []) + Picked(s[1..], m[1..])
  }

  /** A selection takes each package of the list at most as often as it occurs. */
  lemma {:induction false} PickedSubMultiset(s: seq<Package>, m: seq<bool>)
    requires |m| == |s|
    ensures multiset(Picked(s, m)) <= multiset(s)
  {
    if s != [] {
      assert s == [s[0]] + s[1..];
      PickedSubMultiset(s[1..], m[1..]);
    }
  }

  /** Total priority of the selection `m` over `s`. */
  function Value(s: seq<Package>, m: seq<bool>): nat
    requires |m| == |s|
  {
    SumPriority(Picked(s, m))
  }

  /** Total weight of the selection `m` over `s`. */
  function Load(s: seq<Package>, m: seq<bool>): nat
    requires |m| == |s|
  {
    SumWeight(Picked(s, m))
  }

  /** `m` is a 0/1 selection over `s` whose weight stays within `cap`. */
  predicate Feasible(s: seq<Package>, m: seq<bool>, cap: int)
  {
    |m| == |s| && Load(s, m) <= cap
  }

  /** `sel` lists packages of `s` taken at distinct positions, in their
      order in `s`: a sub-sequence of `s`. */
  predicate SelectionOf(s: seq<Package>, sel: seq<Package>)
  {
    if sel == [] then true
    else if s == [] then false
    else (sel[0] == s[0] && SelectionOf(s[1..], sel[1..])) || SelectionOf(s[1..], sel)
  }

  /** Non-increasing priority/weight ratio. */
  predicate SortedByRatio(s: seq<Package>)
  {
    forall i, j :: 0 <= i < j < |s| ==> Ratio(s[i]) >= Ratio(s[j])
  }

  /** Appending one package and one flag appends at most that package. */
  lemma {:induction false} PickedSnoc(s: seq<Package>, m: seq<bool>, x: Package, b: bool)
    requires |m| == |s|
    ensures Picked(s + [x], m + [b]) == Picked(s, m) + (if b then [x] else [])
  {
    if s == [] {
      assert s + [x] == [x] && m + [b] == [b];
    } else {
      assert (s + [x])[1..] == s[1..] + [x];
      assert (m + [b])[1..] == m[1..] + [b];
      PickedSnoc(s[1..], m[1..], x, b);
    }
  }

  /** A selection splits at any position into the part over the prefix
      and the part over the suffix. */
  lemma {:induction false} PickedSplit(s: seq<Package>, m: seq<bool>, k: nat)
    requires |m| == |s| && k <= |s|
    ensures Picked(s, m) == Picked(s[..k], m[..k]) + Picked(s[k..], m[k..])
  {
    if k == 0 {
      assert s[k..] == s && m[k..] == m;
    } else {
      PickedSplit(s[1..], m[1..], k - 1);
      assert s[1..][..k - 1] == s[..k][1..] && m[1..][..k - 1] == m[..k][1..];
      assert s[1..][k - 1..] == s[k..] && m[1..][k - 1..] == m[k..];
    }
  }

  /** Part of a selection weighs no more than the whole, and splits the
      weight and the priority of the whole exactly. */
  lemma SplitSums(s: seq<Package>, m: seq<bool>, k: nat)
    requires |m| == |s| && k <= |s|
    ensures Load(s, m) == Load(s[..k], m[..k]) + Load(s[k..], m[k..])
    ensures Value(s, m) == Value(s[..k], m[..k]) + Value(s[k..], m[k..])
  {
    PickedSplit(s, m, k);
    SumConcat(Picked(s[..k], m[..k]), Picked(s[k..], m[k..]));
  }

  /** Selecting nothing picks nothing. */
  lemma {:induction false} PickedNone(s: seq<Package>)
    ensures Picked(s, seq(|s|, _ => false)) == []
  {
    if s != [] {
      assert seq(|s|, _ => false)[1..] == seq(|s| - 1, _ => false);
      PickedNone(s[1..]);
    }
  }

  /** Flags left unset past the end of a list select nothing more. */
  lemma {:induction false} PickedPadded(s: seq<Package>, t: seq<Package>, m: seq<bool>)
    requires |m| == |s|
    ensures Picked(s + t, m + seq(|t|, _ => false)) == Picked(s, m)
  {
    var f := seq(|t|, _ => false);
    var mf := m + f;
    PickedSplit(s + t, mf, |s|);
    assert (s + t)[..|s|] == s;
    assert mf[..|s|] == m;
    assert (s + t)[|s|..] == t;
    assert mf[|s|..] == f;
    PickedNone(t);
  }

  /** Whatever a 0/1 mask picks is a selection. */
  lemma {:induction false} PickedIsSelection(s: seq<Package>, m: seq<bool>)
    requires |m| == |s|
    ensures SelectionOf(s, Picked(s, m))
  {
    if s != [] {
      PickedIsSelection(s[1..], m[1..]);
      var rest := Picked(s[1..], m[1..]);
      if m[0] {
        assert Picked(s, m) == [s[0]] + rest;
        assert ([s[0]] + rest)[1..] == rest;
      } else {
        assert Picked(s, m) == rest;
      }
    }
  }

  /** The mask that picks a selection: every selection is what some 0/1
      mask picks. */
  ghost function MaskOf(s: seq<Package>, sel: seq<Package>): (m: seq<bool>)
    requires SelectionOf(s, sel)
    ensures |m| == |s| && Picked(s, m) == sel
  {
    if s == [] then []
    else if sel != [] && sel[0] == s[0] && SelectionOf(s[1..], sel[1..]) then
      var m' := MaskOf(s[1..], sel[1..]);
      assert ([true] + m')[1..] == m';
      assert sel == [sel[0]] + sel[1..];
      [true] + m'
    else
      var m' := MaskOf(s[1..], sel);
      assert ([false] + m')[1..] == m';
      [false] + m'
  }

  /** Deciding one more package extends a selection. */
  lemma SelectionSnoc(s: seq<Package>, sel: seq<Package>, x: Package, b: bool)
    requires SelectionOf(s, sel)
    ensures SelectionOf(s + [x], sel + (if b then [x] else []))
  {
    var m := MaskOf(s, sel);
    PickedSnoc(s, m, x, b);
    PickedIsSelection(s + [x], m + [b]);
  }

  /** A selection over a prefix is a selection over the whole list. */
  lemma SelectionExtend(s: seq<Package>, t: seq<Package>, sel: seq<Package>)
    requires SelectionOf(s, sel)
    ensures SelectionOf(s + t, sel)
  {
    var m := MaskOf(s, sel);
    PickedPadded(s, t, m);
    PickedIsSelection(s + t, m + seq(|t|, _ => false));
  }
}
