/** The branch-and-bound solver: a breadth-first walk of the take/skip
    decision tree over the ratio-sorted list, pruning every node whose
    fractional bound cannot beat the best priority found so far. */
module BranchBound {
  import opened Packages
  import opened Optimum
  import opened Relaxation
  import opened RatioSort

  /** A node of the decision tree: the packages up to `level` have been
      decided, `selected` holds those taken, and `weight` and `priority`
      are its totals. The root has level -1. */
  datatype Node = Node(level: int, weight: nat, priority: nat, bound: real, selected: seq<Package>)

  /** The totals a node carries are those of its selection. */
  predicate Tallied(q: Node)
  {
    q.weight == SumWeight(q.selected) && q.priority == SumPriority(q.selected)
  }

  /** A well-formed node: its selection is a 0/1 choice over the packages
      up to its level, and its totals are that selection's. */
  ghost predicate NodeOk(ps: seq<Package>, q: Node)
  {
    -1 <= q.level < |ps| && SelectionOf(ps[..q.level + 1], q.selected) && Tallied(q)
  }

  /** The node's decisions agree with the selection `m` over the whole list. */
  predicate Consistent(ps: seq<Package>, q: Node, m: seq<bool>)
  {
    |m| == |ps| && -1 <= q.level < |ps| &&
    q.selected == Picked(ps[..q.level + 1], m[..q.level + 1])
  }

  /** The two children of a node: the next package taken or skipped. */
  function Branch(ps: seq<Package>, v: Node, take: bool, bnd: real): Node
    requires -1 <= v.level && v.level + 1 < |ps|
  {
    var x := ps[v.level + 1];
    if take then Node(v.level + 1, v.weight + x.weight, v.priority + x.priority, bnd, v.selected + [x])
    else Node(v.level + 1, v.weight, v.priority, bnd, v.selected)
  }

  /** The bound of a node: nothing when it is already full, otherwise its
      priority plus the fractional relaxation of the undecided packages. */
  function RelaxedBound(ps: seq<Package>, maxWeight: int, q: Node): real
    requires -1 <= q.level < |ps|
  {
    if q.weight >= maxWeight then 0.0
    else q.priority as real + FracGreedy(ps[q.level + 1..], maxWeight - q.weight)
  }

  /** Computes the bound of a node over the first n packages: whole
      packages while they fit, then a fraction of the next one. */
  method Bound(node: Node, n: int, maxWeight: int, ps: seq<Package>) returns (r: real)
    requires -1 <= node.level < n <= |ps|
    ensures node.weight >= maxWeight ==> r == 0.0
    ensures r == RelaxedBound(ps[..n], maxWeight, node)
  {
    if node.weight >= maxWeight {
      return 0.0;
    }
    var profitBound := node.priority as real;
    var j := node.level + 1;
    var totalWeight := node.weight;
    ghost var target := RelaxedBound(ps[..n], maxWeight, node);
    assert ps[..n][node.level + 1..] == ps[node.level + 1..n];
    while j < n && totalWeight + ps[j].weight <= maxWeight
      invariant node.level + 1 <= j <= n
      invariant totalWeight <= maxWeight
      invariant profitBound + FracGreedy(ps[j..n], maxWeight - totalWeight) == target
    {
      assert ps[j..n][1..] == ps[j + 1..n];
      totalWeight := totalWeight + ps[j].weight;
      profitBound := profitBound + ps[j].priority as real;
      j := j + 1;
    }
    if j < n {
      FracGreedyFraction(ps[j..n], maxWeight - totalWeight);
      profitBound := profitBound + (maxWeight - totalWeight) as real * Ratio(ps[j]);
    }
    r := profitBound;
  }

  /** Children of a well-formed node are well formed. */
  lemma ChildOk(ps: seq<Package>, v: Node, take: bool, bnd: real)
    requires NodeOk(ps, v) && v.level + 1 < |ps|
    ensures NodeOk(ps, Branch(ps, v, take, bnd))
  {
    var k := v.level + 1;
    var x := ps[k];
    var c := Branch(ps, v, take, bnd);
    var extra := if take then [x] else [];
    assert c.selected == v.selected + extra;
    assert Tallied(c) by {
      SumConcat(v.selected, extra);
    }
    assert ps[..k + 1] == ps[..k] + [x];
    SelectionSnoc(ps[..k], v.selected, x, take);
  }

  /** A well-formed node's selection is a selection over the whole list. */
  lemma NodeSelection(ps: seq<Package>, q: Node)
    requires NodeOk(ps, q)
    ensures SelectionOf(ps, q.selected)
  {
    var k := q.level + 1;
    assert ps == ps[..k] + ps[k..];
    SelectionExtend(ps[..k], ps[k..], q.selected);
  }

  /** The child that follows `m`'s next decision agrees with `m`. */
  lemma ChildConsistent(ps: seq<Package>, v: Node, m: seq<bool>, bnd: real)
    requires Consistent(ps, v, m) && Tallied(v) && v.level + 1 < |ps|
    ensures Consistent(ps, Branch(ps, v, m[v.level + 1], bnd), m)
    ensures Tallied(Branch(ps, v, m[v.level + 1], bnd))
  {
    var k := v.level + 1;
    var x, b := ps[k], m[k];
    assert ps[..k + 1] == ps[..k] + [x];
    assert m[..k + 1] == m[..k] + [b];
    PickedSnoc(ps[..k], m[..k], x, b);
    SumConcat(v.selected, [x]);
  }

  /** Every package of a ratio-sorted list from position k on. */
  lemma SortedSuffix(s: seq<Package>, k: nat)
    requires SortedByRatio(s) && k <= |s|
    ensures SortedByRatio(s[k..])
  {
    forall i, j | 0 <= i < j < |s[k..]|
      ensures Ratio(s[k..][i]) >= Ratio(s[k..][j])
    {
      assert s[k..][i] == s[k + i] && s[k..][j] == s[k + j];
    }
  }

  /** A node consistent with a selection that fits: a full node already
      holds all of the selection's priority, and otherwise the node's
      bound is at least that priority. */
  lemma BoundIsUpperBound(ps: seq<Package>, maxWeight: int, c: Node, m: seq<bool>)
    requires SortedByRatio(ps)
    requires Consistent(ps, c, m) && Tallied(c) && Feasible(ps, m, maxWeight)
    ensures c.weight <= Load(ps, m) && c.priority <= Value(ps, m)
    ensures c.weight >= maxWeight ==> Value(ps, m) == c.priority
    ensures c.weight < maxWeight ==> Value(ps, m) as real <= RelaxedBound(ps, maxWeight, c)
  {
    var k := c.level + 1;
    SplitSums(ps, m, k);
    var suffix := Picked(ps[k..], m[k..]);
    if c.weight >= maxWeight {
      SumWeightZero(suffix);
    } else {
      SortedSuffix(ps, k);
      FracGreedyIsUpperBound(ps[k..], maxWeight - c.weight, m[k..]);
    }
  }

  /** A node at the last level has decided every package. */
  lemma LeafValue(ps: seq<Package>, v: Node, m: seq<bool>)
    requires Consistent(ps, v, m) && Tallied(v)
    ensures v.level + 1 == |ps| ==> Load(ps, m) == v.weight && Value(ps, m) == v.priority
  {
    if v.level + 1 == |ps| {
      assert ps[..|ps|] == ps && m[..|ps|] == m;
    }
  }

  /** Every selection that fits and beats the incumbent has some queued
      node whose decisions it agrees with. */
  ghost predicate Covered(ps: seq<Package>, maxWeight: int, maxPriority: nat, queue: seq<Node>)
  {
    forall m :: Feasible(ps, m, maxWeight) && Value(ps, m) > maxPriority ==>
      exists k :: 0 <= k < |queue| && Consistent(ps, queue[k], m)
  }

  /** Every queued node is well formed, and none that fits beats the incumbent. */
  ghost predicate QueueOk(ps: seq<Package>, maxWeight: int, maxPriority: nat, queue: seq<Node>)
  {
    forall k {:trigger NodeOk(ps, queue[k])} :: 0 <= k < |queue| ==>
      NodeOk(ps, queue[k]) && (queue[k].weight <= maxWeight ==> queue[k].priority <= maxPriority)
  }

  /** The nodes a visit of `v` enqueues: each child whose bound beats the
      incumbent, the taking child first. */
  function Kids(ps: seq<Package>, v: Node, maxPriority: nat, bt: real, bs: real): seq<Node>
    requires -1 <= v.level && v.level + 1 < |ps|
  {
    (if bt > maxPriority as real then [Branch(ps, v, true, bt)] else []) +
    (if bs > maxPriority as real then [Branch(ps, v, false, bs)] else [])
  }

  /** A selection that agrees with a visited inner node, fits, and beats
      the new incumbent agrees with a child that is enqueued. */
  lemma CoverChild(ps: seq<Package>, maxWeight: int, maxPriority: nat, v: Node, m: seq<bool>, bt: real, bs: real)
    requires SortedByRatio(ps)
    requires Consistent(ps, v, m) && Tallied(v) && v.level + 1 < |ps|
    requires Feasible(ps, m, maxWeight) && Value(ps, m) > maxPriority
    requires v.weight <= maxWeight ==> v.priority <= maxPriority
    requires Branch(ps, v, true, bt).weight <= maxWeight ==> Branch(ps, v, true, bt).priority <= maxPriority
    requires bt == RelaxedBound(ps, maxWeight, Branch(ps, v, true, bt))
    requires bs == RelaxedBound(ps, maxWeight, Branch(ps, v, false, bs))
    ensures m[v.level + 1] ==> bt > maxPriority as real && Consistent(ps, Branch(ps, v, true, bt), m)
    ensures !m[v.level + 1] ==> bs > maxPriority as real && Consistent(ps, Branch(ps, v, false, bs), m)
  {
    var b := m[v.level + 1];
    var c := Branch(ps, v, b, if b then bt else bs);
    ChildConsistent(ps, v, m, if b then bt else bs);
    BoundIsUpperBound(ps, maxWeight, c, m);
  }

  /** Visiting the head of the queue keeps the coverage invariant. */
  lemma CoverStep(ps: seq<Package>, maxWeight: int, maxPriority: nat, maxPriority': nat,
                  queue: seq<Node>, kids: seq<Node>, bt: real, bs: real)
    requires SortedByRatio(ps)
    requires queue != [] && Covered(ps, maxWeight, maxPriority, queue) && maxPriority <= maxPriority'
    requires NodeOk(ps, queue[0])
    requires queue[0].weight <= maxWeight ==> queue[0].priority <= maxPriority'
    requires queue[0].level + 1 < |ps| ==>
      var v := queue[0];
      (Branch(ps, v, true, bt).weight <= maxWeight ==> Branch(ps, v, true, bt).priority <= maxPriority') &&
      bt == RelaxedBound(ps, maxWeight, Branch(ps, v, true, bt)) &&
      bs == RelaxedBound(ps, maxWeight, Branch(ps, v, false, bs)) &&
      kids == Kids(ps, v, maxPriority', bt, bs)
    ensures Covered(ps, maxWeight, maxPriority', queue[1..] + kids)
  {
    var v := queue[0];
    var q' := queue[1..] + kids;
    forall m | Feasible(ps, m, maxWeight) && Value(ps, m) > maxPriority'
      ensures exists k :: 0 <= k < |q'| && Consistent(ps, q'[k], m)
    {
      var k :| 0 <= k < |queue| && Consistent(ps, queue[k], m);
      if k > 0 {
        assert q'[k - 1] == queue[k];
      } else {
        LeafValue(ps, v, m);
        CoverChild(ps, maxWeight, maxPriority', v, m, bt, bs);
        if m[v.level + 1] {
          assert q'[|queue| - 1] == Branch(ps, v, true, bt);
        } else {
          assert q'[|q'| - 1] == Branch(ps, v, false, bs);
        }
      }
    }
  }

  /** Visiting the head of the queue keeps every queued node well formed
      and below the incumbent. */
  lemma QueueStep(ps: seq<Package>, maxWeight: int, maxPriority: nat, maxPriority': nat,
                  queue: seq<Node>, kids: seq<Node>, bt: real, bs: real)
    requires queue != [] && QueueOk(ps, maxWeight, maxPriority, queue) && maxPriority <= maxPriority'
    requires -1 <= queue[0].level
    requires queue[0].level + 1 < |ps| ==>
      var v := queue[0];
      (Branch(ps, v, true, bt).weight <= maxWeight ==> Branch(ps, v, true, bt).priority <= maxPriority') &&
      kids == Kids(ps, v, maxPriority', bt, bs)
    requires queue[0].level + 1 >= |ps| ==> kids == []
    ensures QueueOk(ps, maxWeight, maxPriority', queue[1..] + kids)
  {
    var v := queue[0];
    var q' := queue[1..] + kids;
    if v.level + 1 < |ps| {
      ChildOk(ps, v, true, bt);
      ChildOk(ps, v, false, bs);
    }
    forall k | 0 <= k < |q'|
      ensures NodeOk(ps, q'[k]) && (q'[k].weight <= maxWeight ==> q'[k].priority <= maxPriority')
    {
      if k < |queue| - 1 {
        assert q'[k] == queue[k + 1];
      }
    }
  }

  function Pow2(k: nat): (r: nat)
    ensures r >= 1
  {
    if k == 0 then 1 else 2 * Pow2(k - 1)
  }

  /** Nodes in the subtree below a node at `level`, itself included. */
  function Subtree(n: int, level: int): nat
  {
    if level >= n then 0 else Pow2(n - level) - 1
  }

  /** Nodes still to be visited if no node were pruned. */
  function QueueSize(n: int, queue: seq<Node>): nat
  {
    if queue == [] then 0 else Subtree(n, queue[0].level) + QueueSize(n, queue[1..])
  }

  lemma {:induction false} QueueSizeConcat(n: int, a: seq<Node>, b: seq<Node>)
    ensures QueueSize(n, a + b) == QueueSize(n, a) + QueueSize(n, b)
  {
    if a == [] {
      assert a + b == b;
    } else {
      assert (a + b)[1..] == a[1..] + b;
      QueueSizeConcat(n, a[1..], b);
    }
  }

  /** Replacing a node by the children it enqueues shrinks the work left. */
  lemma SizeStep(n: int, queue: seq<Node>, kids: seq<Node>)
    requires queue != [] && queue[0].level < n
    requires |kids| <= 2 && forall k :: 0 <= k < |kids| ==> kids[k].level == queue[0].level + 1
    ensures QueueSize(n, queue[1..] + kids) < QueueSize(n, queue)
  {
    QueueSizeConcat(n, queue[1..], kids);
    var l := queue[0].level;
    assert Pow2(n - l) == 2 * Pow2(n - (l + 1));
    if |kids| == 2 {
      assert QueueSize(n, kids[1..]) == Subtree(n, kids[1].level) + QueueSize(n, kids[1..][1..]);
      assert kids[1..][1..] == [];
    } else if |kids| == 1 {
      assert kids[1..] == [];
    }
  }

  /** What visiting the inner node `v` does: its children are built, the
      incumbent is raised to the taking child when that one fits and is
      better, and each child whose bound beats the incumbent is appended
      to the rest of the queue. */
  predicate InnerVisit(ps: seq<Package>, maxWeight: int, v: Node, before: nat, after: nat,
                       bt: real, bs: real, rest: seq<Node>, queue': seq<Node>)
    requires -1 <= v.level && v.level + 1 < |ps|
  {
    var take, skip := Branch(ps, v, true, 0.0), Branch(ps, v, false, 0.0);
    bt == RelaxedBound(ps, maxWeight, take) && bs == RelaxedBound(ps, maxWeight, skip) &&
    after == (if take.weight <= maxWeight && take.priority > before then take.priority else before) &&
    queue' == rest + (if bt > after as real then [take.(bound := bt)] else [])
                   + (if bs > after as real then [skip.(bound := bs)] else [])
  }

  /** The queue after an inner visit is the rest followed by the kids. */
  lemma InnerVisitKids(ps: seq<Package>, maxWeight: int, v: Node, before: nat, after: nat,
                       bt: real, bs: real, rest: seq<Node>, queue': seq<Node>)
    requires -1 <= v.level && v.level + 1 < |ps|
    requires InnerVisit(ps, maxWeight, v, before, after, bt, bs, rest, queue')
    ensures queue' == rest + Kids(ps, v, after, bt, bs)
    ensures before <= after
    ensures Branch(ps, v, true, bt).weight <= maxWeight ==> Branch(ps, v, true, bt).priority <= after
    ensures bt == RelaxedBound(ps, maxWeight, Branch(ps, v, true, bt))
    ensures bs == RelaxedBound(ps, maxWeight, Branch(ps, v, false, bs))
  {
    assert Branch(ps, v, true, 0.0).(bound := bt) == Branch(ps, v, true, bt);
    assert Branch(ps, v, false, 0.0).(bound := bs) == Branch(ps, v, false, bs);
  }

  /** An inner visit keeps every queued node well formed and below the
      incumbent, and shrinks the work left. */
  lemma InnerVisitQueue(ps: seq<Package>, maxWeight: int, before: nat, after: nat,
                        visited: seq<Node>, bt: real, bs: real, queue': seq<Node>)
    requires visited != [] && QueueOk(ps, maxWeight, before, visited)
    requires -1 <= visited[0].level && visited[0].level + 1 < |ps|
    requires InnerVisit(ps, maxWeight, visited[0], before, after, bt, bs, visited[1..], queue')
    ensures QueueOk(ps, maxWeight, after, queue')
    ensures QueueSize(|ps|, queue') < QueueSize(|ps|, visited)
  {
    var v := visited[0];
    InnerVisitKids(ps, maxWeight, v, before, after, bt, bs, visited[1..], queue');
    QueueStep(ps, maxWeight, before, after, visited, Kids(ps, v, after, bt, bs), bt, bs);
    SizeStep(|ps|, visited, Kids(ps, v, after, bt, bs));
  }

  /** An inner visit keeps the coverage invariant. */
  lemma InnerVisitCover(ps: seq<Package>, maxWeight: int, before: nat, after: nat,
                        visited: seq<Node>, bt: real, bs: real, queue': seq<Node>)
    requires SortedByRatio(ps)
    requires visited != [] && Covered(ps, maxWeight, before, visited)
    requires NodeOk(ps, visited[0]) && (visited[0].weight <= maxWeight ==> visited[0].priority <= before)
    requires visited[0].level + 1 < |ps|
    requires InnerVisit(ps, maxWeight, visited[0], before, after, bt, bs, visited[1..], queue')
    ensures Covered(ps, maxWeight, after, queue')
  {
    var v := visited[0];
    InnerVisitKids(ps, maxWeight, v, before, after, bt, bs, visited[1..], queue');
    CoverStep(ps, maxWeight, before, after, visited, Kids(ps, v, after, bt, bs), bt, bs);
  }

  /** Visiting a node at the last level enqueues nothing. */
  lemma VisitLeaf(ps: seq<Package>, maxWeight: int, maxPriority: nat, visited: seq<Node>)
    requires visited != [] && QueueOk(ps, maxWeight, maxPriority, visited)
    requires SortedByRatio(ps) ==> Covered(ps, maxWeight, maxPriority, visited)
    requires visited[0].level + 1 >= |ps|
    ensures QueueOk(ps, maxWeight, maxPriority, visited[1..])
    ensures SortedByRatio(ps) ==> Covered(ps, maxWeight, maxPriority, visited[1..])
    ensures QueueSize(|ps|, visited[1..]) < QueueSize(|ps|, visited)
  {
    assert NodeOk(ps, visited[0]);
    assert visited[1..] + [] == visited[1..];
    QueueStep(ps, maxWeight, maxPriority, maxPriority, visited, [], 0.0, 0.0);
    if SortedByRatio(ps) {
      CoverStep(ps, maxWeight, maxPriority, maxPriority, visited, [], 0.0, 0.0);
    }
    SizeStep(|ps|, visited, []);
  }

  /** The loop invariant of the search: the queue is well formed and
      covers every selection that could still beat the incumbent, and the
      incumbent is a selection that fits, worth `maxPriority`. */
  ghost predicate SearchInv(ps: seq<Package>, maxWeight: int, maxPriority: nat,
                            best: seq<Package>, queue: seq<Node>)
  {
    QueueOk(ps, maxWeight, maxPriority, queue) &&
    (SortedByRatio(ps) ==> Covered(ps, maxWeight, maxPriority, queue)) &&
    SelectionOf(ps, best) && maxPriority == SumPriority(best) &&
    (maxWeight >= 0 ==> SumWeight(best) <= maxWeight) &&
    (maxWeight < 0 ==> best == [])
  }

  /** The search starts from the root alone and an empty incumbent. */
  lemma SearchStart(ps: seq<Package>, maxWeight: int)
    ensures SearchInv(ps, maxWeight, 0, [], [Node(-1, 0, 0, 0.0, [])])
  {
    var root := Node(-1, 0, 0, 0.0, []);
    assert ps[..0] == [] && Picked([], []) == [];
    assert NodeOk(ps, root);
    forall m | Feasible(ps, m, maxWeight)
      ensures Consistent(ps, [root][0], m)
    {
      assert m[..0] == [];
    }
  }

  /** The node at the head of the queue is within the tree. */
  lemma HeadLevel(ps: seq<Package>, maxWeight: int, maxPriority: nat, best: seq<Package>, queue: seq<Node>)
    requires SearchInv(ps, maxWeight, maxPriority, best, queue) && queue != []
    ensures -1 <= queue[0].level < |ps|
  {
    assert NodeOk(ps, queue[0]);
  }

  /** Visiting an inner node keeps the invariant and shrinks the work left. */
  lemma InnerStep(ps: seq<Package>, maxWeight: int, before: nat, after: nat,
                  best: seq<Package>, best': seq<Package>,
                  visited: seq<Node>, bt: real, bs: real, queue': seq<Node>)
    requires SearchInv(ps, maxWeight, before, best, visited)
    requires visited != [] && -1 <= visited[0].level && visited[0].level + 1 < |ps|
    requires InnerVisit(ps, maxWeight, visited[0], before, after, bt, bs, visited[1..], queue')
    requires
      var take := Branch(ps, visited[0], true, 0.0);
      best' == if take.weight <= maxWeight && take.priority > before then take.selected else best
    ensures SearchInv(ps, maxWeight, after, best', queue')
    ensures QueueSize(|ps|, queue') < QueueSize(|ps|, visited)
  {
    var v := visited[0];
    var take := Branch(ps, v, true, 0.0);
    assert NodeOk(ps, v);
    if take.weight <= maxWeight && take.priority > before {
      ChildOk(ps, v, true, 0.0);
      NodeSelection(ps, take);
    }
    InnerVisitQueue(ps, maxWeight, before, after, visited, bt, bs, queue');
    if SortedByRatio(ps) {
      InnerVisitCover(ps, maxWeight, before, after, visited, bt, bs, queue');
    }
  }

  /** Visiting a node at the last level keeps the invariant and shrinks
      the work left. */
  lemma LeafStep(ps: seq<Package>, maxWeight: int, maxPriority: nat, best: seq<Package>, visited: seq<Node>)
    requires SearchInv(ps, maxWeight, maxPriority, best, visited)
    requires visited != [] && visited[0].level + 1 >= |ps|
    ensures SearchInv(ps, maxWeight, maxPriority, best, visited[1..])
    ensures QueueSize(|ps|, visited[1..]) < QueueSize(|ps|, visited)
  {
    VisitLeaf(ps, maxWeight, maxPriority, visited);
  }

  /** With the queue empty, no selection that fits beats the incumbent. */
  lemma SearchDone(ps: seq<Package>, maxWeight: int, maxPriority: nat, best: seq<Package>)
    requires SearchInv(ps, maxWeight, maxPriority, best, [])
    ensures maxWeight >= 0 ==> maxPriority <= Opt(ps, maxWeight)
    ensures SortedByRatio(ps) && maxWeight >= 0 ==> maxPriority == Opt(ps, maxWeight)
    ensures ps == [] ==> best == [] && maxPriority == 0
  {
    var mb := MaskOf(ps, best);
    if maxWeight >= 0 {
      OptIsUpperBound(ps, maxWeight, mb);
      if SortedByRatio(ps) {
        var w := OptWitness(ps, maxWeight);
        assert Value(ps, w) <= maxPriority;
      }
    }
  }

  /** The search over an already sorted list. The best selection is always
      one that fits; on a ratio-sorted list it reaches the optimum. */
  method Search(ps: seq<Package>, maxWeight: int)
    returns (bestSelection: seq<Package>, totalWeight: nat, maxPriority: nat)
    ensures SelectionOf(ps, bestSelection)
    ensures totalWeight == SumWeight(bestSelection) && maxPriority == SumPriority(bestSelection)
    ensures maxWeight >= 0 ==> totalWeight <= maxWeight && maxPriority <= Opt(ps, maxWeight)
    ensures maxWeight < 0 ==> bestSelection == []
    ensures SortedByRatio(ps) && maxWeight >= 0 ==> maxPriority == Opt(ps, maxWeight)
    ensures ps == [] ==> bestSelection == [] && totalWeight == 0 && maxPriority == 0
  {
    var n := |ps|;
    var queue := [Node(-1, 0, 0, 0.0, [])];
    maxPriority := 0;
    bestSelection := [];
    SearchStart(ps, maxWeight);
    while queue != []
      invariant SearchInv(ps, maxWeight, maxPriority, bestSelection, queue)
      decreases QueueSize(n, queue)
    {
      var v := queue[0];
      ghost var before, best, visited := maxPriority, bestSelection, queue;
      HeadLevel(ps, maxWeight, maxPriority, bestSelection, queue);
      queue := queue[1..];
      var uLevel := if v.level == -1 then 0 else v.level + 1;
      if uLevel < n {
        var u := Node(uLevel, v.weight + ps[uLevel].weight, v.priority + ps[uLevel].priority, 0.0, v.selected + [ps[uLevel]]);
        assert u == Branch(ps, v, true, 0.0);
        if u.weight <= maxWeight && u.priority > maxPriority {
          maxPriority := u.priority;
          bestSelection := u.selected;
        }
        assert ps[..n] == ps;
        var bt := Bound(u, n, maxWeight, ps);
        u := u.(bound := bt);
        if u.bound > maxPriority as real {
          queue := queue + [u];
        }
        u := Node(uLevel, v.weight, v.priority, 0.0, v.selected);
        assert u == Branch(ps, v, false, 0.0);
        var bs := Bound(u, n, maxWeight, ps);
        u := u.(bound := bs);
        if u.bound > maxPriority as real {
          queue := queue + [u];
        }
        InnerStep(ps, maxWeight, before, maxPriority, best, bestSelection, visited, bt, bs, queue);
      } else {
        LeafStep(ps, maxWeight, maxPriority, bestSelection, visited);
      }
    }
    totalWeight := SumWeight(bestSelection);
    SearchDone(ps, maxWeight, maxPriority, bestSelection);
  }

  /** Sorts the caller's list in place by ratio, then searches it. The
      result reaches the optimum of the list as it was passed in. */
  method BranchAndBound(packages: array<Package>, maxWeight: int)
    returns (bestSelection: seq<Package>, totalWeight: nat, maxPriority: nat, ghost perm: seq<nat>)
    modifies packages
    ensures Tracks(packages[..], perm, old(packages[..]))
    ensures multiset(packages[..]) == multiset(old(packages[..]))
    ensures SortedByRatio(packages[..])
    ensures forall p, q :: 0 <= p < q < packages.Length && Ratio(packages[p]) == Ratio(packages[q]) ==>
      perm[p] < perm[q]
    ensures SelectionOf(packages[..], bestSelection)
    ensures totalWeight == SumWeight(bestSelection) && maxPriority == SumPriority(bestSelection)
    ensures maxWeight >= 0 ==> totalWeight <= maxWeight && maxPriority == Opt(old(packages[..]), maxWeight)
    ensures maxWeight < 0 ==> bestSelection == []
    ensures packages.Length == 0 ==> bestSelection == [] && totalWeight == 0 && maxPriority == 0
  {
    perm := SortByRatio(packages);
    bestSelection, totalWeight, maxPriority := Search(packages[..], maxWeight);
    if maxWeight >= 0 {
      OptPermutation(packages[..], old(packages[..]), maxWeight);
    }
  }
}
