/** Kahn's algorithm over resource indices: the apply order. */
module Ordering {
  import opened Wrappers
  import opened Types
  import opened Graph

  // ---------------------------------------------------------------- apply order

  /** The last resource with the given effective name, as repeated map insertion leaves it. */
  function LastNamed(rs: seq<Resource>, name: string): (i: Option<nat>)
    ensures i.Some? ==> i.value < |rs| && EffectiveName(rs[i.value]) == name
    ensures i.None? <==> forall k :: 0 <= k < |rs| ==> EffectiveName(rs[k]) != name
  {
    if rs == [] then None
    else
      var n := |rs| - 1;
      if EffectiveName(rs[n]) == name then Some(n) else LastNamed(rs[..n], name)
  }

  /** The indices that dependency names resolve to; unknown names are skipped, repeated ones kept. */
  function Resolved(rs: seq<Resource>, names: seq<string>): (deps: seq<nat>)
    ensures forall d :: d in deps ==> d < |rs|
  {
    if names == [] then []
    else
      var n := |names| - 1;
      var i := LastNamed(rs, names[n]);
      Resolved(rs, names[..n]) + if i.Some? then [i.value] else []
  }

  function ResourceGraph(rs: seq<Resource>): (g: map<nat, seq<nat>>)
    ensures Closed(g)
  {
    map i: nat | i < |rs| :: Resolved(rs, rs[i].dependencies)
  }

  /** Those that depend on nothing come first, in list order. */
  ghost predicate RootsFirst(g: map<nat, seq<nat>>, order: seq<nat>) {
    forall a, b :: 0 <= a < b < |order| && order[a] in g && order[b] in g && g[order[b]] == [] ==>
      g[order[a]] == [] && order[a] < order[b]
  }

  /** A topological listing of all resources that starts with those that depend on nothing, in list order. */
  ghost predicate IsApplyOrder(rs: seq<Resource>, order: seq<nat>) {
    && |order| == |rs|
    && IsKahnOrder(ResourceGraph(rs), order)
    && (forall i: nat :: i < |rs| ==> i in order)
    && RootsFirst(ResourceGraph(rs), order)
  }

  predicate InRange(order: seq<nat>, n: nat) {
    forall k :: 0 <= k < |order| ==> order[k] < n
  }

  lemma OrderIsInRange(rs: seq<Resource>, order: seq<nat>)
    requires IsKahnOrder(ResourceGraph(rs), order)
    ensures InRange(order, |rs|)
  {
    forall k | 0 <= k < |order| ensures order[k] < |rs| {
      assert order[k] in order;
    }
  }

  lemma ApplyOrderIsTopological(rs: seq<Resource>, order: seq<nat>)
    requires IsApplyOrder(rs, order)
    ensures Topological(ResourceGraph(rs), order) && Distinct(order)
  {
  }

  lemma {:induction false} LastNamedIsLast(rs: seq<Resource>, name: string, j: nat)
    requires j < |rs| && EffectiveName(rs[j]) == name
    requires forall k :: j < k < |rs| ==> EffectiveName(rs[k]) != name
    ensures LastNamed(rs, name) == Some(j)
  {
    hide EffectiveName;
    if j < |rs| - 1 {
      LastNamedIsLast(rs[..|rs| - 1], name, j);
    }
  }

  /** A dependency is resolved exactly if it is the last resource with one of the names. */
  lemma {:induction false} ResolvedIff(rs: seq<Resource>, names: seq<string>, j: nat)
    ensures j in Resolved(rs, names) <==> exists k :: 0 <= k < |names| && LastNamed(rs, names[k]) == Some(j)
  {
    hide EffectiveName, LastNamed;
    if names != [] {
      var n := |names| - 1;
      ResolvedIff(rs, names[..n], j);
      if k :| 0 <= k < |names| && LastNamed(rs, names[k]) == Some(j) {
        assert k < n ==> names[..n][k] == names[k];
      }
      if j in Resolved(rs, names[..n]) {
        var k :| 0 <= k < n && LastNamed(rs, names[..n][k]) == Some(j);
        assert LastNamed(rs, names[k]) == Some(j);
      }
    }
  }

  /**
   * Every resource comes after each resource that one of its dependencies names; should several have that name, after
   * the last of them.
   */
  lemma NamedComeFirst(rs: seq<Resource>, order: seq<nat>, p: nat, name: string, j: nat) returns (q: nat)
    requires IsApplyOrder(rs, order) && p < |order| && order[p] < |rs| && name in rs[order[p]].dependencies
    requires j < |rs| && EffectiveName(rs[j]) == name && forall k :: j < k < |rs| ==> EffectiveName(rs[k]) != name
    ensures q < p && order[q] == j
  {
    hide ReachesCycle, EffectiveName;
    var deps := rs[order[p]].dependencies;
    var k :| 0 <= k < |deps| && deps[k] == name;
    LastNamedIsLast(rs, name, j);
    ResolvedIff(rs, deps, j);
    assert j in ResourceGraph(rs)[order[p]];
    q :| 0 <= q < p && order[q] == j;
  }

  lemma TopologicalIsApplyOrder(rs: seq<Resource>, order: seq<nat>)
    requires Topological(ResourceGraph(rs), order) && RootsFirst(ResourceGraph(rs), order)
    requires |order| == |rs| && forall i: nat :: i < |rs| ==> i in order
    ensures IsApplyOrder(rs, order)
  {
    hide Topological, RootsFirst, ReachesCycle;
    forall v | v in ResourceGraph(rs) ensures v in order && !ReachesCycle(ResourceGraph(rs), v) {
      ListedNodesReachNoCycle(ResourceGraph(rs), order, v);
    }
  }

  lemma {:induction false} IncreasingFromBelow(order: seq<nat>, k: nat)
    requires k < |order| && forall a, b :: 0 <= a < b < |order| ==> order[a] < order[b]
    ensures k <= order[k]
  {
    if k > 0 {
      IncreasingFromBelow(order, k - 1);
    }
  }

  lemma {:induction false} IncreasingFromAbove(order: seq<nat>, k: nat, n: nat)
    requires k < |order| && InRange(order, n) && forall a, b :: 0 <= a < b < |order| ==> order[a] < order[b]
    ensures order[k] + (|order| - 1 - k) < n
    decreases |order| - k
  {
    if k < |order| - 1 {
      IncreasingFromAbove(order, k + 1, n);
    }
  }

  /** Without dependencies the order is the order of the list. */
  lemma WithoutDependenciesListOrder(rs: seq<Resource>, order: seq<nat>)
    requires IsApplyOrder(rs, order)
    requires forall i :: 0 <= i < |rs| ==> rs[i].dependencies == []
    ensures forall k :: 0 <= k < |rs| ==> order[k] == k
  {
    OrderIsInRange(rs, order);
    assert forall i: nat :: i < |rs| ==> ResourceGraph(rs)[i] == [];
    forall k | 0 <= k < |rs| ensures order[k] == k {
      IncreasingFromBelow(order, k);
      IncreasingFromAbove(order, k, |rs|);
    }
  }

  /** The indices below `n` without dependencies, in increasing order: the initial queue. */
  function Roots(g: map<nat, seq<nat>>, n: nat): (roots: seq<nat>)
    requires forall v: nat :: v < n ==> v in g
    ensures forall v: nat :: v in roots <==> v < n && g[v] == []
    ensures forall a, b :: 0 <= a < b < |roots| ==> roots[a] < roots[b]
  {
    if n == 0 then []
    else
      var before := Roots(g, n - 1);
      assert forall a :: 0 <= a < |before| ==> before[a] in before;
      before + if g[n - 1] == [] then [n - 1] else []
  }

  lemma RootsPrefixComesFirst(g: map<nat, seq<nat>>, roots: seq<nat>, order: seq<nat>)
    requires forall a, b :: 0 <= a < b < |roots| ==> roots[a] < roots[b]
    requires forall v: nat :: v in roots <==> v in g && g[v] == []
    requires roots <= order && Distinct(order)
    ensures RootsFirst(g, order)
  {
    forall a, b | 0 <= a < b < |order| && order[a] in g && order[b] in g && g[order[b]] == []
      ensures g[order[a]] == [] && order[a] < order[b]
    {
      assert order[b] in roots;
      var j :| 0 <= j < |roots| && roots[j] == order[b];
      assert j == b && roots[a] == order[a] && roots[a] in roots;
    }
  }

  /** The adjacency lists invert the first `i` dependency lists and `part`, a prefix of the next one. */
  ghost predicate Inverts(adj: seq<seq<nat>>, g: map<nat, seq<nat>>, i: nat, part: seq<nat>) {
    && (forall u, v :: 0 <= u < |adj| && v in adj[u] ==> v in g)
    && (forall u: nat, v: nat {:trigger multiset(adj[u])[v]} :: u < |adj| && v in g ==>
      multiset(adj[u])[v] == if v < i then multiset(g[v])[u] else if v == i then multiset(part)[u] else 0)
  }

  lemma InvertsOneMore(adj: seq<seq<nat>>, g: map<nat, seq<nat>>, i: nat, part: seq<nat>, d: nat)
    requires Inverts(adj, g, i, part) && d < |adj| && i in g
    ensures Inverts(adj[d := adj[d] + [i]], g, i, part + [d])
  {
    var after := adj[d := adj[d] + [i]];
    forall u: nat, v: nat | u < |adj| && v in g
      ensures multiset(after[u])[v] ==
        if v < i then multiset(g[v])[u] else if v == i then multiset(part + [d])[u] else 0
    {
      assert multiset(adj[u])[v] == if v < i then multiset(g[v])[u] else if v == i then multiset(part)[u] else 0;
    }
  }

  /** `seen` is the set of a duplicate-free list and queue. */
  ghost predicate Listed<T>(order: seq<T>, queue: seq<T>, seen: set<T>) {
    Distinct(order + queue) && seen == set v | v in order + queue
  }

  lemma Enqueue<T>(order: seq<T>, queue: seq<T>, seen: set<T>, v: T)
    requires Listed(order, queue, seen) && v !in seen
    ensures Listed(order, queue + [v], seen + {v})
    ensures order + queue <= order + (queue + [v])
  {
    assert order + (queue + [v]) == (order + queue) + [v];
  }

  /** The queue loop between two rounds: `done` is listed, `seen` listed or queued. */
  ghost predicate Drains<T>(g: map<T, seq<T>>, order: seq<T>, queue: seq<T>, done: set<T>, seen: set<T>) {
    && Listed(order, queue, seen)
    && seen <= g.Keys
    && Topological(g, order)
    && done == (set v | v in order)
    && (forall v :: v in g ==> (v in seen <==> Pending(g[v], done) == 0))
  }

  lemma HeadIsFresh<T>(order: seq<T>, queue: seq<T>, seen: set<T>)
    requires Listed(order, queue, seen) && queue != []
    ensures queue[0] !in order && queue[0] in seen && seen == set v | v in order + queue
    ensures order + [queue[0]] + queue[1..] == order + queue
    ensures Listed(order + [queue[0]], queue[1..], seen)
  {
    assert order + queue == order + [queue[0]] + queue[1..];
    assert (order + queue)[|order|] == queue[0];
    forall k | 0 <= k < |order| ensures order[k] != queue[0] {
      assert (order + queue)[k] != (order + queue)[|order|];
    }
  }

  lemma TopologicalExtends<T>(g: map<T, seq<T>>, order: seq<T>, u: T)
    requires Topological(g, order) && u in g && u !in order
    requires forall w :: w in g[u] ==> w in order
    ensures Topological(g, order + [u])
  {
    var next := order + [u];
    forall k, w | 0 <= k < |next| && w in g[next[k]] ensures w in next[..k] {
      if k < |order| {
        assert next[..k] == order[..k] && next[k] == order[k];
      } else {
        assert next[..k] == order;
      }
    }
  }

  lemma HeadWaitsForNothing<T>(g: map<T, seq<T>>, order: seq<T>, queue: seq<T>, done: set<T>, seen: set<T>)
    requires Drains(g, order, queue, done, seen) && queue != [] && queue[0] in seen
    ensures queue[0] in g && forall w :: w in g[queue[0]] ==> w in order
  {
    assert Pending(g[queue[0]], done) == 0;
    assert forall w :: w in g[queue[0]] ==> w in done;
  }

  /** The head of the queue can be listed: all it depends on is, and nothing else waits for less than it did. */
  lemma TakeFromQueue<T>(g: map<T, seq<T>>, order: seq<T>, queue: seq<T>, done: set<T>, seen: set<T>)
    requires Drains(g, order, queue, done, seen) && queue != []
    ensures var u := queue[0]; u in seen && u !in done
    ensures Listed(order + [queue[0]], queue[1..], seen)
    ensures Topological(g, order + [queue[0]])
    ensures done + {queue[0]} == set v | v in order + [queue[0]]
    ensures order + [queue[0]] + queue[1..] == order + queue
    ensures forall v :: v in g ==>
      multiset(g[v])[queue[0]] <= Pending(g[v], done) &&
      Pending(g[v], done + {queue[0]}) == Pending(g[v], done) - multiset(g[v])[queue[0]]
  {
    hide Distinct, Topological, Pending, Listed;
    var u := queue[0];
    HeadIsFresh(order, queue, seen);
    HeadWaitsForNothing(g, order, queue, done, seen);
    TopologicalExtends(g, order, u);
    forall v | v in g
      ensures multiset(g[v])[u] <= Pending(g[v], done)
      ensures Pending(g[v], done + {u}) == Pending(g[v], done) - multiset(g[v])[u]
    {
      PendingAfter(g[v], done, u);
    }
  }

  /** One more name resolves to at most one more index. */
  lemma ResolvedStep(rs: seq<Resource>, names: seq<string>, j: nat)
    requires j < |names|
    ensures Resolved(rs, names[..j + 1]) ==
            Resolved(rs, names[..j]) +
            if LastNamed(rs, names[j]).Some? then [LastNamed(rs, names[j]).value] else []
  {
    assert names[..j + 1][..j] == names[..j];
  }

  method IndexByName(rs: seq<Resource>) returns (byName: map<string, nat>)
    ensures forall name :: LastNamed(rs, name) == if name in byName then Some(byName[name]) else None
  {
    byName := map[];
    for i := 0 to |rs|
      invariant forall name :: LastNamed(rs[..i], name) == if name in byName then Some(byName[name]) else None
    {
      assert rs[..i + 1][..i] == rs[..i];
      byName := byName[EffectiveName(rs[i]) := i];
    }
    assert rs[..|rs|] == rs;
  }

  lemma InvertsNext(adj: seq<seq<nat>>, g: map<nat, seq<nat>>, i: nat)
    requires i in g && Inverts(adj, g, i, g[i])
    ensures Inverts(adj, g, i + 1, [])
  {
  }

  method CollectEdges(rs: seq<Resource>, inDegree: array<int>, adj: array<seq<nat>>)
    requires inDegree.Length == adj.Length == |rs|
    requires forall i :: 0 <= i < |rs| ==> inDegree[i] == 0 && adj[i] == []
    modifies inDegree, adj
    ensures forall i: nat :: i < |rs| ==> inDegree[i] == |ResourceGraph(rs)[i]|
    ensures Inverts(adj[..], ResourceGraph(rs), |rs|, [])
  {
    ghost var g := ResourceGraph(rs);
    var byName := IndexByName(rs);
    for i := 0 to |rs|
      invariant forall v: nat :: v < |rs| ==> inDegree[v] == if v < i then |g[v]| else 0
      invariant Inverts(adj[..], g, i, [])
    {
      CollectEdgesOf(rs, g, i, byName, inDegree, adj);
      InvertsNext(adj[..], g, i);
    }
  }

  method CollectEdgesOf(rs: seq<Resource>, ghost g: map<nat, seq<nat>>, i: nat, byName: map<string, nat>,
                        inDegree: array<int>, adj: array<seq<nat>>)
    requires i < inDegree.Length == adj.Length == |rs| && i in g
    requires forall name :: LastNamed(rs, name) == if name in byName then Some(byName[name]) else None
    requires inDegree[i] == 0 && Inverts(adj[..], g, i, [])
    modifies inDegree, adj
    ensures forall v :: 0 <= v < |rs| && v != i ==> inDegree[v] == old(inDegree[v])
    ensures inDegree[i] == |Resolved(rs, rs[i].dependencies)|
    ensures Inverts(adj[..], g, i, Resolved(rs, rs[i].dependencies))
  {
    var deps := rs[i].dependencies;
    for j := 0 to |deps|
      invariant forall v :: 0 <= v < |rs| && v != i ==> inDegree[v] == old(inDegree[v])
      invariant inDegree[i] == |Resolved(rs, deps[..j])|
      invariant Inverts(adj[..], g, i, Resolved(rs, deps[..j]))
    {
      ResolvedStep(rs, deps, j);
      if deps[j] in byName {
        var d := byName[deps[j]];
        assert LastNamed(rs, deps[j]) == Some(d);
        InvertsOneMore(adj[..], g, i, Resolved(rs, deps[..j]), d);
        ghost var before := adj[..];
        adj[d] := adj[d] + [i];
        assert adj[..] == before[d := before[d] + [i]];
        inDegree[i] := inDegree[i] + 1;
      }
    }
    assert deps[..|deps|] == deps;
  }

  lemma OneMoreEdge<T>(edges: seq<T>, j: nat)
    requires j < |edges|
    ensures multiset(edges[..j + 1]) == multiset(edges[..j]) + multiset{edges[j]}
    ensures multiset(edges[..j])[edges[j]] < multiset(edges)[edges[j]]
  {
    assert edges[..j + 1] == edges[..j] + [edges[j]];
    assert edges == edges[..j + 1] + edges[j + 1..];
  }

  /** The inner loop: one listed node `u` is taken off the count of each of its dependents. */
  method Release(g: map<nat, seq<nat>>, ghost order: seq<nat>, waiting: seq<nat>, edges: seq<nat>, inDegree: array<int>,
                 ghost seen: set<nat>)
      returns (queue: seq<nat>, ghost nowSeen: set<nat>)
    requires forall v: nat :: v in g <==> v < inDegree.Length
    requires forall v :: v in edges ==> v in g
    requires forall v: nat :: v in g ==> multiset(edges)[v] <= inDegree[v]
    requires Listed(order, waiting, seen) && seen <= g.Keys
    requires forall v: nat :: v in g ==> (v in seen <==> inDegree[v] == 0)
    modifies inDegree
    ensures forall v: nat :: v in g ==> inDegree[v] == old(inDegree[v]) - multiset(edges)[v]
    ensures Listed(order, queue, nowSeen) && nowSeen <= g.Keys
    ensures forall v: nat :: v in g ==> (v in nowSeen <==> inDegree[v] == 0)
    ensures order + waiting <= order + queue
  {
    hide Listed;
    queue := waiting;
    nowSeen := seen;
    for j := 0 to |edges|
      invariant forall v: nat :: v in g ==> inDegree[v] == old(inDegree[v]) - multiset(edges[..j])[v]
      invariant Listed(order, queue, nowSeen) && nowSeen <= g.Keys
      invariant forall v: nat :: v in g ==> (v in nowSeen <==> inDegree[v] == 0)
      invariant order + waiting <= order + queue
    {
      var v := edges[j];
      assert v in edges;
      OneMoreEdge(edges, j);
      inDegree[v] := inDegree[v] - 1;
      if inDegree[v] == 0 {
        Enqueue(order, queue, nowSeen, v);
        queue := queue + [v];
        nowSeen := nowSeen + {v};
      }
    }
    assert edges[..|edges|] == edges;
  }

  lemma StartDraining<T>(g: map<T, seq<T>>, roots: seq<T>)
    requires Distinct(roots) && forall v :: v in roots <==> v in g && g[v] == []
    ensures Drains(g, [], roots, {}, set v | v in roots)
    ensures forall v :: v in g ==> Pending(g[v], {}) == |g[v]|
  {
    assert [] + roots == roots;
    forall v | v in g ensures Pending(g[v], {}) == |g[v]| {
      PendingOfNothingDone(g[v]);
    }
  }

  /** One round of the outer loop: the head of the queue is listed and released. */
  method Round(g: map<nat, seq<nat>>, order: seq<nat>, queue: seq<nat>, inDegree: array<int>, adj: array<seq<nat>>,
               ghost done: set<nat>, ghost seen: set<nat>)
      returns (rest: seq<nat>, ghost nowSeen: set<nat>)
    requires inDegree.Length == adj.Length && (forall v: nat :: v in g <==> v < adj.Length)
    requires Inverts(adj[..], g, adj.Length, [])
    requires queue != [] && Drains(g, order, queue, done, seen)
    requires forall v: nat :: v in g ==> inDegree[v] == Pending(g[v], done)
    modifies inDegree
    ensures queue[0] in g
    ensures Drains(g, order + [queue[0]], rest, done + {queue[0]}, nowSeen)
    ensures forall v: nat :: v in g ==> inDegree[v] == Pending(g[v], done + {queue[0]})
    ensures order + queue <= order + [queue[0]] + rest
  {
    TakeFromQueue(g, order, queue, done, seen);
    var u := queue[0];
    assert adj[..][u] == adj[u];
    assert forall v: nat :: v in g ==> multiset(adj[..][u])[v] == multiset(g[v])[u];
    rest, nowSeen := Release(g, order + [u], queue[1..], adj[u], inDegree, seen);
  }

  /** The outer loop, from the initial queue to the finished order. */
  method Drain(g: map<nat, seq<nat>>, roots: seq<nat>, inDegree: array<int>, adj: array<seq<nat>>)
      returns (order: seq<nat>)
    requires inDegree.Length == adj.Length && (forall v: nat :: v in g <==> v < adj.Length) && Closed(g)
    requires Inverts(adj[..], g, adj.Length, [])
    requires forall v: nat :: v in g ==> inDegree[v] == |g[v]|
    requires forall a, b :: 0 <= a < b < |roots| ==> roots[a] < roots[b]
    requires forall v: nat :: v in roots <==> v in g && g[v] == []
    modifies inDegree
    ensures IsKahnOrder(g, order) && RootsFirst(g, order)
  {
    var queue := roots;
    ghost var done: set<nat> := {};
    ghost var seen: set<nat> := set v | v in queue;
    StartDraining(g, roots);

    order := [];
    while queue != []
      invariant Drains(g, order, queue, done, seen)
      invariant roots <= order + queue
      invariant forall v: nat :: v in g ==> inDegree[v] == Pending(g[v], done)
      invariant |order| <= adj.Length
      decreases adj.Length - |order|
    {
      var u := queue[0];
      queue, seen := Round(g, order, queue, inDegree, adj, done, seen);
      order := order + [u];
      done := done + {u};
      ListsAllBelow(order, adj.Length);
    }
    assert order + queue == order;
    DrainedOrderIsKahn(g, order, done);
    RootsPrefixComesFirst(g, roots, order);
  }

  ghost predicate IsCyclic(rs: seq<Resource>) {
    exists i: nat :: i < |rs| && ReachesCycle(ResourceGraph(rs), i)
  }

  /** A Kahn order misses a resource exactly when some resource reaches a cycle. */
  lemma FullOrderIffAcyclic(rs: seq<Resource>, order: seq<nat>)
    requires IsKahnOrder(ResourceGraph(rs), order) && RootsFirst(ResourceGraph(rs), order)
    ensures |order| == |rs| ==> IsApplyOrder(rs, order)
    ensures |order| == |rs| <==> !IsCyclic(rs)
  {
    var g := ResourceGraph(rs);
    assert forall i: nat :: i < |rs| <==> i in g;
    ListsAllBelow(order, |rs|);
  }

  /** The loop that queues the resources without dependencies, in list order. */
  method QueueRoots(g: map<nat, seq<nat>>, inDegree: array<int>) returns (queue: seq<nat>)
    requires forall v: nat :: v < inDegree.Length ==> v in g && inDegree[v] == |g[v]|
    ensures queue == Roots(g, inDegree.Length)
  {
    queue := [];
    for i := 0 to inDegree.Length
      invariant queue == Roots(g, i)
    {
      if inDegree[i] == 0 {
        queue := queue + [i];
      }
    }
  }

  method TopologicalOrder(rs: seq<Resource>) returns (r: Option<seq<nat>>)
    ensures r.Some? ==> IsApplyOrder(rs, r.value) && InRange(r.value, |rs|)
    ensures r.None? <==> IsCyclic(rs)
  {
    hide IsKahnOrder, IsApplyOrder, IsCyclic, Inverts, Resolved, RootsFirst, Roots;
    var n := |rs|;
    var inDegree := new int[n](_ => 0);
    var adj := new seq<nat>[n](_ => []);
    CollectEdges(rs, inDegree, adj);

    var g := ResourceGraph(rs);
    var queue := QueueRoots(g, inDegree);
    var order := Drain(g, queue, inDegree, adj);
    FullOrderIffAcyclic(rs, order);
    OrderIsInRange(rs, order);
    return if |order| != n then None else Some(order);
  }
}
