/** Kahn's algorithm over the keys to delete. The edges are the dependencies recorded in the state. */
module DeleteOrder {
  import opened Types
  import opened Graph
  import opened Ordering

  /** The recorded dependencies that are themselves to be deleted. */
  function Within(names: seq<string>, keys: set<string>): (deps: seq<string>)
    ensures forall d :: d in deps <==> d in names && d in keys
  {
    if names == [] then []
    else
      var n := |names| - 1;
      Within(names[..n], keys) + if names[n] in keys then [names[n]] else []
  }

  function StaleGraph(registry: Registry, keys: set<string>): (g: map<string, seq<string>>)
    requires keys <= registry.Keys
    ensures Closed(g) && g.Keys == keys
  {
    map k | k in keys :: Within(registry[k].dependencies, keys)
  }

  /** What `deleteOrderFromState` may return, whatever order Go walks its maps in. */
  ghost predicate IsDeleteOrder(registry: Registry, keys: set<string>, order: seq<string>) {
    keys <= registry.Keys && IsKahnOrder(StaleGraph(registry, keys), order)
  }

  /** A key is deleted after every key it depends on, directly or not, that is also to be deleted. */
  lemma DependenciesAreDeletedFirst(registry: Registry, keys: set<string>, order: seq<string>, k: nat,
                                    dependency: string)
      returns (earlier: nat)
    requires IsDeleteOrder(registry, keys, order) && k < |order|
    requires dependency in keys
    requires dependency in registry[order[k]].dependencies ||
      DependsOn(StaleGraph(registry, keys), order[k], dependency)
    ensures earlier < k && order[earlier] == dependency
  {
    var g := StaleGraph(registry, keys);
    assert order[k] in order;
    if dependency in registry[order[k]].dependencies {
      assert IsWalk(g, [order[k], dependency]);
    }
    earlier := DependenciesComeEarlier(g, order, k, dependency);
  }

  /** `u` occurs among the dependencies of `v` as often as `v` occurs in the list kept for `u`. */
  ghost predicate Inverted<T>(adj: map<T, seq<T>>, deps: map<T, seq<T>>) {
    && adj.Keys == deps.Keys
    && (forall u, v :: u in adj && v in adj[u] ==> v in deps)
    && (forall u, v {:trigger multiset(adj[u])[v]} :: u in adj && v in deps ==>
      multiset(adj[u])[v] == multiset(deps[v])[u])
  }

  lemma InvertedOneMore<T>(adj: map<T, seq<T>>, deps: map<T, seq<T>>, k: T, d: T)
    requires Inverted(adj, deps) && k in deps && d in adj
    ensures Inverted(adj[d := adj[d] + [k]], deps[k := deps[k] + [d]])
  {
    var adj', deps' := adj[d := adj[d] + [k]], deps[k := deps[k] + [d]];
    forall u, v | u in adj && v in deps ensures multiset(adj'[u])[v] == multiset(deps'[v])[u] {
      assert multiset(adj[u])[v] == multiset(deps[v])[u];
      CountAppend(adj[d], k, v);
      CountAppend(deps[k], d, u);
    }
  }

  lemma CountAppend<T>(s: seq<T>, x: T, y: T)
    ensures multiset(s + [x])[y] == multiset(s)[y] + if x == y then 1 else 0
  {
  }

  /** The edges of one key. */
  method CollectEdgesOfKey(names: seq<string>, k: string, counts: map<string, int>, lists: map<string, seq<string>>,
                           ghost deps: map<string, seq<string>>)
      returns (inDegree: map<string, int>, adj: map<string, seq<string>>)
    requires Inverted(lists, deps) && k in deps && deps[k] == [] && counts.Keys == deps.Keys
    requires forall v :: v in deps ==> counts[v] == |deps[v]|
    ensures inDegree.Keys == deps.Keys
    ensures Inverted(adj, deps[k := Within(names, deps.Keys)])
    ensures forall v :: v in deps ==> inDegree[v] == |deps[k := Within(names, deps.Keys)][v]|
  {
    inDegree, adj := counts, lists;
    assert deps[k := Within(names[..0], deps.Keys)] == deps;
    for j := 0 to |names|
      invariant inDegree.Keys == deps.Keys
      invariant Inverted(adj, deps[k := Within(names[..j], deps.Keys)])
      invariant forall v :: v in deps ==> inDegree[v] == |deps[k := Within(names[..j], deps.Keys)][v]|
    {
      var sofar := Within(names[..j], deps.Keys);
      assert names[..j + 1][..j] == names[..j];
      if names[j] in counts {
        InvertedOneMore(adj, deps[k := sofar], k, names[j]);
        assert deps[k := sofar][k := sofar + [names[j]]] == deps[k := sofar + [names[j]]];
        adj := adj[names[j] := adj[names[j]] + [k]];
        inDegree := inDegree[k := inDegree[k] + 1];
        assert Within(names[..j + 1], deps.Keys) == sofar + [names[j]];
      } else {
        assert Within(names[..j + 1], deps.Keys) == sofar;
      }
    }
    assert names[..|names|] == names;
  }

  /** The graph with only the lists of the given keys filled in. */
  ghost function Partial<T>(g: map<T, seq<T>>, filled: set<T>): (deps: map<T, seq<T>>)
    ensures deps.Keys == g.Keys
  {
    map k | k in g :: if k in filled then g[k] else []
  }

  lemma PartialStep<T>(g: map<T, seq<T>>, filled: set<T>, k: T)
    requires k in g && k !in filled
    ensures Partial(g, filled)[k] == []
    ensures Partial(g, filled)[k := g[k]] == Partial(g, filled + {k})
  {
  }

  lemma PartialAll<T>(g: map<T, seq<T>>)
    ensures Partial(g, g.Keys) == g
  {
  }

  ghost function First<T>(keys: seq<T>, i: nat): set<T>
    requires i <= |keys|
  {
    set j | 0 <= j < i :: keys[j]
  }

  lemma FirstStep<T>(keys: seq<T>, i: nat)
    requires i < |keys| && Distinct(keys)
    ensures keys[i] !in First(keys, i) && First(keys, i + 1) == First(keys, i) + {keys[i]}
  {
  }

  lemma FirstAll<T>(keys: seq<T>)
    ensures First(keys, |keys|) == set k | k in keys
  {
  }

  /** The edges of the first `i` keys are collected. */
  ghost predicate Collected(g: map<string, seq<string>>, keys: seq<string>, i: nat,
                            inDegree: map<string, int>, adj: map<string, seq<string>>)
    requires i <= |keys|
  {
    var deps := Partial(g, First(keys, i));
    inDegree.Keys == g.Keys && Inverted(adj, deps) && forall k :: k in g ==> inDegree[k] == |deps[k]|
  }

  lemma NothingFilled(g: map<string, seq<string>>, keys: seq<string>, inDegree: map<string, int>,
                      adj: map<string, seq<string>>)
    requires adj.Keys == g.Keys && (forall k :: k in adj ==> adj[k] == [])
    requires inDegree.Keys == g.Keys && (forall k :: k in inDegree ==> inDegree[k] == 0)
    ensures Collected(g, keys, 0, inDegree, adj)
  {
  }

  lemma CollectedAll(g: map<string, seq<string>>, keys: seq<string>, inDegree: map<string, int>,
                     adj: map<string, seq<string>>)
    requires g.Keys == (set k | k in keys) && Collected(g, keys, |keys|, inDegree, adj)
    ensures inDegree.Keys == g.Keys && Inverted(adj, g) && forall k :: k in g ==> inDegree[k] == |g[k]|
  {
    FirstAll(keys);
    PartialAll(g);
  }

  method CollectRecordedEdges(state: State, ghost g: map<string, seq<string>>, keys: seq<string>, keySet: set<string>)
      returns (inDegree: map<string, int>, adj: map<string, seq<string>>)
    requires Distinct(keys) && keySet == (set k | k in keys) && g.Keys == keySet <= state.resources.Keys
    requires forall k :: k in g ==> g[k] == Within(state.resources[k].dependencies, keySet)
    ensures inDegree.Keys == g.Keys && Inverted(adj, g)
    ensures forall k :: k in g ==> inDegree[k] == |g[k]|
  {
    hide Within, Distinct, Collected;
    inDegree := map k | k in keySet :: 0;
    adj := map k | k in keySet :: [];
    NothingFilled(g, keys, inDegree, adj);
    for i := 0 to |keys|
      invariant Collected(g, keys, i, inDegree, adj)
    {
      inDegree, adj := CollectNextKey(state, g, keys, i, inDegree, adj);
    }
    CollectedAll(g, keys, inDegree, adj);
  }

  /** One round of the loop over the keys. */
  method CollectNextKey(state: State, ghost g: map<string, seq<string>>, keys: seq<string>, i: nat,
                        counts: map<string, int>, lists: map<string, seq<string>>)
      returns (inDegree: map<string, int>, adj: map<string, seq<string>>)
    requires i < |keys| && Distinct(keys) && (forall j :: 0 <= j < |keys| ==> keys[j] in g) &&
      g.Keys <= state.resources.Keys
    requires forall k :: k in g ==> g[k] == Within(state.resources[k].dependencies, g.Keys)
    requires Collected(g, keys, i, counts, lists)
    ensures Collected(g, keys, i + 1, inDegree, adj)
  {
    hide Within, Inverted, First;
    var k := keys[i];
    FirstStep(keys, i);
    PartialStep(g, First(keys, i), k);
    inDegree, adj :=
      CollectEdgesOfKey(state.resources[k].dependencies, k, counts, lists, Partial(g, First(keys, i)));
  }

  /** The counts after the edges in `taken` were taken off. */
  ghost predicate Released(counts: map<string, int>, inDegree: map<string, int>, taken: multiset<string>) {
    inDegree.Keys == counts.Keys && forall v :: v in counts ==> inDegree[v] == counts[v] - taken[v]
  }

  /** `seen` are the keys whose count is zero. */
  ghost predicate IsZeroSet(inDegree: map<string, int>, seen: set<string>) {
    seen <= inDegree.Keys && forall v :: v in inDegree ==> (v in seen <==> inDegree[v] == 0)
  }

  lemma ReleaseOneMore(counts: map<string, int>, inDegree: map<string, int>, taken: multiset<string>, seen: set<string>,
                       v: string)
    requires v in counts && taken[v] < counts[v] && Released(counts, inDegree, taken) && IsZeroSet(inDegree, seen)
    ensures v in inDegree && v !in seen
    ensures Released(counts, inDegree[v := inDegree[v] - 1], taken + multiset{v})
    ensures IsZeroSet(inDegree[v := inDegree[v] - 1], if inDegree[v] == 1 then seen + {v} else seen)
  {
  }

  /** The inner loop: one listed key is taken off the count of each of its dependents. */
  method ReleaseKeys(ghost order: seq<string>, waiting: seq<string>, edges: seq<string>, counts: map<string, int>,
                     ghost seen: set<string>)
      returns (queue: seq<string>, inDegree: map<string, int>, ghost nowSeen: set<string>)
    requires forall v :: v in edges ==> v in counts
    requires forall v :: v in counts ==> multiset(edges)[v] <= counts[v]
    requires Listed(order, waiting, seen) && IsZeroSet(counts, seen)
    ensures Released(counts, inDegree, multiset(edges))
    ensures Listed(order, queue, nowSeen) && IsZeroSet(inDegree, nowSeen)
  {
    queue, inDegree, nowSeen := waiting, counts, seen;
    assert Released(counts, inDegree, multiset(edges[..0]));
    hide Listed, Released, IsZeroSet;
    for j := 0 to |edges|
      invariant Released(counts, inDegree, multiset(edges[..j]))
      invariant Listed(order, queue, nowSeen) && IsZeroSet(inDegree, nowSeen)
    {
      var v := edges[j];
      assert v in edges;
      OneMoreEdge(edges, j);
      ReleaseOneMore(counts, inDegree, multiset(edges[..j]), nowSeen, v);
      inDegree := inDegree[v := inDegree[v] - 1];
      if inDegree[v] == 0 {
        Enqueue(order, queue, nowSeen, v);
        queue := queue + [v];
        nowSeen := nowSeen + {v};
      }
    }
    assert edges[..|edges|] == edges;
  }

  /** The keys without dependencies, in whatever order the map hands them out. */
  method InitialQueue(inDegree: map<string, int>) returns (queue: seq<string>)
    ensures Distinct(queue) && forall k :: k in queue <==> k in inDegree && inDegree[k] == 0
  {
    queue := [];
    var todo := inDegree.Keys;
    while todo != {}
      invariant todo <= inDegree.Keys && Distinct(queue)
      invariant forall k :: k in queue <==> k in inDegree && k !in todo && inDegree[k] == 0
    {
      var k :| k in todo;
      if inDegree[k] == 0 {
        queue := queue + [k];
      }
      todo := todo - {k};
    }
  }

  /** One round of the outer loop: the head of the queue is listed and released. */
  method RoundOfKeys(ghost g: map<string, seq<string>>, order: seq<string>, queue: seq<string>,
                     counts: map<string, int>, adj: map<string, seq<string>>, ghost done: set<string>,
                     ghost seen: set<string>)
      returns (rest: seq<string>, inDegree: map<string, int>, ghost nowSeen: set<string>)
    requires Inverted(adj, g) && counts.Keys == g.Keys
    requires queue != [] && Drains(g, order, queue, done, seen)
    requires forall v :: v in g ==> counts[v] == Pending(g[v], done)
    ensures inDegree.Keys == g.Keys && queue[0] in g && queue[0] !in done
    ensures Drains(g, order + [queue[0]], rest, done + {queue[0]}, nowSeen)
    ensures forall v :: v in g ==> inDegree[v] == Pending(g[v], done + {queue[0]})
  {
    TakeFromQueue(g, order, queue, done, seen);
    rest, inDegree, nowSeen := ReleaseKeys(order + [queue[0]], queue[1..], adj[queue[0]], counts, seen);
  }

  /** The outer loop, from the initial queue to the finished order. */
  method DrainKeys(ghost g: map<string, seq<string>>, roots: seq<string>, counts: map<string, int>,
                   adj: map<string, seq<string>>)
      returns (order: seq<string>)
    requires Closed(g) && Inverted(adj, g) && counts.Keys == g.Keys
    requires forall v :: v in g ==> counts[v] == |g[v]|
    requires Distinct(roots) && forall v :: v in roots <==> v in g && g[v] == []
    ensures IsKahnOrder(g, order)
  {
    var queue, inDegree := roots, counts;
    ghost var done: set<string> := {};
    ghost var seen: set<string> := set v | v in queue;
    StartDraining(g, roots);

    order := [];
    while queue != []
      invariant inDegree.Keys == g.Keys
      invariant Drains(g, order, queue, done, seen)
      invariant forall v :: v in g ==> inDegree[v] == Pending(g[v], done)
      invariant |order| <= |g.Keys|
      decreases |g.Keys| - |order|
    {
      var u := queue[0];
      queue, inDegree, seen := RoundOfKeys(g, order, queue, inDegree, adj, done, seen);
      order := order + [u];
      done := done + {u};
      ListingFits(g, order);
    }
    DrainedOrderIsKahn(g, order, done);
  }

  lemma ListingFits(g: map<string, seq<string>>, order: seq<string>)
    requires Topological(g, order)
    ensures |order| <= |g.Keys|
  {
    DistinctSize(order);
    SubsetSize((set v | v in order), g.Keys);
  }

  method DeleteOrderFromState(state: State, keys: seq<string>) returns (order: seq<string>)
    requires Distinct(keys) && forall k :: k in keys ==> k in state.resources
    ensures IsDeleteOrder(state.resources, (set k | k in keys), order)
  {
    var keySet := set k | k in keys;
    ghost var g := StaleGraph(state.resources, keySet);
    var inDegree, adj := CollectRecordedEdges(state, g, keys, keySet);
    var queue := InitialQueue(inDegree);
    order := DrainKeys(g, queue, inDegree, adj);
  }
}
