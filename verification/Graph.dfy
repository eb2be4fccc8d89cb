/** Dependency graphs: every node with the list of nodes it depends on, repetitions included. */
module Graph {

  /** A graph whose lists mention only its own nodes. */
  ghost predicate Closed<T>(g: map<T, seq<T>>) {
    forall v, u :: v in g && u in g[v] ==> u in g
  }

  ghost predicate Distinct<T>(s: seq<T>) {
    forall i, j :: 0 <= i < j < |s| ==> s[i] != s[j]
  }

  lemma HasMember<T>(s: seq<T>)
    requires s != []
    ensures exists v :: v in s
  {
    assert s[0] in s;
  }

  /** A walk steps from each node to one it depends on. */
  ghost predicate IsWalk<T>(g: map<T, seq<T>>, p: seq<T>) {
    && |p| > 0
    && (forall k :: 0 <= k < |p| ==> p[k] in g)
    && (forall k :: 0 < k < |p| ==> p[k] in g[p[k - 1]])
  }

  /** `v` lies on a dependency cycle or depends, through any number of steps, on one. */
  ghost predicate ReachesCycle<T(!new)>(g: map<T, seq<T>>, v: T) {
    exists p: seq<T>, i: nat, j: nat :: IsWalk(g, p) && p[0] == v && i < j < |p| && p[i] == p[j]
  }

  /** `w` is a dependency of `v` through one or more steps. */
  ghost predicate DependsOn<T(!new)>(g: map<T, seq<T>>, v: T, w: T) {
    exists p: seq<T> :: IsWalk(g, p) && |p| >= 2 && p[0] == v && p[|p| - 1] == w
  }

  /** Every listed node comes after all the nodes it depends on, and is listed once. */
  ghost predicate Topological<T>(g: map<T, seq<T>>, order: seq<T>) {
    && Distinct(order)
    && (forall v :: v in order ==> v in g)
    && (forall k, u :: 0 <= k < |order| && u in g[order[k]] ==> u in order[..k])
  }

  /** A topological listing of exactly the nodes that do not reach a cycle. */
  ghost predicate IsKahnOrder<T(!new)>(g: map<T, seq<T>>, order: seq<T>) {
    && Topological(g, order)
    && (forall v :: v in g ==> (v in order <==> !ReachesCycle(g, v)))
  }

  /** A walk that starts inside a topological listing moves strictly towards its front. */
  lemma {:induction false} WalkDescends<T>(g: map<T, seq<T>>, order: seq<T>, p: seq<T>, start: nat, k: nat)
      returns (at: nat)
    requires Topological(g, order) && IsWalk(g, p)
    requires start < |order| && order[start] == p[0]
    requires k < |p|
    ensures at < |order| && order[at] == p[k] && at + k <= start
  {
    if k == 0 {
      at := start;
    } else {
      var before := WalkDescends(g, order, p, start, k - 1);
      assert p[k] in g[p[k - 1]] && order[before] == p[k - 1];
      assert p[k] in order[..before];
      at :| 0 <= at < before && order[at] == p[k];
    }
  }

  lemma DropWalk<T>(g: map<T, seq<T>>, p: seq<T>, i: nat)
    requires IsWalk(g, p) && i < |p|
    ensures IsWalk(g, p[i..])
  {
    forall k | 0 < k < |p[i..]| ensures p[i..][k] in g[p[i..][k - 1]] {
      assert p[i + k] in g[p[i + k - 1]];
    }
  }

  lemma WalkNeverRepeats<T>(g: map<T, seq<T>>, order: seq<T>, p: seq<T>, i: nat, j: nat)
    requires Topological(g, order) && IsWalk(g, p) && p[0] in order && i < j < |p|
    ensures p[i] != p[j]
  {
    var start :| 0 <= start < |order| && order[start] == p[0];
    var at := WalkDescends(g, order, p, start, i);
    DropWalk(g, p, i);
    var back := WalkDescends(g, order, p[i..], at, j - i);
    assert p[i..][j - i] == p[j];
  }

  lemma ListedNodesReachNoCycle<T(!new)>(g: map<T, seq<T>>, order: seq<T>, v: T)
    requires Topological(g, order) && v in order
    ensures !ReachesCycle(g, v)
  {
    forall p: seq<T>, i: nat, j: nat | IsWalk(g, p) && p[0] == v && i < j < |p| ensures p[i] != p[j] {
      WalkNeverRepeats(g, order, p, i, j);
    }
  }

  lemma DependenciesComeEarlier<T(!new)>(g: map<T, seq<T>>, order: seq<T>, at: nat, w: T) returns (earlier: nat)
    requires Topological(g, order) && at < |order| && DependsOn(g, order[at], w)
    ensures earlier < at && order[earlier] == w
  {
    var p: seq<T> :| IsWalk(g, p) && |p| >= 2 && p[0] == order[at] && p[|p| - 1] == w;
    earlier := WalkDescends(g, order, p, at, |p| - 1);
  }

  /** `v` depends directly on a member of `stuck`. */
  ghost predicate WaitsFor<T>(g: map<T, seq<T>>, v: T, stuck: set<T>) {
    v in g && exists u :: u in g[v] && u in stuck
  }

  /** A set in which every node depends on a member can be walked for as long as one likes. */
  lemma {:induction false} LongWalk<T>(g: map<T, seq<T>>, stuck: set<T>, v: T, n: nat) returns (p: seq<T>)
    requires stuck <= g.Keys && v in stuck
    requires forall w :: w in stuck ==> WaitsFor(g, w, stuck)
    ensures IsWalk(g, p) && |p| == n + 1 && p[0] == v && (forall k :: 0 <= k < |p| ==> p[k] in stuck)
  {
    if n == 0 {
      p := [v];
    } else {
      var q := LongWalk(g, stuck, v, n - 1);
      assert WaitsFor(g, q[n - 1], stuck);
      var u :| u in g[q[n - 1]] && u in stuck;
      p := q + [u];
    }
  }

  /** More entries than values forces a repetition. */
  lemma {:induction false} Pigeonhole<T>(p: seq<T>, s: set<T>) returns (i: nat, j: nat)
    requires |p| > |s| && forall k :: 0 <= k < |p| ==> p[k] in s
    ensures i < j < |p| && p[i] == p[j]
    decreases |s|
  {
    var n := |p| - 1;
    if exists k :: 0 <= k < n && p[k] == p[n] {
      var k :| 0 <= k < n && p[k] == p[n];
      i, j := k, n;
    } else {
      assert p[n] in s;
      i, j := Pigeonhole(p[..n], s - {p[n]});
    }
  }

  lemma StuckNodesReachACycle<T(!new)>(g: map<T, seq<T>>, stuck: set<T>, v: T)
    requires stuck <= g.Keys && v in stuck
    requires forall w :: w in stuck ==> WaitsFor(g, w, stuck)
    ensures ReachesCycle(g, v)
  {
    var p := LongWalk(g, stuck, v, |stuck|);
    var i, j := Pigeonhole(p, stuck);
  }

  /** How many entries of a dependency list are not done yet, repetitions counted. */
  ghost function Pending<T>(deps: seq<T>, done: set<T>): (n: nat)
    ensures n <= |deps|
    ensures n == 0 <==> forall u :: u in deps ==> u in done
  {
    if deps == [] then 0
    else
      assert deps == [deps[0]] + deps[1..];
      (if deps[0] in done then 0 else 1) + Pending(deps[1..], done)
  }

  lemma {:induction false} PendingOfNothingDone<T>(deps: seq<T>)
    ensures Pending(deps, {}) == |deps|
  {
    if deps != [] {
      PendingOfNothingDone(deps[1..]);
    }
  }

  /** Finishing `u` settles all its occurrences at once. */
  lemma {:induction false} PendingAfter<T>(deps: seq<T>, done: set<T>, u: T)
    requires u !in done
    ensures Pending(deps, done + {u}) == Pending(deps, done) - multiset(deps)[u]
  {
    if deps == [] {
      assert multiset(deps)[u] == 0;
    } else {
      PendingAfter(deps[1..], done, u);
      assert deps == [deps[0]] + deps[1..];
      assert multiset(deps)[u] == multiset([deps[0]])[u] + multiset(deps[1..])[u];
    }
  }

  /** When the queue runs dry, the nodes left over are exactly those that reach a cycle. */
  lemma DrainedOrderIsKahn<T(!new)>(g: map<T, seq<T>>, order: seq<T>, done: set<T>)
    requires Closed(g) && Topological(g, order)
    requires done == set v | v in order
    requires forall v :: v in g ==> (v in order <==> Pending(g[v], done) == 0)
    ensures IsKahnOrder(g, order)
  {
    var stuck := g.Keys - done;
    forall w | w in stuck ensures WaitsFor(g, w, stuck) {
      var u :| u in g[w] && u !in done;
    }
    forall v | v in g ensures v in order <==> !ReachesCycle(g, v) {
      if v in order {
        ListedNodesReachNoCycle(g, order, v);
      } else {
        StuckNodesReachACycle(g, stuck, v);
      }
    }
  }

  ghost function Below(n: nat): (s: set<nat>)
    ensures |s| == n
    ensures forall v: nat :: v in s <==> v < n
  {
    if n == 0 then {} else Below(n - 1) + {n - 1}
  }

  /** A duplicate-free list of numbers below `n` is as long as `n` only if it lists them all. */
  lemma ListsAllBelow(order: seq<nat>, n: nat)
    requires Distinct(order) && forall v :: v in order ==> v < n
    ensures |order| <= n
    ensures |order| == n <==> forall v: nat :: v < n ==> v in order
  {
    var listed := set v | v in order;
    DistinctSize(order);
    SubsetSize(listed, Below(n));
    if |order| == n {
      SubsetOfEqualSize(listed, Below(n));
      forall v: nat | v < n ensures v in order {
        assert v in listed;
      }
    } else {
      assert (forall v: nat :: v < n ==> v in order) ==> listed == Below(n);
    }
  }

  lemma {:induction false} DistinctSize<T>(s: seq<T>)
    requires Distinct(s)
    ensures |set v | v in s| == |s|
  {
    if s != [] {
      var n := |s| - 1;
      DistinctSize(s[..n]);
      assert s == s[..n] + [s[n]];
      assert (set v | v in s) == (set v | v in s[..n]) + {s[n]};
    }
  }

  lemma {:induction false} SubsetSize<T>(a: set<T>, b: set<T>)
    requires a <= b
    ensures |a| <= |b|
  {
    if a != {} {
      var x :| x in a;
      SubsetSize(a - {x}, b - {x});
    }
  }

  lemma SubsetOfEqualSize<T>(a: set<T>, b: set<T>)
    requires a <= b && |a| == |b|
    ensures a == b
  {
    if a != b {
      var x :| x in b && x !in a;
      SubsetSize(a, b - {x});
    }
  }
}
