/** What a run leaves behind, and why running again does nothing more. */
module Settling {
  import opened Wrappers
  import opened Types
  import opened Templates
  import opened Graph
  import opened Ordering
  import opened DeleteOrder
  import opened Lint
  import opened Reconciler

  // ---------------------------------------------------------------- hypotheses

  /** No two resources at the same namespace and path. The linter does not check this. */
  ghost predicate DistinctPlaces(rs: seq<Resource>) {
    forall i, j :: 0 <= i < j < |rs| ==> PlaceOf(rs[i]) != PlaceOf(rs[j])
  }

  /** An entry under the name of a resource records that resource's place. */
  ghost predicate Coherent(rs: seq<Resource>, live: Registry) {
    forall i :: 0 <= i < |rs| && EffectiveName(rs[i]) in live ==> MatchesPlace(live[EffectiveName(rs[i])], rs[i])
  }

  /** A resource depends, directly or not, on every resource its templates mention. */
  ghost predicate TemplatesDepend(rs: seq<Resource>) {
    forall i: nat, name :: i < |rs| && Mentions(rs[i].data, name) ==> IsDependencyName(rs, i, name)
  }

  ghost predicate IsDependencyName(rs: seq<Resource>, i: nat, name: string) {
    exists j: nat :: j < |rs| && EffectiveName(rs[j]) == name && DependsOn(ResourceGraph(rs), i, j)
  }

  ghost predicate WellDeclared(rs: seq<Resource>) {
    NamesAreUnique(rs) && DistinctPlaces(rs) && TemplatesDepend(rs)
  }

  lemma LastNamedIsOnlyOne(rs: seq<Resource>, i: nat)
    requires NamesAreUnique(rs) && i < |rs|
    ensures LastNamed(rs, EffectiveName(rs[i])) == Some(i)
  {
  }

  // ---------------------------------------------------------------- settled resources

  /** A visit would find the recorded digest equal to that of the data as it resolves now. */
  predicate Settled(x: Externals, r: Resource, live: Registry) {
    var data := Resolve(x, r.data, live);
    data.Some? && UpToDate(live, r, Digest(x, r, data.value))
  }

  ghost predicate AllSettled(x: Externals, rs: seq<Resource>, live: Registry, some: set<nat>) {
    forall i :: i in some ==> i < |rs| && Settled(x, rs[i], live)
  }

  /** A set of resources that contains the dependencies of its members. */
  ghost predicate DependencyClosed(rs: seq<Resource>, some: set<nat>) {
    forall i, j: nat :: i in some && DependsOn(ResourceGraph(rs), i, j) ==> j in some
  }

  predicate SameEntry(a: Registry, b: Registry, key: string) {
    (key in a <==> key in b) && (key in a ==> a[key] == b[key])
  }

  ghost predicate SameEntries(rs: seq<Resource>, a: Registry, b: Registry, some: set<nat>) {
    forall i :: i in some && i < |rs| ==> SameEntry(a, b, EffectiveName(rs[i]))
  }

  /** Only the resource's own entry and entries recorded at its place can change. */
  lemma VisitTouches(env: Env, r: Resource, c: Config, a: Answer, key: string)
    requires key != EffectiveName(r)
    requires key in c.live ==> !MatchesPlace(c.live[key], r)
    ensures SameEntry(c.live, Visit(env, r, c, a).c.live, key)
  {
    hide Resolve, RequestFor, EffectiveName, Place;
  }

  /** The resource's own entry, if it changed, records its place. */
  lemma VisitRecordsPlace(env: Env, r: Resource, c: Config, a: Answer)
    ensures var after := Visit(env, r, c, a).c.live;
      EffectiveName(r) in after ==>
        SameEntry(c.live, after, EffectiveName(r)) || MatchesPlace(after[EffectiveName(r)], r)
  {
    hide Resolve, RequestFor, EffectiveName, NormalizeNamespace, NormalizePath;
  }

  /** A visit touches no entry of another declared resource, however it ends. */
  lemma VisitFrame(env: Env, rs: seq<Resource>, i: nat, c: Config, a: Answer)
    requires NamesAreUnique(rs) && DistinctPlaces(rs) && Coherent(rs, c.live) && i < |rs|
    ensures Coherent(rs, Visit(env, rs[i], c, a).c.live)
    ensures forall j :: 0 <= j < |rs| && j != i ==>
      SameEntry(c.live, Visit(env, rs[i], c, a).c.live, EffectiveName(rs[j]))
  {
    var after := Visit(env, rs[i], c, a).c.live;
    forall j | 0 <= j < |rs| && j != i ensures SameEntry(c.live, after, EffectiveName(rs[j])) {
      assert EffectiveName(rs[j]) != EffectiveName(rs[i]) && PlaceOf(rs[j]) != PlaceOf(rs[i]);
      VisitTouches(env, rs[i], c, a, EffectiveName(rs[j]));
    }
    VisitRecordsPlace(env, rs[i], c, a);
  }

  /** After a visit without failure the resource is recorded with the digest of what it resolved to before. */
  lemma FineVisitRecords(env: Env, r: Resource, c: Config, a: Answer)
    requires Visit(env, r, c, a).verdict.Fine?
    ensures Resolve(env.x, r.data, c.live).Some?
    ensures UpToDate(Visit(env, r, c, a).c.live, r, Digest(env.x, r, Resolve(env.x, r.data, c.live).value))
  {
    hide Resolve, RequestFor, EffectiveName, Place;
  }

  lemma ResolvesTheSame(x: Externals, rs: seq<Resource>, i: nat, a: Registry, b: Registry, others: set<nat>)
    requires TemplatesDepend(rs) && i < |rs|
    requires forall j: nat :: DependsOn(ResourceGraph(rs), i, j) ==> j in others
    requires SameEntries(rs, a, b, others)
    ensures Resolve(x, rs[i].data, a) == Resolve(x, rs[i].data, b)
  {
    forall name | Mentions(rs[i].data, name) ensures SameResponse(a, b, name) {
      assert IsDependencyName(rs, i, name);
      var j: nat :| j < |rs| && EffectiveName(rs[j]) == name && DependsOn(ResourceGraph(rs), i, j);
    }
    ResolutionIsLocal(x, rs[i].data, a, b);
  }

  /** Being settled depends on the entries of the closed set alone. */
  lemma SettledTogether(x: Externals, rs: seq<Resource>, a: Registry, b: Registry, some: set<nat>)
    requires TemplatesDepend(rs) && DependencyClosed(rs, some)
    requires AllSettled(x, rs, a, some) && SameEntries(rs, a, b, some)
    ensures AllSettled(x, rs, b, some)
  {
    forall i | i in some ensures i < |rs| && Settled(x, rs[i], b) {
      ResolvesTheSame(x, rs, i, a, b, some);
    }
  }

  /**
   * Settled resources stay settled, whichever resource is visited next and however the visit ends;
   * if it is one of them, the visit does nothing at all.
   */
  lemma VisitKeepsSettled(env: Env, rs: seq<Resource>, i: nat, c: Config, a: Answer, some: set<nat>)
    requires WellDeclared(rs) && Coherent(rs, c.live) && i < |rs|
    requires DependencyClosed(rs, some) && AllSettled(env.x, rs, c.live, some)
    ensures Coherent(rs, Visit(env, rs[i], c, a).c.live)
    ensures AllSettled(env.x, rs, Visit(env, rs[i], c, a).c.live, some)
    ensures i in some ==> Visit(env, rs[i], c, a) == Step(c, Fine)
  {
    VisitFrame(env, rs, i, c, a);
    if i !in some {
      SettledTogether(env.x, rs, c.live, Visit(env, rs[i], c, a).c.live, some);
    }
  }

  /** A visit without failure settles its resource once the dependencies are settled. */
  lemma VisitSettles(env: Env, rs: seq<Resource>, i: nat, c: Config, a: Answer, some: set<nat>)
    requires WellDeclared(rs) && Coherent(rs, c.live) && i < |rs| && i !in some
    requires DependencyClosed(rs, some) && AllSettled(env.x, rs, c.live, some)
    requires forall j: nat :: DependsOn(ResourceGraph(rs), i, j) ==> j in some
    requires Visit(env, rs[i], c, a).verdict.Fine?
    ensures AllSettled(env.x, rs, Visit(env, rs[i], c, a).c.live, some + {i})
  {
    var after := Visit(env, rs[i], c, a).c.live;
    VisitFrame(env, rs, i, c, a);
    VisitKeepsSettled(env, rs, i, c, a, some);
    ResolvesTheSame(env.x, rs, i, c.live, after, some);
    FineVisitRecords(env, rs[i], c, a);
  }

  ghost function Visited(order: seq<nat>, n: nat): set<nat>
    requires n <= |order|
  {
    First(order, n)
  }

  lemma VisitedIsClosed(rs: seq<Resource>, order: seq<nat>, n: nat)
    requires Topological(ResourceGraph(rs), order) && n <= |order|
    ensures DependencyClosed(rs, Visited(order, n))
    ensures n < |order| ==> order[n] !in Visited(order, n)
    ensures n < |order| ==> forall j: nat :: DependsOn(ResourceGraph(rs), order[n], j) ==> j in Visited(order, n)
  {
    forall k: nat, j: nat | k < |order| && DependsOn(ResourceGraph(rs), order[k], j)
      ensures exists e :: 0 <= e < k && order[e] == j
    {
      var e := DependenciesComeEarlier(ResourceGraph(rs), order, k, j);
    }
  }

  lemma {:induction false} UpdatesStayStored(env: Env, rs: seq<Resource>, order: seq<nat>, c: Config,
                                             answers: seq<Answer>)
    requires InRange(order, |rs|) && |answers| <= |order| && env.writing && c.stored == c.live
    requires Updates(env, rs, order, c, answers).verdict.Fine?
    ensures Updates(env, rs, order, c, answers).c.stored == Updates(env, rs, order, c, answers).c.live
  {
    if answers != [] {
      UpdatesStayStored(env, rs, order, c, answers[..|answers| - 1]);
    }
  }

  /** The create-or-update loop settles what it visits without failure. */
  lemma {:induction false} UpdatesSettle(env: Env, rs: seq<Resource>, order: seq<nat>, c: Config, answers: seq<Answer>)
    requires WellDeclared(rs) && Coherent(rs, c.live)
    requires Topological(ResourceGraph(rs), order) && InRange(order, |rs|) && |answers| <= |order|
    requires Updates(env, rs, order, c, answers).verdict.Fine?
    ensures var after := Updates(env, rs, order, c, answers).c;
      && Coherent(rs, after.live)
      && AllSettled(env.x, rs, after.live, Visited(order, |answers|))
  {
    if answers != [] {
      var n := |answers| - 1;
      var before := Updates(env, rs, order, c, answers[..n]);
      UpdatesSettle(env, rs, order, c, answers[..n]);
      VisitedIsClosed(rs, order, n);
      VisitKeepsSettled(env, rs, order[n], before.c, answers[n], Visited(order, n));
      VisitSettles(env, rs, order[n], before.c, answers[n], Visited(order, n));
      FirstStep(order, n);
    }
  }

  /** The other way round: settled resources are passed over, in any order and among any other visits. */
  lemma {:induction false} UpdatesPassOver(env: Env, rs: seq<Resource>, order: seq<nat>, c: Config,
                                           answers: seq<Answer>, some: set<nat>)
    requires WellDeclared(rs) && Coherent(rs, c.live)
    requires DependencyClosed(rs, some) && AllSettled(env.x, rs, c.live, some)
    requires InRange(order, |rs|) && |answers| <= |order|
    ensures var after := Updates(env, rs, order, c, answers).c;
      Coherent(rs, after.live) && AllSettled(env.x, rs, after.live, some)
    ensures (forall k :: 0 <= k < |answers| ==> order[k] in some) ==>
      Updates(env, rs, order, c, answers) == Step(c, Fine)
  {
    if answers != [] {
      var n := |answers| - 1;
      var before := Updates(env, rs, order, c, answers[..n]);
      UpdatesPassOver(env, rs, order, c, answers[..n], some);
      VisitKeepsSettled(env, rs, order[n], before.c, answers[n], some);
    }
  }

  // ---------------------------------------------------------------- the delete phase

  /** Deleting stale keys leaves every other entry alone. */
  lemma {:induction false} RemovalsFrame(env: Env, keys: seq<string>, c: Config, answers: seq<Answer>, key: string)
    requires |answers| <= |keys| && forall k :: 0 <= k < |answers| ==> keys[k] != key
    ensures SameEntry(c.live, Removals(env, keys, c, answers).c.live, key)
  {
    if answers != [] {
      RemovalsFrame(env, keys, c, answers[..|answers| - 1], key);
    }
  }

  lemma {:induction false} RemovalsOnlyRemove(env: Env, keys: seq<string>, c: Config, answers: seq<Answer>)
    requires |answers| <= |keys|
    ensures var after := Removals(env, keys, c, answers).c.live;
      after.Keys <= c.live.Keys && forall key :: key in after ==> after[key] == c.live[key]
  {
    if answers != [] {
      RemovalsOnlyRemove(env, keys, c, answers[..|answers| - 1]);
    }
  }

  lemma {:induction false} FineRemovalsRemove(env: Env, keys: seq<string>, c: Config, answers: seq<Answer>)
    requires |answers| <= |keys| && Removals(env, keys, c, answers).verdict.Fine?
    ensures var after := Removals(env, keys, c, answers).c;
      && after.live == c.live - First(keys, |answers|)
      && (env.writing && c.stored == c.live ==> after.stored == after.live)
  {
    if answers != [] {
      var n := |answers| - 1;
      FineRemovalsRemove(env, keys, c, answers[..n]);
      assert First(keys, n + 1) == First(keys, n) + {keys[n]};
    } else {
      assert First(keys, 0) == {};
    }
  }

  lemma NothingToDelete(live: Registry, rs: seq<Resource>)
    requires live.Keys <= CurrentKeys(rs)
    ensures IsDeleteOrder(live, StaleKeys(live, rs), [])
  {
    assert StaleKeys(live, rs) == {};
  }

  lemma DeletionsAreStale(rs: seq<Resource>, live: Registry, deletions: seq<string>, i: nat)
    requires IsDeleteOrder(live, StaleKeys(live, rs), deletions) && i < |rs|
    ensures EffectiveName(rs[i]) !in deletions
  {
    assert EffectiveName(rs[i]) in CurrentKeys(rs);
    assert forall k :: k in deletions ==> k in StaleGraph(live, StaleKeys(live, rs));
  }

  /** What reaches a cycle depends on something that does. */
  lemma CycleIsPassedOn<T(!new)>(g: map<T, seq<T>>, v: T)
    requires ReachesCycle(g, v)
    ensures v in g && exists u :: u in g[v] && ReachesCycle(g, u)
  {
    var p: seq<T>, i: nat, j: nat :| IsWalk(g, p) && p[0] == v && i < j < |p| && p[i] == p[j];
    var u := p[1];
    assert u in g[p[0]];
    DropWalk(g, p, 1);
    var rest := p[1..];
    if i > 0 {
      assert rest[0] == u && rest[i - 1] == rest[j - 1];
      assert ReachesCycle(g, u);
    } else {
      var round := p[1..j + 1] + [u];
      forall k | 0 < k < |round| ensures round[k] in g[round[k - 1]] {
        if k < j {
          assert round[k] == rest[k] && round[k - 1] == rest[k - 1];
        } else {
          assert round[k] == u && round[k - 1] == p[j] == p[0];
        }
      }
      assert forall k :: 0 <= k < |round| ==> round[k] in g;
      assert IsWalk(g, round) && round[0] == u && round[j] == u;
      assert ReachesCycle(g, u);
    }
  }

  /** The keys a delete order leaves out reach cycles among themselves, also once the others are gone. */
  lemma LeftOversReachCycles(before: Registry, stale: set<string>, deletions: seq<string>, after: Registry)
    requires IsDeleteOrder(before, stale, deletions)
    requires after == before - (set k | k in deletions)
    ensures var left := stale - (set k | k in deletions);
      left <= after.Keys && forall k :: k in left ==> ReachesCycle(StaleGraph(after, left), k)
  {
    hide IsWalk;
    var left := stale - set k | k in deletions;
    var g, g' := StaleGraph(before, stale), StaleGraph(after, left);
    forall k | k in left ensures WaitsFor(g', k, left) {
      assert ReachesCycle(g, k);
      CycleIsPassedOn(g, k);
      var u :| u in g[k] && ReachesCycle(g, u);
      assert u in left && u in g'[k];
    }
    forall k | k in left ensures ReachesCycle(g', k) {
      StuckNodesReachACycle(g', left, k);
    }
  }

  /** So they stay left out. */
  lemma LeftOversStayLeftOver(before: Registry, stale: set<string>, deletions: seq<string>, after: Registry,
                              again: seq<string>)
    requires IsDeleteOrder(before, stale, deletions)
    requires after == before - (set k | k in deletions)
    requires IsDeleteOrder(after, stale - (set k | k in deletions), again)
    ensures again == []
  {
    hide ReachesCycle;
    var left := stale - set k | k in deletions;
    LeftOversReachCycles(before, stale, deletions, after);
    if again != [] {
      HasMember(again);
    }
  }
}
