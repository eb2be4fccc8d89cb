/**
 * When everything that is no longer declared is deleted: recorded dependencies without a cycle, and where they come
 * from.
 */
module Teardown {
  import opened Types
  import opened Templates
  import opened Graph
  import opened Ordering
  import opened DeleteOrder
  import opened Lint
  import opened Reconciler
  import opened Settling
  import opened Rerun
  import opened Deletions

  // ---------------------------------------------------------------- recorded cycles

  /** No key reaches a cycle of recorded dependencies. */
  ghost predicate RecordsNoCycle(live: Registry) {
    forall key :: key in live ==> !ReachesCycle(StaleGraph(live, live.Keys), key)
  }

  /** This is exactly when no list of resources, declared next, leaves a cycle among the stale keys. */
  lemma NoStaleCycleIff(live: Registry)
    ensures RecordsNoCycle(live) <==> forall rs: seq<Resource> :: NoStaleCycle(rs, live)
  {
    hide ReachesCycle;
    if RecordsNoCycle(live) {
      forall rs: seq<Resource>, key | key in StaleKeys(live, rs)
        ensures !ReachesCycle(StaleGraph(live, StaleKeys(live, rs)), key)
      {
        if ReachesCycle(StaleGraph(live, StaleKeys(live, rs)), key) {
          SubgraphReachesLess(live, StaleKeys(live, rs), live.Keys, key);
        }
      }
    }
    if forall rs: seq<Resource> :: NoStaleCycle(rs, live) {
      assert NoStaleCycle([], live) && StaleKeys(live, []) == live.Keys;
    }
  }

  // ---------------------------------------------------------------- one list

  /** The entry is that of a resource in the list: its name, place and dependencies. */
  ghost predicate IsDeclaredBy(rs: seq<Resource>, key: string, e: StateResource) {
    exists i: nat :: i < |rs| && IsDeclaredAt(rs[i], key, e)
  }

  predicate IsDeclaredAt(r: Resource, key: string, e: StateResource) {
    EffectiveName(r) == key && MatchesPlace(e, r) && e.dependencies == r.dependencies
  }

  /** Every entry is that of a resource in the list. */
  ghost predicate RecordsOnly(rs: seq<Resource>, live: Registry) {
    forall key :: key in live ==> IsDeclaredBy(rs, key, live[key])
  }

  lemma NameIsResolved(rs: seq<Resource>, names: seq<string>, i: nat)
    requires NamesAreUnique(rs) && i < |rs| && EffectiveName(rs[i]) in names
    ensures i in Resolved(rs, names)
  {
    var k :| 0 <= k < |names| && names[k] == EffectiveName(rs[i]);
    LastNamedIsOnlyOne(rs, i);
    ResolvedIff(rs, names, i);
  }

  /** A recorded dependency is a declared one. */
  lemma EdgeIsDeclared(rs: seq<Resource>, live: Registry, key: string, dependency: string, j: nat, i: nat)
    requires NamesAreUnique(rs) && RecordsOnly(rs, live) && key in live && dependency in live[key].dependencies
    requires j < |rs| && EffectiveName(rs[j]) == key && i < |rs| && EffectiveName(rs[i]) == dependency
    ensures i in ResourceGraph(rs)[j]
  {
    hide Resolved, EffectiveName, NamesAreUnique;
    assert IsDeclaredBy(rs, key, live[key]);
    var k: nat :| k < |rs| && IsDeclaredAt(rs[k], key, live[key]);
    OnlyOneNamed(rs, j, k);
    NameIsResolved(rs, rs[j].dependencies, i);
  }

  lemma KeyIsDeclared(rs: seq<Resource>, live: Registry, key: string) returns (i: nat)
    requires RecordsOnly(rs, live) && key in live
    ensures i < |rs| && EffectiveName(rs[i]) == key
  {
    hide EffectiveName;
    assert IsDeclaredBy(rs, key, live[key]);
    i :| i < |rs| && IsDeclaredAt(rs[i], key, live[key]);
  }

  /** A walk along recorded dependencies is one along declared dependencies. */
  lemma {:induction false} WalkIsDeclared(rs: seq<Resource>, live: Registry, p: seq<string>) returns (q: seq<nat>)
    requires NamesAreUnique(rs) && RecordsOnly(rs, live) && IsWalk(StaleGraph(live, live.Keys), p)
    ensures |q| == |p| && IsWalk(ResourceGraph(rs), q)
    ensures forall k :: 0 <= k < |p| ==> q[k] < |rs| && EffectiveName(rs[q[k]]) == p[k]
  {
    hide Resolved, EffectiveName, NamesAreUnique, RecordsOnly;
    var n := |p| - 1;
    var i := KeyIsDeclared(rs, live, p[n]);
    if n == 0 {
      q := [i];
    } else {
      ShorterWalk(StaleGraph(live, live.Keys), p);
      var before := WalkIsDeclared(rs, live, p[..n]);
      q := before + [i];
      assert p[n] in StaleGraph(live, live.Keys)[p[n - 1]];
      EdgeIsDeclared(rs, live, p[n - 1], p[n], before[n - 1], i);
      LongerWalk(ResourceGraph(rs), before, i);
    }
  }

  lemma LongerWalk<T>(g: map<T, seq<T>>, p: seq<T>, v: T)
    requires IsWalk(g, p) && v in g && v in g[p[|p| - 1]]
    ensures IsWalk(g, p + [v])
  {
  }

  lemma ShorterWalk<T>(g: map<T, seq<T>>, p: seq<T>)
    requires IsWalk(g, p) && |p| > 1
    ensures IsWalk(g, p[..|p| - 1])
  {
  }

  lemma OnlyOneNamed(rs: seq<Resource>, i: nat, j: nat)
    requires NamesAreUnique(rs) && i < |rs| && j < |rs| && EffectiveName(rs[i]) == EffectiveName(rs[j])
    ensures i == j
  {
  }

  lemma RepetitionIsCycle(rs: seq<Resource>, q: seq<nat>, i: nat, j: nat)
    requires IsWalk(ResourceGraph(rs), q) && i < j < |q| && q[i] == q[j]
    ensures IsCyclic(rs)
  {
    hide Resolved;
    assert ReachesCycle(ResourceGraph(rs), q[0]);
  }

  /** What one list without cycles declares is recorded without cycles. */
  lemma OneListRecordsNoCycle(rs: seq<Resource>, live: Registry)
    requires NamesAreUnique(rs) && !IsCyclic(rs) && RecordsOnly(rs, live)
    ensures RecordsNoCycle(live)
  {
    hide RecordsOnly, NamesAreUnique, EffectiveName;
    var g := StaleGraph(live, live.Keys);
    forall key | key in live ensures !ReachesCycle(g, key) {
      if ReachesCycle(g, key) {
        var p: seq<string>, i: nat, j: nat :| IsWalk(g, p) && p[0] == key && i < j < |p| && p[i] == p[j];
        var q := WalkIsDeclared(rs, live, p);
        OnlyOneNamed(rs, q[i], q[j]);
        RepetitionIsCycle(rs, q, i, j);
      }
    }
  }

  // ---------------------------------------------------------------- runs of one list

  /** A visit of a resource of the list records nothing else. */
  lemma VisitRecordsOnly(env: Env, rs: seq<Resource>, i: nat, c: Config, a: Answer)
    requires DistinctPlaces(rs) && i < |rs| && RecordsOnly(rs, c.live)
    ensures RecordsOnly(rs, Visit(env, rs[i], c, a).c.live)
  {
    hide Visit, EffectiveName, Place, DistinctPlaces, IsDeclaredBy;
    var after := Visit(env, rs[i], c, a).c.live;
    forall key | key in after ensures IsDeclaredBy(rs, key, after[key]) {
      if key == EffectiveName(rs[i]) {
        NoForeignEntry(rs, i, c.live);
        OwnEntryIsDeclared(env, rs[i], c, a);
        if !SameEntry(c.live, after, key) {
          DeclaredAt(rs, i, key, after[key]);
        }
      } else {
        VisitAddsNoOther(env, rs[i], c, a, key);
      }
    }
  }

  lemma DeclaredAt(rs: seq<Resource>, i: nat, key: string, e: StateResource)
    requires i < |rs| && IsDeclaredAt(rs[i], key, e)
    ensures IsDeclaredBy(rs, key, e)
  {
  }

  /** What is recorded at the place of a resource is its own entry. */
  lemma NoForeignEntry(rs: seq<Resource>, i: nat, live: Registry)
    requires DistinctPlaces(rs) && i < |rs| && RecordsOnly(rs, live)
    ensures forall key :: key in live && MatchesPlace(live[key], rs[i]) ==> key == EffectiveName(rs[i])
  {
    hide EffectiveName, Place;
    forall key | key in live && MatchesPlace(live[key], rs[i]) ensures key == EffectiveName(rs[i]) {
      assert IsDeclaredBy(rs, key, live[key]);
      var j: nat :| j < |rs| && IsDeclaredAt(rs[j], key, live[key]);
      assert PlaceOf(rs[i]) == PlaceOf(rs[j]);
      assert i < j || j < i || i == j;
    }
  }

  lemma OwnEntryIsDeclared(env: Env, r: Resource, c: Config, a: Answer)
    requires forall key :: key in c.live && MatchesPlace(c.live[key], r) ==> key == EffectiveName(r)
    ensures var after, name := Visit(env, r, c, a).c.live, EffectiveName(r);
      name in after && !SameEntry(c.live, after, name) ==> IsDeclaredAt(r, name, after[name])
  {
    hide Resolve, RequestFor, EffectiveName, NormalizeNamespace, NormalizePath;
  }

  lemma {:induction false} UpdatesRecordOnly(env: Env, rs: seq<Resource>, order: seq<nat>, c: Config,
                                             answers: seq<Answer>)
    requires DistinctPlaces(rs) && RecordsOnly(rs, c.live) && InRange(order, |rs|) && |answers| <= |order|
    ensures RecordsOnly(rs, Updates(env, rs, order, c, answers).c.live)
  {
    hide Visit, RecordsOnly, DistinctPlaces;
    if answers != [] {
      var n := |answers| - 1;
      UpdatesRecordOnly(env, rs, order, c, answers[..n]);
      VisitRecordsOnly(env, rs, order[n], Updates(env, rs, order, c, answers[..n]).c, answers[n]);
    }
  }

  /**
   * As long as one and the same list with distinct places is applied, all that is recorded is its resources with its
   * dependencies, however the runs end.
   */
  lemma RunRecordsOnly(env: Env, rs: seq<Resource>, c: Config, run: Run)
    requires DistinctPlaces(rs) && RecordsOnly(rs, c.live) && Indexes(rs, run)
    ensures RecordsOnly(rs, Outcome(env, rs, c, run).c.live)
  {
    hide DistinctPlaces, IsDeclaredBy, Removals, Updates;
    UpdatesRecordOnly(env, rs, run.order, c, run.visits);
    RemovalsOnlyRemove(env, run.deletions, Visits(env, rs, c, run).c, run.removals);
  }

  lemma RunIsAcyclic(env: Env, rs: seq<Resource>, c: Config, run: Run)
    requires IsRun(env, rs, c, run)
    ensures !IsCyclic(rs)
  {
    forall i: nat | i < |rs| ensures !ReachesCycle(ResourceGraph(rs), i) {
      assert i in run.order;
    }
  }

  /** The hypothesis on stale cycles holds after any run on a state of one list, an empty one for instance. */
  lemma NoStaleCycleAfter(env: Env, rs: seq<Resource>, c: Config, run: Run, rs': seq<Resource>)
    requires NamesAreUnique(rs) && DistinctPlaces(rs) && RecordsOnly(rs, c.live) && IsRun(env, rs, c, run)
    ensures RecordsNoCycle(Outcome(env, rs, c, run).c.live) && NoStaleCycle(rs', Outcome(env, rs, c, run).c.live)
  {
    hide RecordsOnly, NamesAreUnique, DistinctPlaces, IsRun, IsCyclic, RecordsNoCycle, NoStaleCycle, Updates, Removals;
    RunHasIndexes(env, rs, c, run);
    RunRecordsOnly(env, rs, c, run);
    RunIsAcyclic(env, rs, c, run);
    OneListRecordsNoCycle(rs, Outcome(env, rs, c, run).c.live);
    NoStaleCycleIff(Outcome(env, rs, c, run).c.live);
  }

  lemma RunHasIndexes(env: Env, rs: seq<Resource>, c: Config, run: Run)
    requires IsRun(env, rs, c, run)
    ensures Indexes(rs, run)
  {
  }

  // ---------------------------------------------------------------- the next list

  /** The run requests the deletion of the entry. */
  ghost predicate IsDeletedIn(env: Env, rs: seq<Resource>, c: Config, run: Run, e: StateResource)
    requires Indexes(rs, run)
  {
    var requests := Outcome(env, rs, c, run).c.requests;
    exists k: nat :: |c.requests| <= k < |requests| && requests[k] == DeleteRequest(e)
  }

  /** Without recorded cycles a clean run deletes all that it does not declare and does not take over. */
  lemma CleanRunDeletesAll(env: Env, rs: seq<Resource>, c: Config, run: Run)
    requires NoStaleCycle(rs, c.live) && IsCleanRun(env, rs, c, run)
    ensures Outcome(env, rs, c, run).c.live.Keys <= CurrentKeys(rs)
    ensures forall key :: key in run.deletions <==>
      key in c.live && key !in CurrentKeys(rs) && !IsTaken(env, rs, run.order, c, run.visits, key)
    ensures forall key :: key in run.deletions ==> key in c.live && IsDeletedIn(env, rs, c, run, c.live[key])
  {
    hide Updates, Removals, IsTaken, IsKahnOrder, IsApplyOrder, ReachesCycle, DeleteRequest, NoStaleCycle;
    var visited, end := Visits(env, rs, c, run).c, Outcome(env, rs, c, run).c;
    StaleIsRemaining(env, rs, c, run);
    forall key ensures key in run.deletions <==>
      key in c.live && key !in CurrentKeys(rs) && !IsTaken(env, rs, run.order, c, run.visits, key)
    {
      DeletedIff(env, rs, c, run, key);
      if key in c.live && key !in CurrentKeys(rs) {
        RemainingIff(env, rs, c, run, key);
      }
    }
    forall key | key in run.deletions
      ensures key in c.live && IsDeletedIn(env, rs, c, run, c.live[key])
    {
      var k := DeletesAll(env, rs, c, run, key);
    }
    FineRemovalsRemove(env, run.deletions, visited, run.removals);
    FirstAll(run.deletions);
    forall key | key in visited.live && key !in CurrentKeys(rs) ensures key in run.deletions {
      assert key in StaleKeys(visited.live, rs);
    }
  }

  /**
   * Teardown. After any run of one list on an empty state, a clean run of any later list deletes everything that it no
   * longer declares and does not take over; nothing else stays recorded.
   */
  lemma LaterListDeletesTheRest(env: Env, rs: seq<Resource>, c: Config, first: Run, rs': seq<Resource>, again: Config,
                                second: Run)
    requires NamesAreUnique(rs) && DistinctPlaces(rs) && c.live == map[] && IsRun(env, rs, c, first)
    requires again.live == Outcome(env, rs, c, first).c.live && IsCleanRun(env, rs', again, second)
    ensures Outcome(env, rs', again, second).c.live.Keys <= CurrentKeys(rs')
    ensures forall key :: key in second.deletions <==>
      key in again.live && key !in CurrentKeys(rs') && !IsTaken(env, rs', second.order, again, second.visits, key)
    ensures forall key :: key in second.deletions ==>
      key in again.live && IsDeletedIn(env, rs', again, second, again.live[key])
  {
    hide NamesAreUnique, DistinctPlaces, Outcome, IsTaken, NoStaleCycle, RecordsNoCycle, DeleteRequest;
    NoStaleCycleAfter(env, rs, c, first, rs');
    CleanRunDeletesAll(env, rs', again, second);
  }

  /** In particular, applying an empty list after it leaves nothing recorded. */
  lemma EmptyListDeletesAll(env: Env, rs: seq<Resource>, c: Config, first: Run, again: Config, second: Run)
    requires NamesAreUnique(rs) && DistinctPlaces(rs) && c.live == map[] && IsRun(env, rs, c, first)
    requires again.live == Outcome(env, rs, c, first).c.live && IsCleanRun(env, [], again, second)
    ensures Outcome(env, [], again, second).c.live == map[]
  {
    LaterListDeletesTheRest(env, rs, c, first, [], again, second);
  }
}
