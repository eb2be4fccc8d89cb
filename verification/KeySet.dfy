/** Which keys a run leaves in the state, and the discipline of its requests. */
module KeySet {
  import opened Types
  import opened Templates
  import opened Graph
  import opened Ordering
  import opened DeleteOrder
  import opened Lint
  import opened Reconciler
  import opened Settling

  // ---------------------------------------------------------------- final keys

  /** The server refused to delete this key, and the failure did not abort the run. */
  ghost predicate WasRefused(run: Run, key: string) {
    exists k :: 0 <= k < |run.removals| && k < |run.deletions| && run.deletions[k] == key &&
      !IsGone(run.removals[k].reply)
  }

  lemma {:induction false} RemovalsKeep(env: Env, keys: seq<string>, c: Config, answers: seq<Answer>, key: string)
    requires |answers| <= |keys| && Distinct(keys) && !Removals(env, keys, c, answers).verdict.Aborted?
    ensures key in Removals(env, keys, c, answers).c.live <==>
            key in c.live && forall k :: 0 <= k < |answers| && keys[k] == key ==> !IsGone(answers[k].reply)
  {
    if answers != [] {
      RemovalsKeep(env, keys, c, answers[..|answers| - 1], key);
    }
  }

  lemma VisitAddsOwnName(env: Env, r: Resource, c: Config, a: Answer)
    ensures Visit(env, r, c, a).c.live.Keys <= c.live.Keys + {EffectiveName(r)}
  {
    hide Resolve, RequestFor, EffectiveName, Place;
  }

  /** Only current names are ever added. */
  lemma {:induction false} UpdatesAddCurrent(env: Env, rs: seq<Resource>, order: seq<nat>, c: Config,
                                             answers: seq<Answer>)
    requires |answers| <= |order| && InRange(order, |rs|)
    ensures Updates(env, rs, order, c, answers).c.live.Keys <= c.live.Keys + CurrentKeys(rs)
  {
    hide Visit, EffectiveName;
    if answers != [] {
      var n := |answers| - 1;
      UpdatesAddCurrent(env, rs, order, c, answers[..n]);
      VisitAddsOwnName(env, rs[order[n]], Updates(env, rs, order, c, answers[..n]).c, answers[n]);
      assert EffectiveName(rs[order[n]]) in CurrentKeys(rs);
    }
  }

  /**
   * When `Apply` succeeds, the keys without a resource that remain are exactly those the delete order left out,
   * because they reach a cycle of recorded dependencies, and those whose deletion was refused and the refusal ignored.
   */
  lemma RemainingStaleKeys(env: Env, rs: seq<Resource>, c: Config, run: Run, key: string)
    requires IsRun(env, rs, c, run) && !Outcome(env, rs, c, run).verdict.Aborted?
    requires key !in CurrentKeys(rs)
    ensures var visited, end := Visits(env, rs, c, run).c.live, Outcome(env, rs, c, run).c.live;
      && (key in end ==> key in visited && key in c.live)
      && (key in visited ==>
        (key in end <==> ReachesCycle(StaleGraph(visited, StaleKeys(visited, rs)), key) || WasRefused(run, key)))
  {
    var visited := Visits(env, rs, c, run).c;
    UpdatesAddCurrent(env, rs, run.order, c, run.visits);
    RemovalsKeep(env, run.deletions, visited, run.removals, key);
    if key in visited.live {
      DeletedUnlessCyclic(visited.live, StaleKeys(visited.live, rs), run.deletions, key);
      RefusedIffKept(run, key);
    }
  }

  lemma DeletedUnlessCyclic(live: Registry, stale: set<string>, deletions: seq<string>, key: string)
    requires IsDeleteOrder(live, stale, deletions) && key in stale
    ensures key in deletions <==> !ReachesCycle(StaleGraph(live, stale), key)
    ensures Distinct(deletions)
  {
  }

  lemma RefusedIffKept(run: Run, key: string)
    requires |run.removals| == |run.deletions| && Distinct(run.deletions)
    ensures key in run.deletions ==>
      (WasRefused(run, key) <==> forall k :: 0 <= k < |run.removals| && run.deletions[k] == key ==>
        !IsGone(run.removals[k].reply))
    ensures WasRefused(run, key) ==> key in run.deletions
  {
    if key in run.deletions {
      var k :| 0 <= k < |run.deletions| && run.deletions[k] == key;
      assert forall j :: 0 <= j < |run.deletions| && run.deletions[j] == key ==> j == k;
    }
  }

  /** The visit of the resource with this index ended without a failure. */
  ghost predicate SucceededAt(env: Env, rs: seq<Resource>, c: Config, run: Run, k: nat)
    requires Indexes(rs, run) && k < |run.visits|
  {
    Visit(env, rs[run.order[k]], Updates(env, rs, run.order, c, run.visits[..k]).c, run.visits[k]).verdict.Fine?
  }

  lemma VisitKeepsOther(env: Env, rs: seq<Resource>, i: nat, j: nat, c: Config, a: Answer)
    requires NamesAreUnique(rs) && DistinctPlaces(rs) && Coherent(rs, c.live) && i < |rs| && j < |rs| && i != j
    requires EffectiveName(rs[j]) in c.live
    ensures EffectiveName(rs[j]) in Visit(env, rs[i], c, a).c.live
  {
    VisitFrame(env, rs, i, c, a);
  }

  lemma StillRecorded(env: Env, rs: seq<Resource>, order: seq<nat>, c: Config, answers: seq<Answer>, i: nat)
    requires NamesAreUnique(rs) && DistinctPlaces(rs) && Coherent(rs, c.live)
    requires InRange(order, |rs|) && 0 < |answers| <= |order| && i < |rs| && i != order[|answers| - 1]
    requires EffectiveName(rs[i]) in Updates(env, rs, order, c, answers[..|answers| - 1]).c.live
    ensures EffectiveName(rs[i]) in Updates(env, rs, order, c, answers).c.live
  {
    var n := |answers| - 1;
    StaysCoherent(env, rs, order, c, answers[..n]);
    VisitKeepsOther(env, rs, order[n], i, Updates(env, rs, order, c, answers[..n]).c, answers[n]);
  }

  /** An entry recorded by the first `m` visits is not lost to later visits of other resources. */
  lemma {:induction false} RecordedSince(env: Env, rs: seq<Resource>, order: seq<nat>, c: Config, answers: seq<Answer>,
                                         m: nat, i: nat)
    requires NamesAreUnique(rs) && DistinctPlaces(rs) && Coherent(rs, c.live)
    requires InRange(order, |rs|) && m <= |answers| <= |order| && i < |rs|
    requires forall k :: m <= k < |answers| ==> order[k] != i
    requires EffectiveName(rs[i]) in Updates(env, rs, order, c, answers[..m]).c.live
    ensures EffectiveName(rs[i]) in Updates(env, rs, order, c, answers).c.live
  {
    hide *;
    assert answers[..|answers|] == answers;
    if m < |answers| {
      var n := |answers| - 1;
      assert answers[..n][..m] == answers[..m];
      RecordedSince(env, rs, order, c, answers[..n], m, i);
      StillRecorded(env, rs, order, c, answers, i);
    }
  }

  lemma {:induction false} StaysCoherent(env: Env, rs: seq<Resource>, order: seq<nat>, c: Config, answers: seq<Answer>)
    requires NamesAreUnique(rs) && DistinctPlaces(rs) && Coherent(rs, c.live)
    requires InRange(order, |rs|) && |answers| <= |order|
    ensures Coherent(rs, Updates(env, rs, order, c, answers).c.live)
  {
    if answers != [] {
      var n := |answers| - 1;
      StaysCoherent(env, rs, order, c, answers[..n]);
      VisitFrame(env, rs, order[n], Updates(env, rs, order, c, answers[..n]).c, answers[n]);
    }
  }

  lemma RecordedBySuccess(env: Env, rs: seq<Resource>, c: Config, run: Run, k: nat)
    requires Indexes(rs, run) && k < |run.visits| && SucceededAt(env, rs, c, run, k)
    requires !Updates(env, rs, run.order, c, run.visits[..k]).verdict.Aborted?
    ensures EffectiveName(rs[run.order[k]]) in Updates(env, rs, run.order, c, run.visits[..k + 1]).c.live
  {
    assert run.visits[..k + 1][..k] == run.visits[..k];
    FineVisitRecords(env, rs[run.order[k]], Updates(env, rs, run.order, c, run.visits[..k]).c, run.visits[k]);
  }

  /** Every resource not hit by an ignored failure is recorded when `Apply` succeeds. */
  lemma SucceededIsRecorded(env: Env, rs: seq<Resource>, c: Config, run: Run, k: nat)
    requires NamesAreUnique(rs) && DistinctPlaces(rs) && Coherent(rs, c.live)
    requires IsRun(env, rs, c, run) && !Outcome(env, rs, c, run).verdict.Aborted?
    requires k < |run.visits| && SucceededAt(env, rs, c, run, k)
    ensures EffectiveName(rs[run.order[k]]) in Outcome(env, rs, c, run).c.live
  {
    var visited := Visits(env, rs, c, run).c;
    NotAbortedBefore(env, rs, run.order, c, run.visits, k);
    RecordedBySuccess(env, rs, c, run, k);
    RecordedSince(env, rs, run.order, c, run.visits, k + 1, run.order[k]);
    DeletionsAreStale(rs, visited.live, run.deletions, run.order[k]);
    RemovalsFrame(env, run.deletions, visited, run.removals, EffectiveName(rs[run.order[k]]));
  }

  // ---------------------------------------------------------------- requests

  /** The request carries the resource's own namespace and path. */
  predicate IsFor(request: Request, r: Resource) {
    !request.Delete? && request.namespace == ClientNamespace(r.namespace) &&
    request.path == Strings.TrimPrefix(r.path, SLASH)
  }

  /** The requests of the visits belong to visited resources, one each at most, in visiting order. */
  ghost predicate AreVisitRequests(rs: seq<Resource>, order: seq<nat>, requests: seq<Request>)
    requires InRange(order, |rs|)
    decreases |order|
  {
    if order == [] then requests == []
    else
      var n := |order| - 1;
      || AreVisitRequests(rs, order[..n], requests)
      || (requests != [] && IsFor(requests[|requests| - 1], rs[order[n]]) &&
          AreVisitRequests(rs, order[..n], requests[..|requests| - 1]))
  }

  lemma VisitRequest(env: Env, r: Resource, c: Config, a: Answer) returns (asked: seq<Request>)
    ensures Visit(env, r, c, a).c.requests == c.requests + asked
    ensures asked == [] || (|asked| == 1 && IsFor(asked[0], r))
  {
    var after := Visit(env, r, c, a).c;
    asked := if |after.requests| > |c.requests| then [after.requests[|c.requests|]] else [];
  }

  lemma {:induction false} UpdateRequests(env: Env, rs: seq<Resource>, order: seq<nat>, c: Config, answers: seq<Answer>)
      returns (asked: seq<Request>)
    requires |answers| <= |order| && InRange(order, |rs|)
    ensures Updates(env, rs, order, c, answers).c.requests == c.requests + asked
    ensures AreVisitRequests(rs, order[..|answers|], asked)
  {
    hide Reconciler.Visit, IsFor;
    if answers == [] {
      asked := [];
    } else {
      var n := |answers| - 1;
      assert order[..n + 1][..n] == order[..n];
      var before := Updates(env, rs, order, c, answers[..n]);
      asked := UpdateRequests(env, rs, order, c, answers[..n]);
      if !before.verdict.Aborted? {
        var more := VisitRequest(env, rs[order[n]], before.c, answers[n]);
        assert (asked + more)[..|asked|] == asked;
        assert asked + [] == asked;
        assert c.requests + asked + more == c.requests + (asked + more);
        asked := asked + more;
      }
    }
  }

  lemma {:induction false} RemovalRequests(env: Env, keys: seq<string>, c: Config, answers: seq<Answer>)
      returns (asked: seq<Request>)
    requires |answers| <= |keys| && Distinct(keys)
    ensures Removals(env, keys, c, answers).c.requests == c.requests + asked
    ensures |asked| <= |answers|
    ensures forall k :: 0 <= k < |asked| ==> asked[k] == DeleteRequest(EntryAt(c.live, keys[k]))
    ensures !Removals(env, keys, c, answers).verdict.Aborted? ==> |asked| == |answers|
  {
    if answers == [] {
      asked := [];
    } else {
      var n := |answers| - 1;
      asked := RemovalRequests(env, keys, c, answers[..n]);
      var before := Removals(env, keys, c, answers[..n]);
      if !before.verdict.Aborted? {
        RemovalsFrame(env, keys, c, answers[..n], keys[n]);
        var request := DeleteRequest(EntryAt(c.live, keys[n]));
        RemovalRequest(env, keys[n], before.c, answers[n]);
        assert c.requests + asked + [request] == c.requests + (asked + [request]);
        asked := asked + [request];
      }
    }
  }

  lemma RemovalRequest(env: Env, key: string, c: Config, a: Answer)
    ensures Removal(env, key, c, a).c.requests == c.requests + [DeleteRequest(EntryAt(c.live, key))]
  {
  }

  /**
   * The discipline of every run, aborted or not: first at most one request per visited resource, for its own place,
   * each resource after all those it depends on; then one delete per key, as recorded, only if no visit aborted.
   */
  lemma CallDiscipline(env: Env, rs: seq<Resource>, c: Config, run: Run)
      returns (asked: seq<Request>, deleted: seq<Request>)
    requires IsRun(env, rs, c, run)
    ensures Outcome(env, rs, c, run).c.requests == c.requests + asked + deleted
    ensures AreVisitRequests(rs, run.order[..|run.visits|], asked)
    ensures forall k: nat, j: nat :: k < |run.visits| && DependsOn(ResourceGraph(rs), run.order[k], j) ==>
      j in run.order[..k]
    ensures Visits(env, rs, c, run).verdict.Aborted? ==> deleted == []
    ensures |deleted| <= |run.removals|
    ensures !Outcome(env, rs, c, run).verdict.Aborted? ==> |deleted| == |run.deletions|
    ensures forall k :: 0 <= k < |deleted| ==>
      deleted[k] == DeleteRequest(EntryAt(Visits(env, rs, c, run).c.live, run.deletions[k]))
  {
    asked := UpdateRequests(env, rs, run.order, c, run.visits);
    deleted := [];
    if !Visits(env, rs, c, run).verdict.Aborted? {
      deleted := RemovalRequests(env, run.deletions, Visits(env, rs, c, run).c, run.removals);
    }
    forall k: nat, j: nat | k < |run.visits| && DependsOn(ResourceGraph(rs), run.order[k], j)
      ensures j in run.order[..k]
    {
      var e := DependenciesComeEarlier(ResourceGraph(rs), run.order, k, j);
      assert run.order[..k][e] == j;
    }
  }
}
