/** What a clean run has done for each resource: sent its data, or found that it was already there. */
module Delivery {
  import opened Types
  import opened Templates
  import opened Graph
  import opened Ordering
  import opened DeleteOrder
  import opened Lint
  import opened Reconciler
  import opened Settling
  import opened Steps
  import opened Rerun

  /** The data was sent in this run, and the entry records the answer. */
  ghost predicate WasSent(env: Env, r: Resource, data: Value, begin: Config, end: Config, reply: Reply)
    requires EffectiveName(r) in end.live
  {
    && (exists k :: |begin.requests| <= k < |end.requests| && Carries(env.x, end.requests[k], r, data))
    && reply.Answered?
    && end.live[EffectiveName(r)] == AnswerEntry(env.x, r, data, reply.data)
  }

  /** What is recorded of the answer, with all that the resource says. */
  function AnswerEntry(x: Externals, r: Resource, data: Value, response: Value): StateResource {
    StateResource(DigestOf(x, r, data), r.dependencies, r.ignoreFailures, response, r.namespace, r.path)
  }

  predicate WasMovedFrom(rs: seq<Resource>, r: Resource, was: StateResource, key: string, e: StateResource) {
    key !in CurrentKeys(rs) && MatchesPlace(was, r) && e == was.(namespace := r.namespace, path := r.path)
  }

  /** The entry was in the state to begin with, under this name or, at the same place, under one no longer declared. */
  ghost predicate WasKnown(rs: seq<Resource>, r: Resource, begin: Registry, e: StateResource) {
    || (EffectiveName(r) in begin && e == begin[EffectiveName(r)])
    || (exists key :: key in begin && WasMovedFrom(rs, r, begin[key], key, e))
  }

  /** The same, seen from the visit itself. */
  lemma FineVisitSendsOrKnows(env: Env, r: Resource, c: Config, a: Answer)
    requires Visit(env, r, c, a).verdict.Fine?
    ensures Resolve(env.x, r.data, c.live).Some?
    ensures var data, after := Resolve(env.x, r.data, c.live).value, Visit(env, r, c, a).c;
      && EffectiveName(r) in after.live
      && var e := after.live[EffectiveName(r)];
        || (|after.requests| == |c.requests| + 1 && c.requests <= after.requests &&
            Carries(env.x, after.requests[|c.requests|], r, data) &&
            a.reply.Answered? && e == AnswerEntry(env.x, r, data, a.reply.data))
        || (EffectiveName(r) in c.live && e == c.live[EffectiveName(r)])
        || (a.pick.Some? && a.pick.value in c.live && MatchesPlace(c.live[a.pick.value], r) &&
            a.pick.value != EffectiveName(r) && e == c.live[a.pick.value].(namespace := r.namespace, path := r.path))
  {
    hide Resolve, RequestFor, EffectiveName, Place, Carries;
    var data := Resolve(env.x, r.data, c.live).value;
    if Visit(env, r, c, a).c.requests != c.requests {
      AsksIff(env, r, c, a);
      var request := SendingVisit(env, r, c, a);
    }
  }

  lemma VisitAsksMore(env: Env, r: Resource, c: Config, a: Answer)
    ensures c.requests <= Visit(env, r, c, a).c.requests
  {
    hide Resolve, RequestFor, EffectiveName, Place;
  }

  /** Requests are only ever added. */
  lemma {:induction false} RequestsGrow(env: Env, rs: seq<Resource>, order: seq<nat>, c: Config, answers: seq<Answer>,
                                        m: nat)
    requires m <= |answers| <= |order| && InRange(order, |rs|)
    ensures Updates(env, rs, order, c, answers[..m]).c.requests <= Updates(env, rs, order, c, answers).c.requests
  {
    hide Visit;
    assert answers[..|answers|] == answers;
    if m < |answers| {
      VisitAsksMore(env, rs[order[|answers| - 1]], Updates(env, rs, order, c, answers[..|answers| - 1]).c,
        answers[|answers| - 1]);
      RequestsGrow(env, rs, order, c, answers[..|answers| - 1], m);
      assert answers[..|answers| - 1][..m] == answers[..m];
    }
  }

  lemma {:induction false} RemovalRequestsGrow(env: Env, keys: seq<string>, c: Config, answers: seq<Answer>)
    requires |answers| <= |keys|
    ensures c.requests <= Removals(env, keys, c, answers).c.requests
  {
    if answers != [] {
      RemovalRequestsGrow(env, keys, c, answers[..|answers| - 1]);
    }
  }

  /** An entry under a name not visited so far was there at the beginning. */
  lemma {:induction false} EntryWasThere(env: Env, rs: seq<Resource>, order: seq<nat>, c: Config, answers: seq<Answer>,
                                         key: string)
    requires |answers| <= |order| && InRange(order, |rs|)
    requires forall k :: 0 <= k < |answers| ==> EffectiveName(rs[order[k]]) != key
    requires key in Updates(env, rs, order, c, answers).c.live
    ensures key in c.live && c.live[key] == Updates(env, rs, order, c, answers).c.live[key]
  {
    hide Visit, EffectiveName;
    if answers != [] {
      var n := |answers| - 1;
      var before := Updates(env, rs, order, c, answers[..n]);
      if !before.verdict.Aborted? {
        VisitAddsNoOther(env, rs[order[n]], before.c, answers[n], key);
      }
      EntryWasThere(env, rs, order, c, answers[..n], key);
    }
  }

  /** At its visit a resource is sent or known; known means known from the beginning. */
  lemma KnownFromTheBeginning(env: Env, rs: seq<Resource>, order: seq<nat>, c: Config, answers: seq<Answer>, q: nat,
                              key: string)
    requires NamesAreUnique(rs) && DistinctPlaces(rs) && Distinct(order) && InRange(order, |rs|) &&
      q < |answers| <= |order|
    requires var before := Updates(env, rs, order, c, answers[..q]).c.live;
      && Coherent(rs, before)
      && key in before
      && (key == EffectiveName(rs[order[q]]) || MatchesPlace(before[key], rs[order[q]]))
    ensures key in c.live && c.live[key] == Updates(env, rs, order, c, answers[..q]).c.live[key]
    ensures key == EffectiveName(rs[order[q]]) || key !in CurrentKeys(rs)
  {
    hide Updates, EffectiveName, Place;
    forall j | 0 <= j < |rs| && j != order[q] ensures EffectiveName(rs[j]) != key {
      assert EffectiveName(rs[j]) != EffectiveName(rs[order[q]]) && PlaceOf(rs[j]) != PlaceOf(rs[order[q]]);
    }
    EntryWasThere(env, rs, order, c, answers[..q], key);
  }

  /** The visits leave the resource at position `q` with what its own visit gave it. */
  lemma VisitedSendsOrKnows(env: Env, rs: seq<Resource>, order: seq<nat>, c: Config, answers: seq<Answer>, q: nat)
    requires WellDeclared(rs) && Coherent(rs, c.live)
    requires Topological(ResourceGraph(rs), order) && InRange(order, |rs|) && q < |answers| == |order| == |rs|
    requires Updates(env, rs, order, c, answers).verdict.Fine?
    requires forall k :: 0 <= k < |order| ==> EffectiveName(rs[order[k]]) in Updates(env, rs, order, c, answers).c.live
    ensures var r, end := rs[order[q]], Updates(env, rs, order, c, answers).c;
      var data := Resolve(env.x, r.data, end.live);
      && data.Some?
      && (WasSent(env, r, data.value, c, end, answers[q].reply) || WasKnown(rs, r, c.live, end.live[EffectiveName(r)]))
  {
    hide Visit, Resolve, Carries, AnswerEntry, EffectiveName, Place, NamesAreUnique, DistinctPlaces, TemplatesDepend,
      Coherent;
    var r, end := rs[order[q]], Updates(env, rs, order, c, answers).c;
    var before, after := Updates(env, rs, order, c, answers[..q]), Updates(env, rs, order, c, answers[..q + 1]);
    FinePrefix(env, rs, order, c, answers, q);
    UpdatesSettle(env, rs, order, c, answers[..q]);
    FineVisitAt(env, rs, order, c, answers, q);
    FineStep(env, rs, order, c, answers, q);
    ResolvesTheSameAtEnd(env, rs, order, c, answers, q);
    OwnEntryLasts(env, rs, order, c, answers, q, q + 1);
    FineVisitSendsOrKnows(env, r, before.c, answers[q]);
    RequestsGrow(env, rs, order, c, answers, q + 1);
    RequestsGrow(env, rs, order, c, answers, 0);
    RequestsGrow(env, rs, order, c, answers[..q], 0);
    assert answers[..q][..0] == [] && answers[..0] == [];
    var name, data := EffectiveName(r), Resolve(env.x, r.data, before.c.live).value;
    if |after.c.requests| > |before.c.requests| {
      assert end.requests[|before.c.requests|] == after.c.requests[|before.c.requests|];
    }
    if name in before.c.live {
      KnownFromTheBeginning(env, rs, order, c, answers, q, name);
    }
    var pick := answers[q].pick;
    if pick.Some? && pick.value in before.c.live && MatchesPlace(before.c.live[pick.value], r) {
      KnownFromTheBeginning(env, rs, order, c, answers, q, pick.value);
    }
  }

  lemma FineStep(env: Env, rs: seq<Resource>, order: seq<nat>, c: Config, answers: seq<Answer>, q: nat)
    requires InRange(order, |rs|) && q < |answers| <= |order|
    requires Updates(env, rs, order, c, answers).verdict.Fine?
    ensures var before := Updates(env, rs, order, c, answers[..q]);
      var step := Visit(env, rs[order[q]], before.c, answers[q]);
      before.verdict.Fine? && step.verdict.Fine? && Updates(env, rs, order, c, answers[..q + 1]) == step
  {
    hide Visit;
    FinePrefix(env, rs, order, c, answers, q + 1);
    FinePrefix(env, rs, order, c, answers, q);
    assert answers[..q + 1][..q] == answers[..q];
  }

  /** The data resolve at the end to what they resolved to when the resource was visited. */
  lemma ResolvesTheSameAtEnd(env: Env, rs: seq<Resource>, order: seq<nat>, c: Config, answers: seq<Answer>, q: nat)
    requires NamesAreUnique(rs) && TemplatesDepend(rs)
    requires Topological(ResourceGraph(rs), order) && InRange(order, |rs|) && q < |answers| == |order|
    requires Updates(env, rs, order, c, answers).verdict.Fine?
    requires forall k :: 0 <= k < |order| ==> EffectiveName(rs[order[k]]) in Updates(env, rs, order, c, answers).c.live
    ensures Resolve(env.x, rs[order[q]].data, Updates(env, rs, order, c, answers[..q]).c.live) ==
            Resolve(env.x, rs[order[q]].data, Updates(env, rs, order, c, answers).c.live)
  {
    hide Updates, Visit, NamesAreUnique, TemplatesDepend;
    var end := Updates(env, rs, order, c, answers).c;
    var before := Updates(env, rs, order, c, answers[..q]).c;
    forall k | 0 <= k < q ensures SameEntry(before.live, end.live, EffectiveName(rs[order[k]])) {
      OwnEntryLasts(env, rs, order, c, answers, k, q);
    }
    VisitedIsClosed(rs, order, q);
    ResolvesTheSame(env.x, rs, order[q], before.live, end.live, Visited(order, q));
  }

  /**
   * After a clean run, the data of every resource resolve in the final state; and either exactly these data were sent
   * to its place in this run and the entry records the answer, or the entry was known from the beginning.
   */
  lemma SentOrKnown(env: Env, rs: seq<Resource>, c: Config, run: Run, q: nat)
    requires WellDeclared(rs) && Coherent(rs, c.live) && IsCleanRun(env, rs, c, run) && q < |run.visits|
    ensures var r, end := rs[run.order[q]], Outcome(env, rs, c, run).c;
      var data := Resolve(env.x, r.data, end.live);
      && data.Some? && UpToDate(end.live, r, Digest(env.x, r, data.value))
      && (WasSent(env, r, data.value, c, end, run.visits[q].reply) ||
        WasKnown(rs, r, c.live, end.live[EffectiveName(r)]))
  {
    hide Updates, Removals, Visit, Resolve, Carries, AnswerEntry, EffectiveName, Place, NamesAreUnique, DistinctPlaces,
      TemplatesDepend, Coherent, IsKahnOrder;
    var visited, end := Visits(env, rs, c, run).c, Outcome(env, rs, c, run).c;
    var r := rs[run.order[q]];
    CleanRunSettles(env, rs, c, run);
    AllAreVisited(rs, run.order);
    ApplyOrderIsTopological(rs, run.order);
    EntriesSurviveDeletion(env, rs, visited, run);
    assert forall k :: 0 <= k < |run.order| ==> EffectiveName(rs[run.order[k]]) in visited.live;
    VisitedSendsOrKnows(env, rs, run.order, c, run.visits, q);
    ResolvesTheSame(env.x, rs, run.order[q], visited.live, end.live, Visited(run.order, |rs|));
    RemovalRequestsGrow(env, run.deletions, visited, run.removals);
    RequestsGrow(env, rs, run.order, c, run.visits, 0);
    assert run.visits[..0] == [];
    NoVisits(env, rs, run.order, c);
    SentStaysSent(env, r, Resolve(env.x, r.data, end.live).value, c, visited, end, run.visits[q].reply);
  }

  lemma EntriesSurviveDeletion(env: Env, rs: seq<Resource>, visited: Config, run: Run)
    requires |run.removals| <= |run.deletions|
    requires IsDeleteOrder(visited.live, StaleKeys(visited.live, rs), run.deletions)
    ensures var end := Removals(env, run.deletions, visited, run.removals).c.live;
      forall i: nat :: i < |rs| ==> SameEntry(visited.live, end, EffectiveName(rs[i]))
  {
    forall i: nat | i < |rs|
      ensures SameEntry(visited.live, Removals(env, run.deletions, visited, run.removals).c.live, EffectiveName(rs[i]))
    {
      DeletionsAreStale(rs, visited.live, run.deletions, i);
      RemovalsFrame(env, run.deletions, visited, run.removals, EffectiveName(rs[i]));
    }
  }

  lemma SentStaysSent(env: Env, r: Resource, data: Value, begin: Config, mid: Config, end: Config, reply: Reply)
    requires EffectiveName(r) in mid.live && SameEntry(mid.live, end.live, EffectiveName(r))
    requires |begin.requests| <= |mid.requests| && mid.requests <= end.requests
    ensures WasSent(env, r, data, begin, mid, reply) ==> WasSent(env, r, data, begin, end, reply)
  {
    if WasSent(env, r, data, begin, mid, reply) {
      var k :| |begin.requests| <= k < |mid.requests| && Carries(env.x, mid.requests[k], r, data);
      assert end.requests[k] == mid.requests[k];
    }
  }

  /** The data that a clean run resolves at the end are those it resolved at the visit. */
  lemma ResolvedAtVisit(env: Env, rs: seq<Resource>, c: Config, run: Run, q: nat)
    requires WellDeclared(rs) && Coherent(rs, c.live) && IsCleanRun(env, rs, c, run) && q < |run.visits|
    ensures Resolve(env.x, rs[run.order[q]].data, Updates(env, rs, run.order, c, run.visits[..q]).c.live) ==
            Resolve(env.x, rs[run.order[q]].data, Outcome(env, rs, c, run).c.live)
  {
    hide Updates, Removals, Visit, Resolve, EffectiveName, Place, NamesAreUnique, DistinctPlaces, TemplatesDepend,
      Coherent, IsKahnOrder;
    var visited, end := Visits(env, rs, c, run).c, Outcome(env, rs, c, run).c;
    CleanRunSettles(env, rs, c, run);
    AllAreVisited(rs, run.order);
    ApplyOrderIsTopological(rs, run.order);
    EntriesSurviveDeletion(env, rs, visited, run);
    assert forall k :: 0 <= k < |run.order| ==> EffectiveName(rs[run.order[k]]) in visited.live;
    ResolvesTheSameAtEnd(env, rs, run.order, c, run.visits, q);
    ResolvesTheSame(env.x, rs, run.order[q], visited.live, end.live, Visited(run.order, |rs|));
  }

  // ---------------------------------------------------------------- which changes are noticed

  /** The same names, in the same places of the list. */
  ghost predicate SameNames(rs: seq<Resource>, rs': seq<Resource>) {
    |rs'| == |rs| && forall i :: 0 <= i < |rs| ==> EffectiveName(rs'[i]) == EffectiveName(rs[i])
  }

  /** The data of both resolve in this state, to the same digest. */
  predicate SameDigestNow(x: Externals, r: Resource, r': Resource, live: Registry) {
    var data, data' := Resolve(x, r.data, live), Resolve(x, r'.data, live);
    data.Some? && data'.Some? && Digest(x, r, data.value) == Digest(x, r', data'.value)
  }

  /**
   * Exactly which changes are noticed. When the resources of a settled state are changed under their names, the next
   * run is silent if and only if no digest changed.
   */
  lemma ChangesAreNoticedIff(env: Env, rs: seq<Resource>, rs': seq<Resource>, c: Config, run: Run)
    requires SameNames(rs, rs') && IsRun(env, rs', c, run)
    requires OnlyCyclicLeftOver(rs, c.live) && forall i: nat :: i < |rs| ==> Settled(env.x, rs[i], c.live)
    ensures IsSilent(env, rs', c, run) <==> forall i: nat :: i < |rs| ==> SameDigestNow(env.x, rs[i], rs'[i], c.live)
  {
    hide EffectiveName, Resolve, IsRun, IsSilent, OnlyCyclicLeftOver;
    SilentIff(env, rs', c, run);
    SameNamesSameLeftOvers(rs, rs');
    forall i: nat | i < |rs| ensures Settled(env.x, rs'[i], c.live) <==> SameDigestNow(env.x, rs[i], rs'[i], c.live) {
      assert EffectiveName(rs'[i]) == EffectiveName(rs[i]) && Settled(env.x, rs[i], c.live);
    }
  }

  lemma SameNamesSameLeftOvers(rs: seq<Resource>, rs': seq<Resource>)
    requires SameNames(rs, rs')
    ensures forall live :: OnlyCyclicLeftOver(rs', live) <==> OnlyCyclicLeftOver(rs, live)
  {
    hide EffectiveName, ReachesCycle;
    assert CurrentKeys(rs') == CurrentKeys(rs) by {
      assert forall i :: 0 <= i < |rs| ==> EffectiveName(rs'[i]) == EffectiveName(rs[i]);
    }
    assert forall live :: StaleKeys(live, rs') == StaleKeys(live, rs);
  }

  /** Same name, data and revision; place, method, dependencies and failure handling may differ. */
  ghost predicate SameDigests(rs: seq<Resource>, rs': seq<Resource>) {
    SameNames(rs, rs') && forall i :: 0 <= i < |rs| ==> rs'[i].data == rs[i].data && rs'[i].revision == rs[i].revision
  }

  /**
   * So other paths, namespaces, methods or dependencies under unchanged names are not noticed: a run on the changed
   * resources is silent exactly when the unchanged ones are settled, and the state goes on recording the old places.
   */
  lemma OtherChangesAreNotNoticed(env: Env, rs: seq<Resource>, rs': seq<Resource>, c: Config, run: Run)
    requires SameDigests(rs, rs') && IsRun(env, rs', c, run)
    ensures IsSilent(env, rs', c, run) <==>
            (forall i: nat :: i < |rs| ==> Settled(env.x, rs[i], c.live)) && OnlyCyclicLeftOver(rs, c.live)
  {
    hide EffectiveName, Resolve, IsRun, IsSilent, OnlyCyclicLeftOver;
    SilentIff(env, rs', c, run);
    SameNamesSameLeftOvers(rs, rs');
    forall i: nat | i < |rs| ensures Settled(env.x, rs'[i], c.live) <==> Settled(env.x, rs[i], c.live) {
      assert EffectiveName(rs'[i]) == EffectiveName(rs[i]);
    }
  }
}
