/** Running again: silently after a clean run, and without repetition after an aborted one. */
module Rerun {
  import opened Wrappers
  import opened Types
  import opened Templates
  import opened Graph
  import opened Ordering
  import opened DeleteOrder
  import opened Lint
  import opened Reconciler
  import opened Settling

  // ---------------------------------------------------------------- after a clean run

  /** No failure at all: every template resolved, every call and every save succeeded. */
  ghost predicate IsCleanRun(env: Env, rs: seq<Resource>, c: Config, run: Run) {
    IsRun(env, rs, c, run) && Outcome(env, rs, c, run).verdict.Fine?
  }

  /** A clean run settles every resource and, with a writer, leaves the stored state equal to the one in memory. */
  lemma CleanRunSettles(env: Env, rs: seq<Resource>, c: Config, run: Run)
    requires WellDeclared(rs) && Coherent(rs, c.live) && IsCleanRun(env, rs, c, run)
    ensures var end := Outcome(env, rs, c, run).c;
      && Coherent(rs, end.live)
      && AllSettled(env.x, rs, end.live, Visited(run.order, |rs|))
      && (env.writing && c.stored == c.live ==> end.stored == end.live)
  {
    var visited := Visits(env, rs, c, run).c;
    UpdatesSettle(env, rs, run.order, c, run.visits);
    var end := Outcome(env, rs, c, run).c;
    forall i: nat | i < |rs| ensures SameEntry(visited.live, end.live, EffectiveName(rs[i])) {
      DeletionsAreStale(rs, visited.live, run.deletions, i);
      RemovalsFrame(env, run.deletions, visited, run.removals, EffectiveName(rs[i]));
    }
    VisitedIsClosed(rs, run.order, |rs|);
    SettledTogether(env.x, rs, visited.live, end.live, Visited(run.order, |rs|));
    FineRemovalsRemove(env, run.deletions, visited, run.removals);
    if env.writing && c.stored == c.live {
      UpdatesStayStored(env, rs, run.order, c, run.visits);
    }
  }

  /** Every single visit does nothing, and there is nothing to delete. */
  ghost predicate IsSilent(env: Env, rs: seq<Resource>, c: Config, run: Run)
    requires Indexes(rs, run)
  {
    && (forall k :: 0 <= k <= |run.visits| ==> Updates(env, rs, run.order, c, run.visits[..k]) == Step(c, Fine))
    && run.deletions == []
    && Outcome(env, rs, c, run) == Step(c, Fine)
  }

  /** Under other names a visit can only remove entries. */
  lemma VisitAddsNoOther(env: Env, r: Resource, c: Config, a: Answer, key: string)
    requires key != EffectiveName(r) && key in Visit(env, r, c, a).c.live
    ensures SameEntry(c.live, Visit(env, r, c, a).c.live, key)
  {
  }

  /** An entry found at the end under a name not visited in between was there all along. */
  lemma {:induction false} EntryLasts(env: Env, rs: seq<Resource>, order: seq<nat>, c: Config, answers: seq<Answer>,
                                      m: nat, key: string)
    requires m <= |answers| <= |order| && InRange(order, |rs|)
    requires Updates(env, rs, order, c, answers).verdict.Fine?
    requires forall k :: m <= k < |answers| ==> EffectiveName(rs[order[k]]) != key
    requires key in Updates(env, rs, order, c, answers).c.live
    ensures SameEntry(Updates(env, rs, order, c, answers[..m]).c.live, Updates(env, rs, order, c, answers).c.live, key)
  {
    hide Visit, EffectiveName;
    assert answers[..|answers|] == answers;
    if m < |answers| {
      var n := |answers| - 1;
      VisitAddsNoOther(env, rs[order[n]], Updates(env, rs, order, c, answers[..n]).c, answers[n], key);
      EntryLasts(env, rs, order, c, answers[..n], m, key);
      assert answers[..n][..m] == answers[..m];
    }
  }

  /** The prefixes of a visit sequence without failure are without failure. */
  lemma {:induction false} FinePrefix(env: Env, rs: seq<Resource>, order: seq<nat>, c: Config, answers: seq<Answer>,
                                      m: nat)
    requires m <= |answers| <= |order| && InRange(order, |rs|)
    requires Updates(env, rs, order, c, answers).verdict.Fine?
    ensures Updates(env, rs, order, c, answers[..m]).verdict.Fine?
  {
    assert answers[..|answers|] == answers;
    if m < |answers| {
      FinePrefix(env, rs, order, c, answers[..|answers| - 1], m);
      assert answers[..|answers| - 1][..m] == answers[..m];
    }
  }

  /** What a resource was given at its visit, if found at the end, was there from its visit on. */
  lemma OwnEntryLasts(env: Env, rs: seq<Resource>, order: seq<nat>, c: Config, answers: seq<Answer>, k: nat, m: nat)
    requires NamesAreUnique(rs) && Distinct(order) && InRange(order, |rs|) && k < m <= |answers| == |order|
    requires Updates(env, rs, order, c, answers).verdict.Fine?
    requires EffectiveName(rs[order[k]]) in Updates(env, rs, order, c, answers).c.live
    ensures SameEntry(Updates(env, rs, order, c, answers[..m]).c.live, Updates(env, rs, order, c, answers).c.live,
                      EffectiveName(rs[order[k]]))
  {
    hide Updates, SameEntry;
    forall j | m <= j < |answers| ensures EffectiveName(rs[order[j]]) != EffectiveName(rs[order[k]]) {
      assert order[j] != order[k];
    }
    EntryLasts(env, rs, order, c, answers, m, EffectiveName(rs[order[k]]));
  }

  lemma FineVisitAt(env: Env, rs: seq<Resource>, order: seq<nat>, c: Config, answers: seq<Answer>, q: nat)
    requires InRange(order, |rs|) && q < |answers| <= |order|
    requires Updates(env, rs, order, c, answers).verdict.Fine?
    ensures var before, r := Updates(env, rs, order, c, answers[..q]).c.live, rs[order[q]];
      && Resolve(env.x, r.data, before).Some?
      && UpToDate(Updates(env, rs, order, c, answers[..q + 1]).c.live, r,
        Digest(env.x, r, Resolve(env.x, r.data, before).value))
  {
    FinePrefix(env, rs, order, c, answers, q + 1);
    assert answers[..q + 1][..q] == answers[..q];
    FineVisitRecords(env, rs[order[q]], Updates(env, rs, order, c, answers[..q]).c, answers[q]);
  }

  /** The resource at position `q`, if it and all visited before it are recorded at the end, is settled at the end. */
  lemma RecordedIsSettled(env: Env, rs: seq<Resource>, order: seq<nat>, c: Config, answers: seq<Answer>, q: nat)
    requires NamesAreUnique(rs) && TemplatesDepend(rs)
    requires Topological(ResourceGraph(rs), order) && InRange(order, |rs|) && q < |answers| == |order|
    requires Updates(env, rs, order, c, answers).verdict.Fine?
    requires forall k :: 0 <= k < |order| ==> EffectiveName(rs[order[k]]) in Updates(env, rs, order, c, answers).c.live
    ensures Settled(env.x, rs[order[q]], Updates(env, rs, order, c, answers).c.live)
  {
    hide Updates, Visit, NamesAreUnique, TemplatesDepend;
    var end := Updates(env, rs, order, c, answers).c;
    var before := Updates(env, rs, order, c, answers[..q]).c;
    FineVisitAt(env, rs, order, c, answers, q);
    OwnEntryLasts(env, rs, order, c, answers, q, q + 1);
    forall k | 0 <= k < q ensures SameEntry(before.live, end.live, EffectiveName(rs[order[k]])) {
      OwnEntryLasts(env, rs, order, c, answers, k, q);
    }
    VisitedIsClosed(rs, order, q);
    ResolvesTheSame(env.x, rs, order[q], before.live, end.live, Visited(order, q));
  }

  lemma AllAreVisited(rs: seq<Resource>, order: seq<nat>)
    requires IsApplyOrder(rs, order)
    ensures DependencyClosed(rs, Visited(order, |rs|))
    ensures forall i: nat :: i < |rs| <==> i in Visited(order, |rs|)
  {
    VisitedIsClosed(rs, order, |rs|);
    FirstAll(order);
  }

  /** With every declared name recorded at the end of a clean run, every resource is settled there. */
  lemma AllRecordedIsAllSettled(env: Env, rs: seq<Resource>, c: Config, run: Run)
    requires NamesAreUnique(rs) && TemplatesDepend(rs) && IsCleanRun(env, rs, c, run)
    requires CurrentKeys(rs) <= Outcome(env, rs, c, run).c.live.Keys
    ensures forall i: nat :: i < |rs| ==> Settled(env.x, rs[i], Outcome(env, rs, c, run).c.live)
  {
    var visited, end := Visits(env, rs, c, run).c, Outcome(env, rs, c, run).c;
    var all := Visited(run.order, |rs|);
    AllAreVisited(rs, run.order);
    forall i: nat | i < |rs| ensures SameEntry(visited.live, end.live, EffectiveName(rs[i])) {
      DeletionsAreStale(rs, visited.live, run.deletions, i);
      RemovalsFrame(env, run.deletions, visited, run.removals, EffectiveName(rs[i]));
      assert EffectiveName(rs[i]) in CurrentKeys(rs);
    }
    forall i | i in all ensures Settled(env.x, rs[i], visited.live) {
      var q :| 0 <= q < |run.order| && run.order[q] == i;
      RecordedIsSettled(env, rs, run.order, c, run.visits, q);
    }
    SettledTogether(env.x, rs, visited.live, end.live, all);
  }

  lemma {:induction false} SettledVisitsAreSilent(env: Env, rs: seq<Resource>, order: seq<nat>, c: Config,
                                                  answers: seq<Answer>)
    requires InRange(order, |rs|) && |answers| <= |order|
    requires forall i: nat :: i < |rs| ==> Settled(env.x, rs[i], c.live)
    ensures Updates(env, rs, order, c, answers) == Step(c, Fine)
  {
    if answers != [] {
      SettledVisitsAreSilent(env, rs, order, c, answers[..|answers| - 1]);
    }
  }

  /**
   * The second run is silent exactly when the first left every declared name recorded: after a clean run, any
   * further run on the resulting state, with whatever answers, asks nothing, saves nothing and changes nothing.
   * Keys that the delete order left out because of a cycle make no difference.
   */
  lemma SecondRunIsSilentIff(env: Env, rs: seq<Resource>, c: Config, first: Run, again: Config, second: Run)
    requires NamesAreUnique(rs) && TemplatesDepend(rs) && IsCleanRun(env, rs, c, first)
    requires again.live == Outcome(env, rs, c, first).c.live
    requires IsRun(env, rs, again, second)
    ensures IsSilent(env, rs, again, second) <==> CurrentKeys(rs) <= again.live.Keys
  {
    if CurrentKeys(rs) <= again.live.Keys {
      AllRecordedIsAllSettled(env, rs, c, first);
      SettledVisitsAreSilent(env, rs, second.order, again, second.visits);
      UnabortedRun(env, rs, again, second);
      NothingLeftToDelete(env, rs, c, first, again.live, second.deletions);
      SettledRunIsSilent(env, rs, again, second);
    }
    if IsSilent(env, rs, again, second) {
      assert second.visits[..|second.visits|] == second.visits;
      UnabortedRun(env, rs, again, second);
      SilenceNeedsEntries(env, rs, again, second);
    }
  }

  /** Unless aborted, all resources are visited, and the deletions follow. */
  lemma UnabortedRun(env: Env, rs: seq<Resource>, c: Config, run: Run)
    requires IsRun(env, rs, c, run) && !Visits(env, rs, c, run).verdict.Aborted?
    ensures |run.visits| == |run.order| && forall i: nat :: i < |rs| ==> i in run.order
    ensures var live := Visits(env, rs, c, run).c.live; IsDeleteOrder(live, StaleKeys(live, rs), run.deletions)
  {
  }

  lemma SettledRunIsSilent(env: Env, rs: seq<Resource>, c: Config, run: Run)
    requires Indexes(rs, run) && run.deletions == []
    requires forall i: nat :: i < |rs| ==> Settled(env.x, rs[i], c.live)
    ensures IsSilent(env, rs, c, run)
  {
    forall k | 0 <= k <= |run.visits| ensures Updates(env, rs, run.order, c, run.visits[..k]) == Step(c, Fine) {
      SettledVisitsAreSilent(env, rs, run.order, c, run.visits[..k]);
    }
    assert run.visits[..|run.visits|] == run.visits;
  }

  lemma SilentVisitNeedsEntry(env: Env, rs: seq<Resource>, order: seq<nat>, c: Config, answers: seq<Answer>, k: nat)
    requires InRange(order, |rs|) && k < |answers| <= |order|
    requires Updates(env, rs, order, c, answers[..k]) == Step(c, Fine)
    requires Updates(env, rs, order, c, answers[..k + 1]) == Step(c, Fine)
    ensures EffectiveName(rs[order[k]]) in c.live
  {
    assert answers[..k + 1][..k] == answers[..k];
    FineVisitRecords(env, rs[order[k]], c, answers[k]);
  }

  lemma SilenceNeedsEntries(env: Env, rs: seq<Resource>, c: Config, run: Run)
    requires Indexes(rs, run) && |run.visits| == |run.order| && forall i: nat :: i < |rs| ==> i in run.order
    requires IsSilent(env, rs, c, run)
    ensures CurrentKeys(rs) <= c.live.Keys
  {
    forall i: nat | i < |rs| ensures EffectiveName(rs[i]) in c.live {
      assert i in run.order;
      var k :| 0 <= k < |run.order| && run.order[k] == i;
      SilentVisitNeedsEntry(env, rs, run.order, c, run.visits, k);
    }
  }

  /** No key without a resource would be deleted: each reaches a cycle of recorded dependencies. */
  ghost predicate OnlyCyclicLeftOver(rs: seq<Resource>, live: Registry) {
    forall key :: key in StaleKeys(live, rs) ==> ReachesCycle(StaleGraph(live, StaleKeys(live, rs)), key)
  }

  lemma NothingDeletedIff(rs: seq<Resource>, live: Registry, deletions: seq<string>)
    requires IsDeleteOrder(live, StaleKeys(live, rs), deletions)
    ensures deletions == [] <==> OnlyCyclicLeftOver(rs, live)
  {
    hide ReachesCycle;
    if deletions != [] {
      assert deletions[0] in deletions && deletions[0] in StaleGraph(live, StaleKeys(live, rs));
    }
  }

  /**
   * Exactly when a run is silent, by the state it starts from: every resource is settled there, and nothing is left
   * over that could be deleted.
   */
  lemma SilentIff(env: Env, rs: seq<Resource>, c: Config, run: Run)
    requires IsRun(env, rs, c, run)
    ensures IsSilent(env, rs, c, run) <==>
            (forall i: nat :: i < |rs| ==> Settled(env.x, rs[i], c.live)) && OnlyCyclicLeftOver(rs, c.live)
  {
    hide Visit, Settled, OnlyCyclicLeftOver, IsDeleteOrder, EffectiveName;
    if forall i: nat :: i < |rs| ==> Settled(env.x, rs[i], c.live) {
      SettledVisitsAreSilent(env, rs, run.order, c, run.visits);
      UnabortedRun(env, rs, c, run);
      NothingDeletedIff(rs, c.live, run.deletions);
      if OnlyCyclicLeftOver(rs, c.live) {
        SettledRunIsSilent(env, rs, c, run);
      }
    }
    if IsSilent(env, rs, c, run) {
      assert run.visits[..|run.visits|] == run.visits;
      UnabortedRun(env, rs, c, run);
      NothingDeletedIff(rs, c.live, run.deletions);
      forall i: nat | i < |rs| ensures Settled(env.x, rs[i], c.live) {
        assert i in run.order;
        var k :| 0 <= k < |run.order| && run.order[k] == i;
        SilentVisitIsOfSettled(env, rs, run.order, c, run.visits, k);
      }
    }
  }

  lemma SilentVisitIsOfSettled(env: Env, rs: seq<Resource>, order: seq<nat>, c: Config, answers: seq<Answer>, k: nat)
    requires InRange(order, |rs|) && k < |answers| <= |order|
    requires Updates(env, rs, order, c, answers[..k]) == Step(c, Fine)
    requires Updates(env, rs, order, c, answers[..k + 1]) == Step(c, Fine)
    ensures Settled(env.x, rs[order[k]], c.live)
  {
    assert answers[..k + 1][..k] == answers[..k];
    FineVisitRecords(env, rs[order[k]], c, answers[k]);
  }

  /** With places distinct and the state coherent, the condition is met. */
  lemma SecondRunIsSilent(env: Env, rs: seq<Resource>, c: Config, first: Run, again: Config, second: Run)
    requires WellDeclared(rs) && Coherent(rs, c.live) && IsCleanRun(env, rs, c, first)
    requires again.live == Outcome(env, rs, c, first).c.live
    requires IsRun(env, rs, again, second)
    ensures IsSilent(env, rs, again, second)
  {
    CleanRunSettles(env, rs, c, first);
    AllAreVisited(rs, first.order);
    SecondRunIsSilentIff(env, rs, c, first, again, second);
  }

  /**
   * The same of the program: `Apply` twice over. Each call makes a run, the second from what the first left; if the
   * first had no failure, the second succeeds and leaves everything as it was.
   */
  method ApplyTwice(x: Externals, rs: seq<Resource>, client: Client, state: State, writer: StateWriter?)
      returns (failure: Option<Failure>, ghost run: Run, ghost first: Step, ghost rerun: Run)
    requires WellDeclared(rs) && Coherent(rs, state.resources) && !IsCyclic(rs)
    modifies client, state, writer
    ensures var env, begin := Env(x, writer != null), old(Snapshot(client, state, writer));
      && IsRun(env, rs, begin, run) && StopsOnAbort(env, rs, begin, run) && first == Outcome(env, rs, begin, run)
    ensures var env := Env(x, writer != null);
      && IsRun(env, rs, first.c, rerun) && StopsOnAbort(env, rs, first.c, rerun)
      && Snapshot(client, state, writer) == Outcome(env, rs, first.c, rerun).c
      && (failure.None? <==> !Outcome(env, rs, first.c, rerun).verdict.Aborted?)
    ensures first.verdict.Fine? ==> failure.None? && Snapshot(client, state, writer) == first.c
  {
    hide IsRun, StopsOnAbort, PicksRightly, Outcome, IsSilent, WellDeclared, Coherent, IsCyclic;
    ghost var env, begin, last := Env(x, writer != null), Snapshot(client, state, writer),
      Step(Snapshot(client, state, writer), Fine);
    failure, run, first := Apply(x, rs, client, state, writer);
    failure, rerun, last := Apply(x, rs, client, state, writer);
    if first.verdict.Fine? {
      SecondOutcome(env, rs, begin, run, first.c, rerun);
    }
  }

  lemma SecondOutcome(env: Env, rs: seq<Resource>, c: Config, first: Run, again: Config, second: Run)
    requires WellDeclared(rs) && Coherent(rs, c.live)
    requires IsRun(env, rs, c, first) && Outcome(env, rs, c, first).verdict.Fine?
    requires again.live == Outcome(env, rs, c, first).c.live
    requires IsRun(env, rs, again, second)
    ensures Outcome(env, rs, again, second) == Step(again, Fine)
  {
    SecondRunIsSilent(env, rs, c, first, again, second);
  }

  lemma LeftOversAreCyclic(env: Env, rs: seq<Resource>, c: Config, run: Run)
    requires IsCleanRun(env, rs, c, run)
    ensures OnlyCyclicLeftOver(rs, Outcome(env, rs, c, run).c.live)
  {
    hide ReachesCycle;
    var visited, live := Visits(env, rs, c, run).c, Outcome(env, rs, c, run).c.live;
    FineRemovalsRemove(env, run.deletions, visited, run.removals);
    FirstAll(run.deletions);
    assert StaleKeys(live, rs) == StaleKeys(visited.live, rs) - set k | k in run.deletions;
    LeftOversReachCycles(visited.live, StaleKeys(visited.live, rs), run.deletions, live);
  }

  lemma NothingLeftToDelete(env: Env, rs: seq<Resource>, c: Config, first: Run, live: Registry, deletions: seq<string>)
    requires IsCleanRun(env, rs, c, first) && live == Outcome(env, rs, c, first).c.live
    requires IsDeleteOrder(live, StaleKeys(live, rs), deletions)
    ensures deletions == []
  {
    hide IsCleanRun, OnlyCyclicLeftOver, IsDeleteOrder;
    LeftOversAreCyclic(env, rs, c, first);
    NothingDeletedIff(rs, live, deletions);
  }

  // ---------------------------------------------------------------- after an aborted run

  /**
   * The first `n` visits ended without a failure, saves included, and after them the run either went on to the
   * deletions or was aborted by the very next visit: no failure of a visit was ignored.
   */
  predicate Completes(env: Env, rs: seq<Resource>, c: Config, run: Run, n: nat)
    requires Indexes(rs, run)
  {
    && n <= |run.visits|
    && Updates(env, rs, run.order, c, run.visits[..n]).verdict.Fine?
    && |run.visits| == if Visits(env, rs, c, run).verdict.Aborted? then n + 1 else n
  }

  /** An aborting visit leaves the stored state as it was. */
  lemma AbortKeepsStored(env: Env, rs: seq<Resource>, order: seq<nat>, c: Config, answers: seq<Answer>)
    requires |answers| <= |order| && InRange(order, |rs|) && answers != []
    requires !Updates(env, rs, order, c, answers[..|answers| - 1]).verdict.Aborted?
    requires Updates(env, rs, order, c, answers).verdict.Aborted?
    ensures Updates(env, rs, order, c, answers).c.stored ==
            Updates(env, rs, order, c, answers[..|answers| - 1]).c.stored
  {
  }

  /** Whatever the delete phase stores, current entries in it are those the visits left. */
  lemma {:induction false} RemovalsStoreFrame(env: Env, keys: seq<string>, c: Config, answers: seq<Answer>, key: string)
    requires |answers| <= |keys| && key !in keys && c.stored == c.live
    ensures SameEntry(c.live, Removals(env, keys, c, answers).c.live, key)
    ensures SameEntry(c.live, Removals(env, keys, c, answers).c.stored, key)
  {
    if answers != [] {
      RemovalsStoreFrame(env, keys, c, answers[..|answers| - 1], key);
      assert keys[|answers| - 1] in keys;
    }
  }

  /** What is stored when a run ends, however it ends, has the completed visits settled. */
  lemma StoredIsSettled(env: Env, rs: seq<Resource>, c: Config, run: Run, n: nat)
    requires WellDeclared(rs) && Coherent(rs, c.live) && env.writing && c.stored == c.live
    requires IsRun(env, rs, c, run) && Completes(env, rs, c, run, n)
    ensures var stored := Outcome(env, rs, c, run).c.stored;
      && Coherent(rs, stored)
      && AllSettled(env.x, rs, stored, Visited(run.order, n))
  {
    hide Visit, Removal, AllSettled, Coherent, NamesAreUnique, DistinctPlaces, TemplatesDepend, DependencyClosed,
      IsKahnOrder;
    var done := run.visits[..n];
    ApplyOrderIsTopological(rs, run.order);
    UpdatesSettle(env, rs, run.order, c, done);
    UpdatesStayStored(env, rs, run.order, c, done);
    assert run.visits[..|run.visits|] == run.visits;
    if Visits(env, rs, c, run).verdict.Aborted? {
      AbortKeepsStored(env, rs, run.order, c, run.visits);
    } else {
      VisitedIsClosed(rs, run.order, n);
      DeletionsKeepSettled(env, rs, Visits(env, rs, c, run).c, run.deletions, run.removals, Visited(run.order, n));
    }
  }

  lemma DeletionsKeepSettled(env: Env, rs: seq<Resource>, c: Config, deletions: seq<string>, answers: seq<Answer>,
                             some: set<nat>)
    requires TemplatesDepend(rs) && DependencyClosed(rs, some) && Coherent(rs, c.live) && c.stored == c.live
    requires AllSettled(env.x, rs, c.live, some) && |answers| <= |deletions|
    requires IsDeleteOrder(c.live, StaleKeys(c.live, rs), deletions)
    ensures Coherent(rs, Removals(env, deletions, c, answers).c.stored)
    ensures AllSettled(env.x, rs, Removals(env, deletions, c, answers).c.stored, some)
  {
    hide Removals;
    var stored := Removals(env, deletions, c, answers).c.stored;
    forall i: nat | i < |rs| ensures SameEntry(c.live, stored, EffectiveName(rs[i])) {
      DeletionsAreStale(rs, c.live, deletions, i);
      RemovalsStoreFrame(env, deletions, c, answers, EffectiveName(rs[i]));
    }
    SettledTogether(env.x, rs, c.live, stored, some);
  }

  /**
   * Resume after abort. Wherever the first run ended, a rerun from the stored state passes over every resource
   * whose visit had been completed, even if the apply order and the failures of the rerun differ: that visit asks
   * nothing, changes nothing and saves nothing.
   */
  lemma ResumeRepeatsNothing(env: Env, rs: seq<Resource>, c: Config, first: Run, n: nat, again: Config, second: Run,
                             k: nat)
    requires WellDeclared(rs) && Coherent(rs, c.live) && env.writing && c.stored == c.live
    requires IsRun(env, rs, c, first) && Completes(env, rs, c, first, n)
    requires again.live == Outcome(env, rs, c, first).c.stored
    requires IsRun(env, rs, again, second) && k < |second.visits|
    requires second.order[k] in Visited(first.order, n)
    ensures var before := Updates(env, rs, second.order, again, second.visits[..k]).c;
      Visit(env, rs[second.order[k]], before, second.visits[k]) == Step(before, Fine)
  {
    var some := Visited(first.order, n);
    StoredIsSettled(env, rs, c, first, n);
    VisitedIsClosed(rs, first.order, n);
    UpdatesPassOver(env, rs, second.order, again, second.visits[..k], some);
    var before := Updates(env, rs, second.order, again, second.visits[..k]).c;
    VisitKeepsSettled(env, rs, second.order[k], before, second.visits[k], some);
  }

  /** While saves succeed, what is stored is what is in memory, at every point of the run and at its end. */
  lemma {:induction false} StoredFollowsLive(env: Env, rs: seq<Resource>, c: Config, run: Run)
    requires env.writing && c.stored == c.live && Indexes(rs, run)
    requires forall k :: 0 <= k < |run.visits| ==> run.visits[k].saved
    requires forall k :: 0 <= k < |run.removals| ==> run.removals[k].saved
    ensures Outcome(env, rs, c, run).c.stored == Outcome(env, rs, c, run).c.live
  {
    VisitsStoreLive(env, rs, run.order, c, run.visits);
    var visited := Visits(env, rs, c, run);
    if !visited.verdict.Aborted? {
      RemovalsStoreLive(env, run.deletions, visited.c, run.removals);
    }
  }

  lemma {:induction false} VisitsStoreLive(env: Env, rs: seq<Resource>, order: seq<nat>, c: Config,
                                           answers: seq<Answer>)
    requires env.writing && c.stored == c.live && |answers| <= |order| && InRange(order, |rs|)
    requires forall k :: 0 <= k < |answers| ==> answers[k].saved
    ensures Updates(env, rs, order, c, answers).c.stored == Updates(env, rs, order, c, answers).c.live
  {
    hide Visit;
    if answers != [] {
      var n := |answers| - 1;
      VisitsStoreLive(env, rs, order, c, answers[..n]);
      VisitStoresLive(env, rs[order[n]], Updates(env, rs, order, c, answers[..n]).c, answers[n]);
    }
  }

  lemma VisitStoresLive(env: Env, r: Resource, c: Config, a: Answer)
    requires env.writing && c.stored == c.live && a.saved
    ensures Visit(env, r, c, a).c.stored == Visit(env, r, c, a).c.live
  {
    hide Resolve, RequestFor, EffectiveName, Place;
  }

  lemma {:induction false} RemovalsStoreLive(env: Env, keys: seq<string>, c: Config, answers: seq<Answer>)
    requires env.writing && c.stored == c.live && |answers| <= |keys|
    requires forall k :: 0 <= k < |answers| ==> answers[k].saved
    ensures Removals(env, keys, c, answers).c.stored == Removals(env, keys, c, answers).c.live
  {
    if answers != [] {
      RemovalsStoreLive(env, keys, c, answers[..|answers| - 1]);
    }
  }
}
