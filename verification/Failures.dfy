/** How a run ends: which failures abort it, and which are passed over. */
module Failures {
  import opened Wrappers
  import opened Types
  import opened Graph
  import opened Ordering
  import opened DeleteOrder
  import opened Reconciler
  import opened Settling
  import opened Steps
  import opened Deletions

  // ---------------------------------------------------------------- the worst verdict

  function VisitAt(env: Env, rs: seq<Resource>, order: seq<nat>, c: Config, answers: seq<Answer>, k: nat): Step
    requires k < |answers| <= |order| && InRange(order, |rs|)
  {
    Visit(env, rs[order[k]], Updates(env, rs, order, c, answers[..k]).c, answers[k])
  }

  function RemovalAt(env: Env, keys: seq<string>, c: Config, answers: seq<Answer>, k: nat): Step
    requires k < |answers| <= |keys|
  {
    Removal(env, keys[k], Removals(env, keys, c, answers[..k]).c, answers[k])
  }

  /** Visits are without failure when each one is, and abort only with one that does. */
  lemma {:induction false} UpdatesVerdict(env: Env, rs: seq<Resource>, order: seq<nat>, c: Config, answers: seq<Answer>)
    requires |answers| <= |order| && InRange(order, |rs|)
    ensures var verdict := Updates(env, rs, order, c, answers).verdict;
      && (verdict.Fine? <==> forall k: nat :: k < |answers| ==> VisitAt(env, rs, order, c, answers, k).verdict.Fine?)
      && (verdict.Aborted? ==>
        exists k: nat :: k < |answers| && VisitAt(env, rs, order, c, answers, k).verdict.Aborted?)
      && (VisitsStop(env, rs, order, c, answers) ==>
          forall k: nat :: k < |answers| && VisitAt(env, rs, order, c, answers, k).verdict.Aborted? ==>
            verdict.Aborted?)
  {
    hide Visit;
    if answers != [] {
      var n := |answers| - 1;
      UpdatesVerdict(env, rs, order, c, answers[..n]);
      forall k: nat | k < n
        ensures VisitAt(env, rs, order, c, answers[..n], k) == VisitAt(env, rs, order, c, answers, k)
      {
        assert answers[..n][..k] == answers[..k];
      }
      var last := VisitAt(env, rs, order, c, answers, n);
      if last.verdict.Fine? && Updates(env, rs, order, c, answers[..n]).verdict.Fine? {
        forall k: nat | k < |answers| ensures VisitAt(env, rs, order, c, answers, k).verdict.Fine? {
          assert k < n ==> VisitAt(env, rs, order, c, answers[..n], k).verdict.Fine?;
        }
      } else if !Updates(env, rs, order, c, answers[..n]).verdict.Fine? {
        var k: nat :| k < n && !VisitAt(env, rs, order, c, answers[..n], k).verdict.Fine?;
        assert !VisitAt(env, rs, order, c, answers, k).verdict.Fine?;
      }
      if VisitsStop(env, rs, order, c, answers) {
        StopsBefore(env, rs, order, c, answers);
      }
    }
  }

  lemma StopsBefore(env: Env, rs: seq<Resource>, order: seq<nat>, c: Config, answers: seq<Answer>)
    requires 0 < |answers| <= |order| && InRange(order, |rs|) && VisitsStop(env, rs, order, c, answers)
    ensures VisitsStop(env, rs, order, c, answers[..|answers| - 1])
  {
    hide Visit;
    var shorter := answers[..|answers| - 1];
    if shorter != [] {
      assert shorter[..|shorter| - 1] == answers[..|shorter| - 1];
      NotAbortedBefore(env, rs, order, c, shorter, |shorter| - 1);
    }
  }

  lemma {:induction false} RemovalsVerdict(env: Env, keys: seq<string>, c: Config, answers: seq<Answer>)
    requires |answers| <= |keys|
    ensures var verdict := Removals(env, keys, c, answers).verdict;
      && (verdict.Fine? <==> forall k: nat :: k < |answers| ==> RemovalAt(env, keys, c, answers, k).verdict.Fine?)
      && (verdict.Aborted? ==> exists k: nat :: k < |answers| && RemovalAt(env, keys, c, answers, k).verdict.Aborted?)
      && (RemovalsStop(env, keys, c, answers) ==>
          forall k: nat :: k < |answers| && RemovalAt(env, keys, c, answers, k).verdict.Aborted? ==> verdict.Aborted?)
  {
    hide Removal;
    if answers != [] {
      var n := |answers| - 1;
      RemovalsVerdict(env, keys, c, answers[..n]);
      forall k: nat | k < n ensures RemovalAt(env, keys, c, answers[..n], k) == RemovalAt(env, keys, c, answers, k) {
        assert answers[..n][..k] == answers[..k];
      }
      var last := RemovalAt(env, keys, c, answers, n);
      if last.verdict.Fine? && Removals(env, keys, c, answers[..n]).verdict.Fine? {
        forall k: nat | k < |answers| ensures RemovalAt(env, keys, c, answers, k).verdict.Fine? {
          assert k < n ==> RemovalAt(env, keys, c, answers[..n], k).verdict.Fine?;
        }
      } else if !Removals(env, keys, c, answers[..n]).verdict.Fine? {
        var k: nat :| k < n && !RemovalAt(env, keys, c, answers[..n], k).verdict.Fine?;
        assert !RemovalAt(env, keys, c, answers, k).verdict.Fine?;
      }
      if Removals(env, keys, c, answers[..n]).verdict.Aborted? {
        var k: nat :| k < n && RemovalAt(env, keys, c, answers[..n], k).verdict.Aborted?;
        assert RemovalAt(env, keys, c, answers, k).verdict.Aborted?;
      }
      if n > 0 && RemovalsStop(env, keys, c, answers) {
        assert answers[..n][..n - 1] == answers[..n - 1];
      }
    }
  }

  // ---------------------------------------------------------------- whole runs

  predicate IsFineRun(env: Env, rs: seq<Resource>, c: Config, run: Run)
    requires Indexes(rs, run)
  {
    Outcome(env, rs, c, run).verdict.Fine?
  }

  /** The removal number `k` finds the entry that was there when the run began. */
  lemma RemovedEntry(env: Env, rs: seq<Resource>, c: Config, run: Run, k: nat)
    requires IsRun(env, rs, c, run) && !Visits(env, rs, c, run).verdict.Aborted? && k < |run.removals|
    ensures var key, visited := run.deletions[k], Visits(env, rs, c, run).c;
      && key in c.live && key !in CurrentKeys(rs)
      && var live := Removals(env, run.deletions, visited, run.removals[..k]).c.live;
        key in live && live[key] == c.live[key]
  {
    hide Updates, Removals, IsApplyOrder, IsTaken, ReachesCycle, EffectiveName;
    var key, visited := run.deletions[k], Visits(env, rs, c, run).c;
    DeletedIff(env, rs, c, run, key);
    StaleIsRemaining(env, rs, c, run);
    DeletesOnce(visited.live, StaleKeys(visited.live, rs), run.deletions);
    RemovalsFrame(env, run.deletions, visited, run.removals[..k], key);
    assert key in StaleKeys(visited.live, rs);
  }

  /** The visit number `k` fails, and the resource's failures are not ignored. */
  ghost predicate VisitAborts(env: Env, rs: seq<Resource>, c: Config, run: Run, k: nat)
    requires Indexes(rs, run) && k < |run.visits|
  {
    !rs[run.order[k]].ignoreFailures && !VisitAt(env, rs, run.order, c, run.visits, k).verdict.Fine?
  }

  /** The removal number `k` fails, and by the entry at the beginning its failures are not ignored. */
  ghost predicate RemovalAborts(env: Env, rs: seq<Resource>, c: Config, run: Run, k: nat)
    requires Indexes(rs, run) && k < |run.removals|
  {
    && run.deletions[k] in c.live && !c.live[run.deletions[k]].ignoreFailures
    && !RemovalAt(env, run.deletions, Visits(env, rs, c, run).c, run.removals, k).verdict.Fine?
  }

  lemma VisitAbortsIff(env: Env, rs: seq<Resource>, c: Config, run: Run, k: nat)
    requires Indexes(rs, run) && k < |run.visits|
    ensures VisitAt(env, rs, run.order, c, run.visits, k).verdict.Aborted? <==> VisitAborts(env, rs, c, run, k)
  {
    hide Visit, Updates;
    VisitVerdict(env, rs[run.order[k]], Updates(env, rs, run.order, c, run.visits[..k]).c, run.visits[k]);
  }

  lemma RemovalAbortsIff(env: Env, rs: seq<Resource>, c: Config, run: Run, k: nat)
    requires IsRun(env, rs, c, run) && !Visits(env, rs, c, run).verdict.Aborted? && k < |run.removals|
    ensures RemovalAt(env, run.deletions, Visits(env, rs, c, run).c, run.removals, k).verdict.Aborted? <==>
            RemovalAborts(env, rs, c, run, k)
  {
    hide Removal, Updates, Removals, IsApplyOrder, IsDeleteOrder;
    var visited := Visits(env, rs, c, run).c;
    RemovedEntry(env, rs, c, run, k);
    RemovalVerdict(env, run.deletions[k], Removals(env, run.deletions, visited, run.removals[..k]).c, run.removals[k]);
  }

  /**
   * Exactly when a run is aborted: at a visit or a removal that fails though its failures are not to be ignored, by the
   * resource in one case and by the entry that the run began with in the other.
   */
  lemma AbortsIff(env: Env, rs: seq<Resource>, c: Config, run: Run)
    requires IsRun(env, rs, c, run) && StopsOnAbort(env, rs, c, run)
    ensures Outcome(env, rs, c, run).verdict.Aborted? <==>
      || (exists k: nat :: k < |run.visits| && VisitAborts(env, rs, c, run, k))
      || (!Visits(env, rs, c, run).verdict.Aborted? &&
          exists k: nat :: k < |run.removals| && RemovalAborts(env, rs, c, run, k))
  {
    hide VisitAt, RemovalAt, VisitAborts, RemovalAborts, Updates, Removals, IsApplyOrder, IsDeleteOrder;
    var visited := Visits(env, rs, c, run);
    UpdatesVerdict(env, rs, run.order, c, run.visits);
    forall k: nat | k < |run.visits|
      ensures VisitAt(env, rs, run.order, c, run.visits, k).verdict.Aborted? <==> VisitAborts(env, rs, c, run, k)
    {
      VisitAbortsIff(env, rs, c, run, k);
    }
    if !visited.verdict.Aborted? {
      RemovalsVerdict(env, run.deletions, visited.c, run.removals);
      forall k: nat | k < |run.removals|
        ensures RemovalAt(env, run.deletions, visited.c, run.removals, k).verdict.Aborted? <==>
                RemovalAborts(env, rs, c, run, k)
      {
        RemovalAbortsIff(env, rs, c, run, k);
      }
    }
  }

  /** A run is clean exactly when every step of it is. */
  lemma FineIff(env: Env, rs: seq<Resource>, c: Config, run: Run)
    requires IsRun(env, rs, c, run)
    ensures IsFineRun(env, rs, c, run) <==>
      && (forall k: nat :: k < |run.visits| ==> VisitAt(env, rs, run.order, c, run.visits, k).verdict.Fine?)
      && (forall k: nat :: k < |run.removals| ==>
        RemovalAt(env, run.deletions, Visits(env, rs, c, run).c, run.removals, k).verdict.Fine?)
  {
    hide VisitAt, RemovalAt, Updates, Removals, IsApplyOrder, IsDeleteOrder;
    UpdatesVerdict(env, rs, run.order, c, run.visits);
    RemovalsVerdict(env, run.deletions, Visits(env, rs, c, run).c, run.removals);
  }

  /** If all failures are ignored, no run is aborted. */
  lemma IgnoredNeverAborts(env: Env, rs: seq<Resource>, c: Config, run: Run)
    requires IsRun(env, rs, c, run) && StopsOnAbort(env, rs, c, run)
    requires forall i :: 0 <= i < |rs| ==> rs[i].ignoreFailures
    requires forall key :: key in c.live && key !in CurrentKeys(rs) ==> c.live[key].ignoreFailures
    ensures !Outcome(env, rs, c, run).verdict.Aborted?
  {
    hide VisitAt, RemovalAt, Updates, Removals, IsApplyOrder, IsDeleteOrder, EffectiveName;
    AbortsIff(env, rs, c, run);
    if !Visits(env, rs, c, run).verdict.Aborted? {
      forall k: nat | k < |run.removals| ensures !RemovalAborts(env, rs, c, run, k) {
        RemovedEntry(env, rs, c, run, k);
      }
    }
  }

  /** If none are ignored, a run that is not aborted is clean. */
  lemma UnignoredIsFine(env: Env, rs: seq<Resource>, c: Config, run: Run)
    requires IsRun(env, rs, c, run) && StopsOnAbort(env, rs, c, run)
    requires forall i :: 0 <= i < |rs| ==> !rs[i].ignoreFailures
    requires forall key :: key in c.live && key !in CurrentKeys(rs) ==> !c.live[key].ignoreFailures
    ensures Outcome(env, rs, c, run).verdict.Aborted? || IsFineRun(env, rs, c, run)
  {
    hide VisitAt, RemovalAt, Updates, Removals, IsApplyOrder, IsDeleteOrder, EffectiveName;
    AbortsIff(env, rs, c, run);
    FineIff(env, rs, c, run);
    if !Outcome(env, rs, c, run).verdict.Aborted? {
      forall k: nat | k < |run.visits| ensures VisitAt(env, rs, run.order, c, run.visits, k).verdict.Fine? {
        assert !VisitAborts(env, rs, c, run, k);
      }
      forall k: nat | k < |run.removals|
        ensures RemovalAt(env, run.deletions, Visits(env, rs, c, run).c, run.removals, k).verdict.Fine?
      {
        RemovedEntry(env, rs, c, run, k);
        assert !RemovalAborts(env, rs, c, run, k);
      }
    }
  }
}
