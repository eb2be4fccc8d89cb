/** A resource whose path and data both change under one name: the old place is left as it is, and forgotten. */
module Moving {
  import opened Types
  import opened Templates
  import opened Graph
  import opened Ordering
  import opened DeleteOrder
  import opened Lint
  import opened Reconciler
  import opened Settling
  import opened Rerun
  import opened Delivery
  import opened Deletions

  /** No resource in the list is at this place. */
  ghost predicate IsElsewhere(rs: seq<Resource>, was: Resource) {
    forall j :: 0 <= j < |rs| ==> PlaceOf(rs[j]) != PlaceOf(was)
  }

  /** An entry that a visit leaves at another place than its own was there, and is as it was. */
  lemma VisitReturnsNothing(env: Env, r: Resource, c: Config, a: Answer, was: Resource, key: string)
    requires PlaceOf(r) != PlaceOf(was)
    requires var after := Visit(env, r, c, a).c.live; key in after && MatchesPlace(after[key], was)
    ensures SameEntry(c.live, Visit(env, r, c, a).c.live, key)
  {
    hide Visit, EffectiveName, Place;
    if key == EffectiveName(r) {
      VisitRecordsPlace(env, r, c, a);
    } else {
      VisitAddsNoOther(env, r, c, a, key);
    }
  }

  lemma {:induction false} NothingReturns(env: Env, rs: seq<Resource>, order: seq<nat>, c: Config, answers: seq<Answer>,
                                          m: nat, was: Resource, key: string)
    requires IsElsewhere(rs, was) && InRange(order, |rs|) && m <= |answers| <= |order|
    requires var after := Updates(env, rs, order, c, answers).c.live; key in after && MatchesPlace(after[key], was)
    ensures SameEntry(Updates(env, rs, order, c, answers[..m]).c.live, Updates(env, rs, order, c, answers).c.live, key)
  {
    hide Visit, Place;
    assert answers[..|answers|] == answers;
    if m < |answers| {
      var n := |answers| - 1;
      var before := Updates(env, rs, order, c, answers[..n]);
      if !before.verdict.Aborted? {
        VisitReturnsNothing(env, rs[order[n]], before.c, answers[n], was, key);
      }
      NothingReturns(env, rs, order, c, answers[..n], m, was, key);
      assert answers[..n][..m] == answers[..m];
    }
  }

  /** An entry at a place where no resource is stays until the visit of the resource with its name. */
  lemma {:induction false} StaysUntilVisit(env: Env, rs: seq<Resource>, order: seq<nat>, c: Config,
                                           answers: seq<Answer>, was: Resource, key: string)
    requires IsElsewhere(rs, was) && InRange(order, |rs|) && |answers| <= |order|
    requires key in c.live && MatchesPlace(c.live[key], was)
    requires forall k :: 0 <= k < |answers| ==> EffectiveName(rs[order[k]]) != key
    ensures SameEntry(c.live, Updates(env, rs, order, c, answers).c.live, key)
  {
    hide Visit, EffectiveName, Place;
    if answers != [] {
      var n := |answers| - 1;
      var before := Updates(env, rs, order, c, answers[..n]);
      StaysUntilVisit(env, rs, order, c, answers[..n], was, key);
      if !before.verdict.Aborted? {
        VisitTouches(env, rs[order[n]], before.c, answers[n], key);
      }
    }
  }

  /** A visit that finds its name with another digest sends the data and records its own place. */
  lemma ChangedVisitRecordsPlace(env: Env, r: Resource, c: Config, a: Answer)
    requires Visit(env, r, c, a).verdict.Fine? && EffectiveName(r) in c.live
    requires var data := Resolve(env.x, r.data, c.live);
      data.Some? ==> c.live[EffectiveName(r)].dataDigest != Digest(env.x, r, data.value)
    ensures Asks(env, r, c, a)
    ensures var after := Visit(env, r, c, a).c.live;
      EffectiveName(r) in after && MatchesPlace(after[EffectiveName(r)], r)
  {
    hide Resolve, RequestFor, EffectiveName, NormalizeNamespace, NormalizePath;
  }

  /** What has happened to a resource that was recorded at a place where nothing is declared any more. */
  ghost predicate IsMovedAway(rs: seq<Resource>, r: Resource, live: Registry, was: Resource) {
    && IsElsewhere(rs, was)
    && EffectiveName(r) in live && MatchesPlace(live[EffectiveName(r)], was)
    && (forall key :: key in live && MatchesPlace(live[key], was) ==> key == EffectiveName(r))
  }

  lemma NameBeforeOwnVisit(env: Env, rs: seq<Resource>, c: Config, run: Run, q: nat, was: Resource)
    requires NamesAreUnique(rs) && Indexes(rs, run) && Distinct(run.order) && q < |run.visits|
    requires IsMovedAway(rs, rs[run.order[q]], c.live, was)
    ensures SameEntry(c.live, Updates(env, rs, run.order, c, run.visits[..q]).c.live, EffectiveName(rs[run.order[q]]))
  {
    hide Updates, EffectiveName, Place;
    forall k | 0 <= k < q ensures EffectiveName(rs[run.order[k]]) != EffectiveName(rs[run.order[q]]) {
      assert run.order[k] != run.order[q];
    }
    StaysUntilVisit(env, rs, run.order, c, run.visits[..q], was, EffectiveName(rs[run.order[q]]));
  }

  /**
   * A clean run sends a resource whose path and data have changed to its new place, does not delete the old one, and
   * does not record it any more. So no later run deletes it either, until something is declared there again.
   */
  lemma MovedAndChangedLeavesOldPlace(env: Env, rs: seq<Resource>, c: Config, run: Run, q: nat, was: Resource)
    requires NamesAreUnique(rs) && IsCleanRun(env, rs, c, run) && q < |run.visits|
    requires IsMovedAway(rs, rs[run.order[q]], c.live, was)
    requires forall name :: !Mentions(rs[run.order[q]].data, name)
    requires c.live[EffectiveName(rs[run.order[q]])].dataDigest != PlainDigest(env.x, rs[run.order[q]])
    ensures var end := Outcome(env, rs, c, run).c;
      && AsksAt(env, rs, c, run, q)
      && !PlaceIsDeleted(end.requests, |c.requests|, was)
      && forall key :: key in end.live ==> !MatchesPlace(end.live[key], was)
  {
    hide Updates, Removals, Visit, Resolve, EffectiveName, Place, NamesAreUnique, IsKahnOrder, IsDeleteOrder,
      PlaceIsDeleted, Mentions, Asks;
    var r, name := rs[run.order[q]], EffectiveName(rs[run.order[q]]);
    var before, end := Updates(env, rs, run.order, c, run.visits[..q]), Outcome(env, rs, c, run).c;
    ApplyOrderIsTopological(rs, run.order);
    FineStep(env, rs, run.order, c, run.visits, q);
    TemplateFreeDataIsUnchanged(env.x, r.data, before.c.live);
    NameBeforeOwnVisit(env, rs, c, run, q, was);
    ChangedVisitRecordsPlace(env, r, before.c, run.visits[q]);
    assert name in CurrentKeys(rs);
    PlaceIsSafe(env, rs, c, run, was);
    RemovalsOnlyRemove(env, run.deletions, Visits(env, rs, c, run).c, run.removals);
    forall key | key in end.live ensures !MatchesPlace(end.live[key], was) {
      if MatchesPlace(end.live[key], was) {
        NothingReturns(env, rs, run.order, c, run.visits, 0, was, key);
        NoVisits(env, rs, run.order, c);
        assert run.visits[..0] == [];
        NothingReturns(env, rs, run.order, c, run.visits, q + 1, was, key);
      }
    }
  }

  /** A place that no entry records is deleted by no run of any list. */
  lemma ForgottenPlaceIsSafe(env: Env, rs: seq<Resource>, c: Config, run: Run, was: Resource)
    requires IsRun(env, rs, c, run) && forall key :: key in c.live ==> !MatchesPlace(c.live[key], was)
    ensures !PlaceIsDeleted(Outcome(env, rs, c, run).c.requests, |c.requests|, was)
  {
    hide Updates, Removals, Place, PlaceIsDeleted, IsRun;
    PlaceIsSafe(env, rs, c, run, was);
  }
}
