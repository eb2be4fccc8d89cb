/**
 * When a clean run records all declared names: as long as no resource takes over the entry of another. For resources
 * applied to an empty state, this is as long as no two have both place and digest in common, to which distinctness of
 * places can be relaxed.
 */
module Collisions {
  import opened Wrappers
  import opened Types
  import opened Templates
  import opened Graph
  import opened Ordering
  import opened DeleteOrder
  import opened Lint
  import opened Reconciler
  import opened Settling
  import opened Rerun
  import opened KeySet
  import opened Delivery
  import opened Deletions

  // ---------------------------------------------------------------- any state

  ghost predicate AllRecorded(rs: seq<Resource>, order: seq<nat>, live: Registry, n: nat)
    requires n <= |order| && InRange(order, |rs|)
  {
    forall k: nat :: k < n ==> EffectiveName(rs[order[k]]) in live
  }

  /** No visit takes over the entry of a resource visited before. */
  ghost predicate NoneTaken(env: Env, rs: seq<Resource>, order: seq<nat>, c: Config, answers: seq<Answer>)
    requires |answers| <= |order| && InRange(order, |rs|)
  {
    forall p: nat, q: nat :: p < q < |answers| ==> !TakenAt(env, rs, order, c, answers, q, EffectiveName(rs[order[p]]))
  }

  lemma VisitedOnce(rs: seq<Resource>, order: seq<nat>, k: nat, n: nat)
    requires NamesAreUnique(rs) && Distinct(order) && InRange(order, |rs|) && k < |order| && n < |order| && k != n
    ensures EffectiveName(rs[order[k]]) != EffectiveName(rs[order[n]])
  {
  }

  lemma NoneTakenInPrefix(env: Env, rs: seq<Resource>, order: seq<nat>, c: Config, answers: seq<Answer>, n: nat)
    requires n <= |answers| <= |order| && InRange(order, |rs|) && NoneTaken(env, rs, order, c, answers)
    ensures NoneTaken(env, rs, order, c, answers[..n])
  {
    hide Updates, TakesOver, EffectiveName;
    forall p: nat, q: nat | p < q < n
      ensures !TakenAt(env, rs, order, c, answers[..n], q, EffectiveName(rs[order[p]]))
    {
      assert answers[..n][..q] == answers[..q];
      assert !TakenAt(env, rs, order, c, answers, q, EffectiveName(rs[order[p]]));
    }
  }

  lemma {:induction false} RecordedUnlessTaken(env: Env, rs: seq<Resource>, order: seq<nat>, c: Config,
                                               answers: seq<Answer>)
    requires NamesAreUnique(rs) && Distinct(order) && InRange(order, |rs|) && |answers| <= |order|
    requires Updates(env, rs, order, c, answers).verdict.Fine? && NoneTaken(env, rs, order, c, answers)
    ensures AllRecorded(rs, order, Updates(env, rs, order, c, answers).c.live, |answers|)
  {
    hide Visit, EffectiveName, TakesOver, NamesAreUnique, Distinct;
    if answers != [] {
      var n := |answers| - 1;
      var before := Updates(env, rs, order, c, answers[..n]);
      NoneTakenInPrefix(env, rs, order, c, answers, n);
      RecordedUnlessTaken(env, rs, order, c, answers[..n]);
      forall k: nat | k < n ensures EffectiveName(rs[order[k]]) in Updates(env, rs, order, c, answers).c.live {
        VisitedOnce(rs, order, k, n);
        assert !TakenAt(env, rs, order, c, answers, n, EffectiveName(rs[order[k]]));
        VisitKeepsUnlessTaken(env, rs[order[n]], before.c, answers[n], EffectiveName(rs[order[k]]));
      }
      FineVisitRecords(env, rs[order[n]], before.c, answers[n]);
    }
  }

  /** What is taken over is lost, since its resource is not visited again. */
  lemma TakenIsLost(env: Env, rs: seq<Resource>, order: seq<nat>, c: Config, answers: seq<Answer>, p: nat, q: nat)
    requires NamesAreUnique(rs) && Distinct(order) && InRange(order, |rs|) && |answers| == |order| && p < q < |answers|
    requires Updates(env, rs, order, c, answers).verdict.Fine?
    requires TakenAt(env, rs, order, c, answers, q, EffectiveName(rs[order[p]]))
    ensures !AllRecorded(rs, order, Updates(env, rs, order, c, answers).c.live, |answers|)
  {
    hide Updates, Visit, EffectiveName, NamesAreUnique;
    var end := Updates(env, rs, order, c, answers).c.live;
    if AllRecorded(rs, order, end, |answers|) {
      OwnEntryLasts(env, rs, order, c, answers, p, q);
      OwnEntryLasts(env, rs, order, c, answers, p, q + 1);
      FineStep(env, rs, order, c, answers, q);
      VisitedOnce(rs, order, p, q);
      VisitKeepsUnlessTaken(env, rs[order[q]], Updates(env, rs, order, c, answers[..q]).c, answers[q],
        EffectiveName(rs[order[p]]));
      assert false;
    }
  }

  // ---------------------------------------------------------------- entries of visited resources

  /** The digest of the data as they resolve at the visit number `k`. */
  function DigestAt(env: Env, rs: seq<Resource>, order: seq<nat>, c: Config, answers: seq<Answer>,
                    k: nat): Option<string>
    requires k < |answers| <= |order| && InRange(order, |rs|)
  {
    match Resolve(env.x, rs[order[k]].data, Updates(env, rs, order, c, answers[..k]).c.live)
    case None => None
    case Some(data) => Some(Digest(env.x, rs[order[k]], data))
  }

  /** The entry under this key is that of the resource visited as number `k`. */
  predicate IsEntryOf(env: Env, rs: seq<Resource>, order: seq<nat>, c: Config, answers: seq<Answer>, live: Registry,
                      k: nat, key: string)
    requires k < |answers| <= |order| && InRange(order, |rs|)
  {
    && key == EffectiveName(rs[order[k]]) && key in live
    && MatchesPlace(live[key], rs[order[k]])
    && DigestAt(env, rs, order, c, answers, k) == Some(live[key].dataDigest)
  }

  lemma DigestAtOfPrefix(env: Env, rs: seq<Resource>, order: seq<nat>, c: Config, answers: seq<Answer>, n: nat, k: nat)
    requires k < n <= |answers| <= |order| && InRange(order, |rs|)
    ensures DigestAt(env, rs, order, c, answers[..n], k) == DigestAt(env, rs, order, c, answers, k)
  {
    assert answers[..n][..k] == answers[..k];
  }

  /** A visit under a new name leaves the resource an entry with its place and digest. */
  lemma FineVisitGivesEntry(env: Env, r: Resource, c: Config, a: Answer)
    requires Visit(env, r, c, a).verdict.Fine? && EffectiveName(r) !in c.live
    ensures var after, name := Visit(env, r, c, a).c.live, EffectiveName(r);
      && Resolve(env.x, r.data, c.live).Some?
      && name in after && MatchesPlace(after[name], r)
      && after[name].dataDigest == Digest(env.x, r, Resolve(env.x, r.data, c.live).value)
  {
    hide Resolve, EffectiveName, Place, Reconciler.Visit;
    FineVisitRecords(env, r, c, a);
    VisitRecordsPlace(env, r, c, a);
  }

  /** Started empty, the state holds entries of visited resources only, each with the place and digest of its own. */
  lemma {:induction false} EntriesAreOfVisited(env: Env, rs: seq<Resource>, order: seq<nat>, c: Config,
                                               answers: seq<Answer>, key: string)
      returns (k: nat)
    requires NamesAreUnique(rs) && Distinct(order) && InRange(order, |rs|) && |answers| <= |order| && c.live == map[]
    requires Updates(env, rs, order, c, answers).verdict.Fine?
    requires key in Updates(env, rs, order, c, answers).c.live
    ensures k < |answers| && IsEntryOf(env, rs, order, c, answers, Updates(env, rs, order, c, answers).c.live, k, key)
  {
    hide Visit, EffectiveName, Place, Resolve, NamesAreUnique, Distinct;
    var n := |answers| - 1;
    var before := Updates(env, rs, order, c, answers[..n]);
    var r := rs[order[n]];
    if key == EffectiveName(r) {
      if key in before.c.live {
        k := EntriesAreOfVisited(env, rs, order, c, answers[..n], key);
        VisitedOnce(rs, order, k, n);
      }
      FineVisitGivesEntry(env, r, before.c, answers[n]);
      k := n;
    } else {
      VisitAddsNoOther(env, r, before.c, answers[n], key);
      k := EntriesAreOfVisited(env, rs, order, c, answers[..n], key);
      DigestAtOfPrefix(env, rs, order, c, answers, n, k);
    }
  }

  /** Not yet visited, a resource has no entry. */
  lemma UnvisitedHasNoEntry(env: Env, rs: seq<Resource>, order: seq<nat>, c: Config, answers: seq<Answer>, n: nat)
    requires NamesAreUnique(rs) && Distinct(order) && InRange(order, |rs|) && |answers| <= n < |order| &&
      c.live == map[]
    requires Updates(env, rs, order, c, answers).verdict.Fine?
    ensures EffectiveName(rs[order[n]]) !in Updates(env, rs, order, c, answers).c.live
  {
    hide Updates, EffectiveName;
    if EffectiveName(rs[order[n]]) in Updates(env, rs, order, c, answers).c.live {
      var k := EntriesAreOfVisited(env, rs, order, c, answers, EffectiveName(rs[order[n]]));
      VisitedOnce(rs, order, k, n);
    }
  }

  // ---------------------------------------------------------------- an empty state

  /** Two visited resources have one place and one digest. */
  predicate Collide(env: Env, rs: seq<Resource>, order: seq<nat>, c: Config, answers: seq<Answer>, p: nat, q: nat)
    requires p < |answers| <= |order| && q < |answers| && InRange(order, |rs|)
  {
    && PlaceOf(rs[order[p]]) == PlaceOf(rs[order[q]])
    && DigestAt(env, rs, order, c, answers, p) == DigestAt(env, rs, order, c, answers, q)
  }

  ghost predicate NoneCollide(env: Env, rs: seq<Resource>, order: seq<nat>, c: Config, answers: seq<Answer>)
    requires |answers| <= |order| && InRange(order, |rs|)
  {
    forall p: nat, q: nat :: p < q < |answers| ==> !Collide(env, rs, order, c, answers, p, q)
  }

  /** Started empty, a visit takes over only what collides with its resource. */
  lemma TakingCollides(env: Env, rs: seq<Resource>, order: seq<nat>, c: Config, answers: seq<Answer>, p: nat, q: nat)
    requires NamesAreUnique(rs) && Distinct(order) && InRange(order, |rs|) && c.live == map[]
    requires p < q < |answers| <= |order| && Updates(env, rs, order, c, answers).verdict.Fine?
    requires TakenAt(env, rs, order, c, answers, q, EffectiveName(rs[order[p]]))
    ensures Collide(env, rs, order, c, answers, p, q)
  {
    hide Updates, Resolve, EffectiveName, Place, NamesAreUnique, Distinct;
    FinePrefix(env, rs, order, c, answers, q);
    var j := EntriesAreOfVisited(env, rs, order, c, answers[..q], EffectiveName(rs[order[p]]));
    if j != p {
      VisitedOnce(rs, order, j, p);
    }
    DigestAtOfPrefix(env, rs, order, c, answers, q, p);
  }

  // ---------------------------------------------------------------- and otherwise something is lost

  /** An entry that carries the digest is found if there is one, though others may be at the place. */
  ghost predicate PrefersMatch(env: Env, r: Resource, c: Config, a: Answer) {
    var data := Resolve(env.x, r.data, c.live);
    data.Some? && EffectiveName(r) !in c.live ==>
      forall key :: Migrates(c.live, r, Digest(env.x, r, data.value), Some(key)) ==>
        Migrates(c.live, r, Digest(env.x, r, data.value), a.pick)
  }

  ghost predicate PrefersMatches(env: Env, rs: seq<Resource>, order: seq<nat>, c: Config, answers: seq<Answer>)
    requires |answers| <= |order| && InRange(order, |rs|)
  {
    forall k {:trigger answers[..k]} :: 0 <= k < |answers| ==>
      PrefersMatch(env, rs[order[k]], Updates(env, rs, order, c, answers[..k]).c, answers[k])
  }

  /** Of two that collide, the second finds an entry to take over, if that of the first is still there. */
  lemma CollidingTakes(env: Env, rs: seq<Resource>, order: seq<nat>, c: Config, answers: seq<Answer>, p: nat, q: nat)
      returns (k: nat)
    requires NamesAreUnique(rs) && Distinct(order) && InRange(order, |rs|) && |answers| <= |order| && c.live == map[]
    requires p < q < |answers| && Updates(env, rs, order, c, answers).verdict.Fine?
    requires PrefersMatches(env, rs, order, c, answers) && Collide(env, rs, order, c, answers, p, q)
    requires EffectiveName(rs[order[p]]) in Updates(env, rs, order, c, answers[..q]).c.live
    ensures k < q && TakenAt(env, rs, order, c, answers, q, EffectiveName(rs[order[k]]))
  {
    hide Updates, Resolve, EffectiveName, Place, NamesAreUnique, Distinct;
    var r, before := rs[order[q]], Updates(env, rs, order, c, answers[..q]).c;
    FinePrefix(env, rs, order, c, answers, q);
    var j := EntriesAreOfVisited(env, rs, order, c, answers[..q], EffectiveName(rs[order[p]]));
    if j != p {
      VisitedOnce(rs, order, j, p);
    }
    DigestAtOfPrefix(env, rs, order, c, answers, q, p);
    UnvisitedHasNoEntry(env, rs, order, c, answers[..q], q);
    var digest := DigestAt(env, rs, order, c, answers, q).value;
    assert Migrates(before.live, r, digest, Some(EffectiveName(rs[order[p]])));
    assert PrefersMatch(env, r, before, answers[q]);
    k := EntriesAreOfVisited(env, rs, order, c, answers[..q], answers[q].pick.value);
  }

  lemma AllRecordedMeans(rs: seq<Resource>, order: seq<nat>, live: Registry)
    requires InRange(order, |rs|) && forall i: nat :: i < |rs| ==> i in order
    ensures AllRecorded(rs, order, live, |order|) <==> CurrentKeys(rs) <= live.Keys
  {
    hide EffectiveName;
    if AllRecorded(rs, order, live, |order|) {
      forall i: nat | i < |rs| ensures EffectiveName(rs[i]) in live {
        assert i in order;
        var k :| 0 <= k < |order| && order[k] == i;
      }
    }
    forall k: nat | k < |order| ensures EffectiveName(rs[order[k]]) in CurrentKeys(rs) {
    }
  }

  lemma DeletionKeepsDeclared(env: Env, rs: seq<Resource>, c: Config, run: Run)
    requires IsCleanRun(env, rs, c, run)
    ensures CurrentKeys(rs) <= Outcome(env, rs, c, run).c.live.Keys <==>
      CurrentKeys(rs) <= Visits(env, rs, c, run).c.live.Keys
  {
    hide Updates, Removals, EffectiveName, IsDeleteOrder;
    EntriesSurviveDeletion(env, rs, Visits(env, rs, c, run).c, run);
  }

  /**
   * Exactly when a clean run on any state records all names: as long as no visit takes over the entry of a resource
   * visited before.
   */
  lemma AllNamesRecordedIffNoneTaken(env: Env, rs: seq<Resource>, c: Config, run: Run)
    requires NamesAreUnique(rs) && IsCleanRun(env, rs, c, run)
    ensures CurrentKeys(rs) <= Outcome(env, rs, c, run).c.live.Keys <==> NoneTaken(env, rs, run.order, c, run.visits)
  {
    hide Updates, Removals, EffectiveName, TakenAt, NamesAreUnique, IsKahnOrder, IsDeleteOrder;
    ApplyOrderIsTopological(rs, run.order);
    AllRecordedMeans(rs, run.order, Visits(env, rs, c, run).c.live);
    DeletionKeepsDeclared(env, rs, c, run);
    if NoneTaken(env, rs, run.order, c, run.visits) {
      RecordedUnlessTaken(env, rs, run.order, c, run.visits);
    } else {
      var p: nat, q: nat :| p < q < |run.visits| &&
        TakenAt(env, rs, run.order, c, run.visits, q, EffectiveName(rs[run.order[p]]));
      TakenIsLost(env, rs, run.order, c, run.visits, p, q);
    }
  }

  /**
   * From an empty state: if no two resources collide, a clean run records all names; and if every visit finds an entry
   * with its digest whenever there is one at its place, then only if.
   */
  lemma AllNamesRecordedIff(env: Env, rs: seq<Resource>, c: Config, run: Run)
    requires NamesAreUnique(rs) && c.live == map[] && IsCleanRun(env, rs, c, run)
    ensures NoneCollide(env, rs, run.order, c, run.visits) ==> CurrentKeys(rs) <= Outcome(env, rs, c, run).c.live.Keys
    ensures PrefersMatches(env, rs, run.order, c, run.visits) ==>
      (CurrentKeys(rs) <= Outcome(env, rs, c, run).c.live.Keys <==> NoneCollide(env, rs, run.order, c, run.visits))
  {
    hide Updates, Removals, EffectiveName, Collide, PrefersMatches, NamesAreUnique, IsKahnOrder, IsDeleteOrder, TakenAt;
    ApplyOrderIsTopological(rs, run.order);
    AllNamesRecordedIffNoneTaken(env, rs, c, run);
    if NoneCollide(env, rs, run.order, c, run.visits) {
      forall p: nat, q: nat | p < q < |run.visits|
        ensures !TakenAt(env, rs, run.order, c, run.visits, q, EffectiveName(rs[run.order[p]]))
      {
        if TakenAt(env, rs, run.order, c, run.visits, q, EffectiveName(rs[run.order[p]])) {
          TakingCollides(env, rs, run.order, c, run.visits, p, q);
        }
      }
    } else if PrefersMatches(env, rs, run.order, c, run.visits) && NoneTaken(env, rs, run.order, c, run.visits) {
      var p: nat, q: nat :| p < q < |run.visits| && Collide(env, rs, run.order, c, run.visits, p, q);
      FirstStaysUntil(env, rs, run.order, c, run.visits, p, q);
      var k := CollidingTakes(env, rs, run.order, c, run.visits, p, q);
    }
  }

  lemma FirstStaysUntil(env: Env, rs: seq<Resource>, order: seq<nat>, c: Config, answers: seq<Answer>, p: nat, q: nat)
    requires NamesAreUnique(rs) && Distinct(order) && InRange(order, |rs|) && p < q < |answers| <= |order|
    requires Updates(env, rs, order, c, answers).verdict.Fine? && NoneTaken(env, rs, order, c, answers)
    ensures EffectiveName(rs[order[p]]) in Updates(env, rs, order, c, answers[..q]).c.live
  {
    hide Updates, TakesOver, EffectiveName, NamesAreUnique, Distinct;
    FinePrefix(env, rs, order, c, answers, q);
    NoneTakenInPrefix(env, rs, order, c, answers, q);
    RecordedUnlessTaken(env, rs, order, c, answers[..q]);
  }

  // ---------------------------------------------------------------- pairs

  /** At most two resources at any place. */
  ghost predicate AtMostPairs(rs: seq<Resource>) {
    forall i, j, k :: 0 <= i < |rs| && 0 <= j < |rs| && 0 <= k < |rs| && i != j && j != k && i != k ==>
      !(PlaceOf(rs[i]) == PlaceOf(rs[j]) == PlaceOf(rs[k]))
  }

  lemma OneOtherAtPlace(rs: seq<Resource>, order: seq<nat>, k: nat, j: nat, n: nat)
    requires AtMostPairs(rs) && Distinct(order) && InRange(order, |rs|) && k < n < |order| && j < n
    requires PlaceOf(rs[order[k]]) == PlaceOf(rs[order[j]]) == PlaceOf(rs[order[n]])
    ensures k == j
  {
  }

  /** With no more than two at a place there is no choice. */
  lemma PairsLeaveNoChoice(env: Env, rs: seq<Resource>, order: seq<nat>, c: Config, answers: seq<Answer>)
    requires NamesAreUnique(rs) && AtMostPairs(rs) && Distinct(order) && InRange(order, |rs|) && |answers| <= |order|
    requires c.live == map[] && Updates(env, rs, order, c, answers).verdict.Fine? &&
      PicksRightly(env, rs, order, c, answers)
    ensures PrefersMatches(env, rs, order, c, answers)
  {
    hide Updates, Resolve, EffectiveName, Place, NamesAreUnique;
    forall n | 0 <= n < |answers|
      ensures PrefersMatch(env, rs[order[n]], Updates(env, rs, order, c, answers[..n]).c, answers[n])
    {
      var r, before := rs[order[n]], Updates(env, rs, order, c, answers[..n]).c;
      FinePrefix(env, rs, order, c, answers, n);
      assert IsRightPick(env, r, before, answers[n]);
      if Resolve(env.x, r.data, before.live).Some? && EffectiveName(r) !in before.live {
        var digest := Digest(env.x, r, Resolve(env.x, r.data, before.live).value);
        forall key | Migrates(before.live, r, digest, Some(key)) ensures answers[n].pick == Some(key) {
          var k := EntriesAreOfVisited(env, rs, order, c, answers[..n], key);
          var j := EntriesAreOfVisited(env, rs, order, c, answers[..n], answers[n].pick.value);
          OneOtherAtPlace(rs, order, k, j, n);
        }
      }
    }
  }

  // ---------------------------------------------------------------- data without templates

  ghost predicate TemplateFree(rs: seq<Resource>) {
    forall i, name :: 0 <= i < |rs| ==> !Mentions(rs[i].data, name)
  }

  /** No two resources have both the same place and the same digest. */
  ghost predicate DistinctContents(x: Externals, rs: seq<Resource>) {
    forall i, j :: 0 <= i < j < |rs| && PlaceOf(rs[i]) == PlaceOf(rs[j]) ==>
      PlainDigest(x, rs[i]) != PlainDigest(x, rs[j])
  }

  lemma PlainDigestAt(env: Env, rs: seq<Resource>, order: seq<nat>, c: Config, answers: seq<Answer>, k: nat)
    requires TemplateFree(rs) && k < |answers| <= |order| && InRange(order, |rs|)
    ensures DigestAt(env, rs, order, c, answers, k) == Some(PlainDigest(env.x, rs[order[k]]))
  {
    TemplateFreeDataIsUnchanged(env.x, rs[order[k]].data, Updates(env, rs, order, c, answers[..k]).c.live);
  }

  lemma NoneCollideMeans(env: Env, rs: seq<Resource>, order: seq<nat>, c: Config, answers: seq<Answer>)
    requires TemplateFree(rs) && Distinct(order) && InRange(order, |rs|) && |answers| == |order|
    requires forall i: nat :: i < |rs| ==> i in order
    ensures NoneCollide(env, rs, order, c, answers) <==> DistinctContents(env.x, rs)
  {
    hide PlainDigest, Place, DigestAt, TemplateFree;
    forall k: nat | k < |answers|
      ensures DigestAt(env, rs, order, c, answers, k) == Some(PlainDigest(env.x, rs[order[k]]))
    {
      PlainDigestAt(env, rs, order, c, answers, k);
    }
    if NoneCollide(env, rs, order, c, answers) {
      forall i: nat, j: nat | i < j < |rs| && PlaceOf(rs[i]) == PlaceOf(rs[j])
        ensures PlainDigest(env.x, rs[i]) != PlainDigest(env.x, rs[j])
      {
        assert i in order && j in order;
        var p :| 0 <= p < |order| && order[p] == i;
        var q :| 0 <= q < |order| && order[q] == j;
        assert !Collide(env, rs, order, c, answers, if p < q then p else q, if p < q then q else p);
      }
    }
    if DistinctContents(env.x, rs) {
      forall p: nat, q: nat | p < q < |answers| ensures !Collide(env, rs, order, c, answers, p, q) {
        assert order[p] < order[q] || order[q] < order[p];
      }
    }
  }

  /** The answers of an outside that never fails, to visits that find a matching entry if there is one. */
  lemma {:induction false} PreferringVisits(env: Env, rs: seq<Resource>, order: seq<nat>, c: Config, n: nat)
      returns (answers: seq<Answer>)
    requires InRange(order, |rs|) && n <= |order| && TemplateFree(rs)
    requires forall i :: 0 <= i < |rs| ==> RequestFor(env.x, rs[i], rs[i].data).Some?
    ensures |answers| == n && Updates(env, rs, order, c, answers).verdict.Fine?
    ensures PicksRightly(env, rs, order, c, answers) && PrefersMatches(env, rs, order, c, answers)
  {
    hide RequestFor, EffectiveName, Place, Resolve, Visit, IsRightPick, PrefersMatch;
    if n == 0 {
      answers := [];
    } else {
      var some := PreferringVisits(env, rs, order, c, n - 1);
      var before := Updates(env, rs, order, c, some).c;
      var r := rs[order[n - 1]];
      TemplateFreeDataIsUnchanged(env.x, r.data, before.live);
      var a := PreferringAnswer(env, r, before);
      OneMoreVisit(env, rs, order, c, some, a);
      answers := some + [a];
      forall k | 0 <= k < n
        ensures PrefersMatch(env, rs[order[k]], Updates(env, rs, order, c, answers[..k]).c, answers[k])
      {
        if k < n - 1 {
          assert answers[..k] == some[..k] && answers[k] == some[k];
        } else {
          assert answers[..k] == some;
        }
      }
    }
  }

  lemma PreferringAnswer(env: Env, r: Resource, c: Config) returns (a: Answer)
    requires Resolve(env.x, r.data, c.live) == Some(r.data) && RequestFor(env.x, r, r.data).Some?
    ensures IsRightPick(env, r, c, a) && PrefersMatch(env, r, c, a) && Visit(env, r, c, a).verdict.Fine?
  {
    hide RequestFor, EffectiveName, Place, Resolve;
    var digest := Digest(env.x, r, r.data);
    var pick: Option<string> := None;
    if key :| Migrates(c.live, r, digest, Some(key)) {
      pick := Some(key);
    } else if key :| key in c.live && MatchesPlace(c.live[key], r) {
      pick := Some(key);
    }
    a := Answer(pick, Answered(Null), true);
  }

  /**
   * For data without templates a caller can tell beforehand. Every clean run on an empty state records all names
   * exactly when no two resources have both the same place and the same digest.
   */
  lemma EveryRunRecordsAllIff(env: Env, rs: seq<Resource>, c: Config, order: seq<nat>)
    requires NamesAreUnique(rs) && TemplateFree(rs) && c.live == map[] && IsApplyOrder(rs, order)
    requires forall i :: 0 <= i < |rs| ==> RequestFor(env.x, rs[i], rs[i].data).Some?
    ensures DistinctContents(env.x, rs) <==>
      forall run: Run :: IsCleanRun(env, rs, c, run) && PicksRightly(env, rs, run.order, c, run.visits) ==>
        CurrentKeys(rs) <= Outcome(env, rs, c, run).c.live.Keys
  {
    hide NamesAreUnique, TemplateFree, PicksRightly, DistinctContents, RequestFor, CurrentKeys, NoneCollide,
      PrefersMatches, Updates, Removals, IsDeleteOrder, IsKahnOrder;
    forall run: Run | IsCleanRun(env, rs, c, run) && DistinctContents(env.x, rs)
      ensures CurrentKeys(rs) <= Outcome(env, rs, c, run).c.live.Keys
    {
      CleanRunCollides(env, rs, c, run);
    }
    var run := PreferringRun(env, rs, c, order);
    CleanRunCollides(env, rs, c, run);
  }

  lemma CleanRunCollides(env: Env, rs: seq<Resource>, c: Config, run: Run)
    requires NamesAreUnique(rs) && TemplateFree(rs) && c.live == map[] && IsCleanRun(env, rs, c, run)
    ensures DistinctContents(env.x, rs) ==> CurrentKeys(rs) <= Outcome(env, rs, c, run).c.live.Keys
    ensures PrefersMatches(env, rs, run.order, c, run.visits) ==>
      (CurrentKeys(rs) <= Outcome(env, rs, c, run).c.live.Keys <==> DistinctContents(env.x, rs))
  {
    hide NamesAreUnique, TemplateFree, DistinctContents, CurrentKeys, NoneCollide, PrefersMatches, Updates, Removals,
      IsDeleteOrder, IsKahnOrder;
    ApplyOrderIsTopological(rs, run.order);
    AllNamesRecordedIff(env, rs, c, run);
    NoneCollideMeans(env, rs, run.order, c, run.visits);
  }

  lemma PreferringRun(env: Env, rs: seq<Resource>, c: Config, order: seq<nat>) returns (run: Run)
    requires NamesAreUnique(rs) && TemplateFree(rs) && c.live == map[] && IsApplyOrder(rs, order)
    requires forall i :: 0 <= i < |rs| ==> RequestFor(env.x, rs[i], rs[i].data).Some?
    ensures IsCleanRun(env, rs, c, run) && PicksRightly(env, rs, run.order, c, run.visits)
    ensures PrefersMatches(env, rs, run.order, c, run.visits)
  {
    hide NamesAreUnique, TemplateFree, CurrentKeys, PrefersMatches, Updates, IsKahnOrder, RequestFor, PicksRightly;
    OrderInRange(rs, order);
    var answers := PreferringVisits(env, rs, order, c, |order|);
    run := Run(order, answers, [], []);
    UpdatesAddCurrent(env, rs, order, c, answers);
    NothingToDelete(Visits(env, rs, c, run).c.live, rs);
  }

  lemma OrderInRange(rs: seq<Resource>, order: seq<nat>)
    requires IsApplyOrder(rs, order)
    ensures InRange(order, |rs|)
  {
    OrderIsInRange(rs, order);
  }

  /**
   * With at most two resources at a place: any second run is silent exactly when no two have place and digest in
   * common.
   */
  lemma SecondRunOfPairsIsSilentIff(env: Env, rs: seq<Resource>, c: Config, first: Run, again: Config, second: Run)
    requires NamesAreUnique(rs) && TemplateFree(rs) && AtMostPairs(rs) && c.live == map[]
    requires IsCleanRun(env, rs, c, first) && PicksRightly(env, rs, first.order, c, first.visits)
    requires again.live == Outcome(env, rs, c, first).c.live && IsRun(env, rs, again, second)
    ensures IsSilent(env, rs, again, second) <==> DistinctContents(env.x, rs)
  {
    hide NamesAreUnique, AtMostPairs, DistinctContents, CurrentKeys, PicksRightly, PrefersMatches, Updates, Removals,
      IsSilent, IsDeleteOrder, IsKahnOrder;
    ApplyOrderIsTopological(rs, first.order);
    PairsLeaveNoChoice(env, rs, first.order, c, first.visits);
    CleanRunCollides(env, rs, c, first);
    SecondRunIsSilentIff(env, rs, c, first, again, second);
  }
}
