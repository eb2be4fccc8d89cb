/** Which places a run deletes: exactly, and as far as a caller can tell beforehand. */
module Deletions {
  import opened Wrappers
  import opened Strings
  import opened Types
  import opened Templates
  import opened Graph
  import opened Ordering
  import opened DeleteOrder
  import opened Lint
  import opened Reconciler
  import opened Settling
  import opened Rerun
  import opened KeySet
  import opened Delivery

  // ---------------------------------------------------------------- taking over

  /** The visit moves the entry under this key to the resource's own name. */
  predicate TakesOver(env: Env, r: Resource, c: Config, a: Answer, key: string) {
    var data := Resolve(env.x, r.data, c.live);
    data.Some? && a.pick == Some(key) && Migrates(c.live, r, Digest(env.x, r, data.value), a.pick)
  }

  /** Under any other name a visit keeps every entry but the one it takes over. */
  lemma VisitKeepsUnlessTaken(env: Env, r: Resource, c: Config, a: Answer, key: string)
    requires key in c.live && key != EffectiveName(r)
    ensures key in Visit(env, r, c, a).c.live <==> !TakesOver(env, r, c, a, key)
    ensures !TakesOver(env, r, c, a, key) ==> SameEntry(c.live, Visit(env, r, c, a).c.live, key)
  {
    hide Resolve, RequestFor, EffectiveName, Place;
  }

  predicate TakenAt(env: Env, rs: seq<Resource>, order: seq<nat>, c: Config, answers: seq<Answer>, q: nat, key: string)
    requires q < |answers| <= |order| && InRange(order, |rs|)
  {
    var before := Updates(env, rs, order, c, answers[..q]);
    !before.verdict.Aborted? && TakesOver(env, rs[order[q]], before.c, answers[q], key)
  }

  ghost predicate IsTaken(env: Env, rs: seq<Resource>, order: seq<nat>, c: Config, answers: seq<Answer>, key: string)
    requires |answers| <= |order| && InRange(order, |rs|)
  {
    exists q: nat :: q < |answers| && TakenAt(env, rs, order, c, answers, q, key)
  }

  lemma TakenOneMore(env: Env, rs: seq<Resource>, order: seq<nat>, c: Config, answers: seq<Answer>, key: string)
    requires 0 < |answers| <= |order| && InRange(order, |rs|)
    ensures var n := |answers| - 1;
      IsTaken(env, rs, order, c, answers, key) <==>
      IsTaken(env, rs, order, c, answers[..n], key) || TakenAt(env, rs, order, c, answers, n, key)
  {
    hide TakesOver, Updates;
    var n := |answers| - 1;
    forall q: nat | q < n
      ensures TakenAt(env, rs, order, c, answers, q, key) <==> TakenAt(env, rs, order, c, answers[..n], q, key)
    {
      assert answers[..n][..q] == answers[..q];
    }
  }

  /** Keys without a resource: what the visits leave of them is what was there and was not taken over. */
  lemma {:induction false} UndeclaredStaysUnlessTaken(env: Env, rs: seq<Resource>, order: seq<nat>, c: Config,
                                                      answers: seq<Answer>, key: string)
    requires |answers| <= |order| && InRange(order, |rs|) && key in c.live && key !in CurrentKeys(rs)
    ensures var after := Updates(env, rs, order, c, answers).c.live;
      && (key in after <==> !IsTaken(env, rs, order, c, answers, key))
      && (key in after ==> after[key] == c.live[key])
  {
    hide Visit, TakesOver, EffectiveName, IsTaken;
    if answers == [] {
      NothingTakenYet(env, rs, order, c, key);
    } else {
      var n := |answers| - 1;
      var before := Updates(env, rs, order, c, answers[..n]);
      UndeclaredStaysUnlessTaken(env, rs, order, c, answers[..n], key);
      TakenOneMore(env, rs, order, c, answers, key);
      assert EffectiveName(rs[order[n]]) in CurrentKeys(rs);
      if !before.verdict.Aborted? {
        if key in before.c.live {
          VisitKeepsUnlessTaken(env, rs[order[n]], before.c, answers[n], key);
        } else if key in Visit(env, rs[order[n]], before.c, answers[n]).c.live {
          VisitAddsNoOther(env, rs[order[n]], before.c, answers[n], key);
        }
      }
    }
  }

  lemma NothingTakenYet(env: Env, rs: seq<Resource>, order: seq<nat>, c: Config, key: string)
    requires InRange(order, |rs|)
    ensures !IsTaken(env, rs, order, c, [], key)
  {
  }

  // ---------------------------------------------------------------- what is deleted

  /** The keys without a resource that no visit takes over. */
  ghost function Remaining(env: Env, rs: seq<Resource>, c: Config, run: Run): (keys: set<string>)
    requires Indexes(rs, run)
    ensures keys <= c.live.Keys - CurrentKeys(rs)
  {
    set key | key in c.live && key !in CurrentKeys(rs) && !IsTaken(env, rs, run.order, c, run.visits, key)
  }

  lemma StaleIsRemaining(env: Env, rs: seq<Resource>, c: Config, run: Run)
    requires Indexes(rs, run)
    ensures var visited, remaining := Visits(env, rs, c, run).c.live, Remaining(env, rs, c, run);
      && StaleKeys(visited, rs) == remaining
      && (forall key :: key in remaining ==> visited[key] == c.live[key])
      && StaleGraph(visited, remaining) == StaleGraph(c.live, remaining)
  {
    hide IsTaken, Updates;
    UpdatesAddCurrent(env, rs, run.order, c, run.visits);
    forall key | key in c.live && key !in CurrentKeys(rs)
      ensures var visited := Visits(env, rs, c, run).c.live;
        && (key in visited <==> !IsTaken(env, rs, run.order, c, run.visits, key))
        && (key in visited ==> visited[key] == c.live[key])
    {
      UndeclaredStaysUnlessTaken(env, rs, run.order, c, run.visits, key);
    }
  }

  /** Exactly which keys are put up for deletion, in terms of the state the run started from. */
  lemma DeletedIff(env: Env, rs: seq<Resource>, c: Config, run: Run, key: string)
    requires IsRun(env, rs, c, run) && !Visits(env, rs, c, run).verdict.Aborted?
    ensures var remaining := Remaining(env, rs, c, run);
      key in run.deletions <==> key in remaining && !ReachesCycle(StaleGraph(c.live, remaining), key)
  {
    hide Remaining, Updates, IsApplyOrder, ReachesCycle;
    StaleIsRemaining(env, rs, c, run);
    var remaining := Remaining(env, rs, c, run);
    assert key in run.deletions ==> key in StaleGraph(c.live, remaining);
  }

  /** The request deletes the resource's place, in whatever spelling. */
  ghost predicate IsDeleteAt(request: Request, r: Resource) {
    exists e: StateResource :: MatchesPlace(e, r) && request == DeleteRequest(e)
  }

  /** From position `begin` on the resource's place is deleted. */
  ghost predicate PlaceIsDeleted(requests: seq<Request>, begin: nat, r: Resource) {
    exists k: nat :: begin <= k < |requests| && IsDeleteAt(requests[k], r)
  }

  lemma TrimLeftOfMore(s: string, c: char)
    ensures TrimLeft([c] + s, c) == TrimLeft(s, c)
  {
    assert ([c] + s)[1..] == s;
  }

  lemma {:induction false} TrimLeftKeepsEnd(s: string, c: char)
    requires s != "" && s[|s| - 1] != c
    ensures TrimLeft(s, c) != "" && TrimLeft(s + [c], c) == TrimLeft(s, c) + [c]
    ensures TrimLeft(s, c)[|TrimLeft(s, c)| - 1] != c
  {
    if s[0] == c {
      TrimLeftKeepsEnd(s[1..], c);
      assert (s + [c])[1..] == s[1..] + [c];
    }
  }

  lemma TrimmedNamespace(ns: string)
    requires ns != ""
    ensures var t := TrimSuffix(ns, SLASH);
      NormalizeNamespace(ns) ==
      if t == "" then "" else if t[|t| - 1] == SLASH then NormalizeNamespace(ns) else NormalizeNamespace(t)
    ensures var t := TrimSuffix(ns, SLASH); t != "" && t[|t| - 1] == SLASH ==> ns == t + [SLASH]
  {
    var t := TrimSuffix(ns, SLASH);
    if t == ns {
    } else {
      assert ns == t + [SLASH];
      if t == "" {
        assert TrimLeft("", SLASH) == "" && TrimLeft([SLASH] + "", SLASH) == TrimLeft("", SLASH) by {
          TrimLeftOfMore("", SLASH);
        }
      } else if t[|t| - 1] != SLASH {
        TrimLeftKeepsEnd(t, SLASH);
      }
    }
  }

  lemma SameTargetSamePlace(ns: string, path: string, ns': string, path': string)
    requires ClientNamespace(ns) == ClientNamespace(ns') && TrimPrefix(path, SLASH) == TrimPrefix(path', SLASH)
    ensures Place(ns, path) == Place(ns', path')
  {
    if ns != "" {
      TrimmedNamespace(ns);
      TrimmedNamespace(ns');
    }
    PathOfTrimmed(path);
    PathOfTrimmed(path');
  }

  lemma PathOfTrimmed(path: string)
    ensures NormalizePath(path) == NormalizePath(TrimPrefix(path, SLASH))
  {
    if path != "" && path[0] == SLASH {
      assert path == [SLASH] + path[1..];
      TrimLeftOfMore(path[1..], SLASH);
    }
  }

  /** A delete request tells the place it is for. */
  lemma DeleteTellsPlace(e: StateResource, r: Resource)
    ensures IsDeleteAt(DeleteRequest(e), r) <==> MatchesPlace(e, r)
  {
    if IsDeleteAt(DeleteRequest(e), r) {
      var e': StateResource :| MatchesPlace(e', r) && DeleteRequest(e) == DeleteRequest(e');
      SameTargetSamePlace(e.namespace, e.path, e'.namespace, e'.path);
    }
  }

  lemma {:induction false} VisitsDeleteNothing(rs: seq<Resource>, order: seq<nat>, requests: seq<Request>)
    requires InRange(order, |rs|) && AreVisitRequests(rs, order, requests)
    ensures forall k :: 0 <= k < |requests| ==> !requests[k].Delete?
    decreases |order|
  {
    if order != [] {
      var n := |order| - 1;
      if AreVisitRequests(rs, order[..n], requests) {
        VisitsDeleteNothing(rs, order[..n], requests);
      } else {
        VisitsDeleteNothing(rs, order[..n], requests[..|requests| - 1]);
      }
    }
  }

  lemma DeletesComeLast(begin: seq<Request>, asked: seq<Request>, deleted: seq<Request>, k: nat) returns (d: nat)
    requires |begin| <= k < |begin + asked + deleted| && (begin + asked + deleted)[k].Delete?
    requires forall i :: 0 <= i < |asked| ==> !asked[i].Delete?
    ensures d < |deleted| && deleted[d] == (begin + asked + deleted)[k] && k == |begin| + |asked| + d
  {
    d := k - |begin| - |asked|;
  }

  /** On every run, aborted or not, each delete is of an entry without a resource that was there from the beginning. */
  lemma DeletesAreOfUndeclared(env: Env, rs: seq<Resource>, c: Config, run: Run, k: nat) returns (key: string)
    requires IsRun(env, rs, c, run)
    requires var requests := Outcome(env, rs, c, run).c.requests; |c.requests| <= k < |requests| && requests[k].Delete?
    ensures key in Remaining(env, rs, c, run) && key in run.deletions
    ensures Outcome(env, rs, c, run).c.requests[k] == DeleteRequest(c.live[key])
  {
    hide Updates, Removals, IsApplyOrder, DependsOn, AreVisitRequests, IsTaken, IsDeleteOrder, Remaining, DeleteRequest;
    var asked, deleted := CallDiscipline(env, rs, c, run);
    VisitsDeleteNothing(rs, run.order[..|run.visits|], asked);
    var d := DeletesComeLast(c.requests, asked, deleted, k);
    key := run.deletions[d];
    DeletedIff(env, rs, c, run, key);
    StaleIsRemaining(env, rs, c, run);
    assert key in StaleKeys(Visits(env, rs, c, run).c.live, rs);
  }

  /** A run that is not aborted deletes each of the keys put up for deletion. */
  lemma DeletesAll(env: Env, rs: seq<Resource>, c: Config, run: Run, key: string) returns (k: nat)
    requires IsRun(env, rs, c, run) && !Outcome(env, rs, c, run).verdict.Aborted? && key in run.deletions
    ensures key in c.live
    ensures var requests := Outcome(env, rs, c, run).c.requests;
      |c.requests| <= k < |requests| && requests[k] == DeleteRequest(c.live[key])
  {
    hide Updates, Removals, IsApplyOrder, DependsOn, AreVisitRequests, IsTaken, IsDeleteOrder, Remaining, DeleteRequest;
    var asked, deleted := CallDiscipline(env, rs, c, run);
    var d :| 0 <= d < |run.deletions| && run.deletions[d] == key;
    DeletedIff(env, rs, c, run, key);
    StaleIsRemaining(env, rs, c, run);
    assert key in StaleKeys(Visits(env, rs, c, run).c.live, rs);
    k := |c.requests| + |asked| + d;
    assert (c.requests + asked + deleted)[k] == deleted[d];
  }

  /**
   * The place of a resource is deleted exactly when some entry without a resource is recorded there, was taken over by
   * no visit, and reaches no cycle of recorded dependencies.
   */
  lemma PlaceIsDeletedIff(env: Env, rs: seq<Resource>, c: Config, run: Run, r: Resource)
    requires IsRun(env, rs, c, run) && !Outcome(env, rs, c, run).verdict.Aborted?
    ensures var remaining := Remaining(env, rs, c, run);
      PlaceIsDeleted(Outcome(env, rs, c, run).c.requests, |c.requests|, r) <==>
      exists key :: key in remaining && MatchesPlace(c.live[key], r) &&
        !ReachesCycle(StaleGraph(c.live, remaining), key)
  {
    hide Updates, Removals, IsApplyOrder, IsTaken, IsDeleteOrder, Remaining, DeleteRequest, ReachesCycle, Place;
    var remaining, requests := Remaining(env, rs, c, run), Outcome(env, rs, c, run).c.requests;
    if PlaceIsDeleted(requests, |c.requests|, r) {
      var k: nat :| |c.requests| <= k < |requests| && IsDeleteAt(requests[k], r);
      OnlyDeletesDelete(requests[k], r);
      var key := DeletesAreOfUndeclared(env, rs, c, run, k);
      DeleteTellsPlace(c.live[key], r);
      DeletedIff(env, rs, c, run, key);
    }
    if key :| key in remaining && MatchesPlace(c.live[key], r) && !ReachesCycle(StaleGraph(c.live, remaining), key) {
      DeletedIff(env, rs, c, run, key);
      var k := DeletesAll(env, rs, c, run, key);
      DeleteTellsPlace(c.live[key], r);
    }
  }

  lemma OnlyDeletesDelete(request: Request, r: Resource)
    requires IsDeleteAt(request, r)
    ensures request.Delete?
  {
  }

  /**
   * What a caller can check: as long as the state has no entry without a resource at a place, no run deletes that
   * place, whatever happens, aborted or not.
   */
  lemma PlaceIsSafe(env: Env, rs: seq<Resource>, c: Config, run: Run, r: Resource)
    requires IsRun(env, rs, c, run)
    requires forall key :: key in c.live && key !in CurrentKeys(rs) ==> !MatchesPlace(c.live[key], r)
    ensures !PlaceIsDeleted(Outcome(env, rs, c, run).c.requests, |c.requests|, r)
  {
    hide Updates, Removals, IsApplyOrder, IsTaken, IsDeleteOrder, Remaining, DeleteRequest, Place;
    var requests := Outcome(env, rs, c, run).c.requests;
    forall k: nat | |c.requests| <= k < |requests| ensures !IsDeleteAt(requests[k], r) {
      if IsDeleteAt(requests[k], r) {
        OnlyDeletesDelete(requests[k], r);
        var key := DeletesAreOfUndeclared(env, rs, c, run, k);
        DeleteTellsPlace(c.live[key], r);
      }
    }
  }
  // ---------------------------------------------------------------- deleted once

  lemma GoneAfterRemoval(env: Env, gone: string, key: string, c: Config, a: Answer)
    requires env.writing
    requires (gone !in c.live && gone !in c.stored) || (key == gone && IsGone(a.reply) && a.saved)
    ensures var after := Removal(env, key, c, a).c; gone !in after.live && gone !in after.stored
  {
  }

  /** A key removed and saved is not stored again by the deletions after it. */
  lemma {:induction false} GoneStaysGone(env: Env, keys: seq<string>, c: Config, answers: seq<Answer>, k: nat)
    requires env.writing && k < |answers| <= |keys| && IsGone(answers[k].reply) && answers[k].saved
    requires !Removals(env, keys, c, answers[..k]).verdict.Aborted?
    ensures keys[k] !in Removals(env, keys, c, answers).c.live && keys[k] !in Removals(env, keys, c, answers).c.stored
  {
    hide Removal;
    var n := |answers| - 1;
    if k < n {
      assert answers[..n][..k] == answers[..k];
      GoneStaysGone(env, keys, c, answers[..n], k);
    }
    GoneAfterRemoval(env, keys[k], keys[n], Removals(env, keys, c, answers[..n]).c, answers[n]);
  }

  /**
   * Wherever the first run ended, a rerun from what was stored does not delete again what the first deleted and saved:
   * the key is neither in the state nor among those put up for deletion.
   */
  lemma SavedDeletionIsFinal(env: Env, rs: seq<Resource>, c: Config, first: Run, k: nat, again: Config, second: Run)
    requires env.writing && IsRun(env, rs, c, first) && !Visits(env, rs, c, first).verdict.Aborted?
    requires k < |first.removals| && IsGone(first.removals[k].reply) && first.removals[k].saved
    requires !Removals(env, first.deletions, Visits(env, rs, c, first).c, first.removals[..k]).verdict.Aborted?
    requires again.live == Outcome(env, rs, c, first).c.stored && IsRun(env, rs, again, second)
    ensures first.deletions[k] !in again.live && first.deletions[k] !in second.deletions
  {
    hide Updates, Removals, IsTaken, IsApplyOrder, ReachesCycle, IsDeleteOrder;
    GoneStaysGone(env, first.deletions, Visits(env, rs, c, first).c, first.removals, k);
    if !Visits(env, rs, again, second).verdict.Aborted? {
      DeletedIff(env, rs, again, second, first.deletions[k]);
    }
  }

  // ---------------------------------------------------------------- as far as a caller can tell

  /** The recorded dependencies of keys without a resource have no cycle. */
  ghost predicate NoStaleCycle(rs: seq<Resource>, live: Registry) {
    forall key :: key in StaleKeys(live, rs) ==> !ReachesCycle(StaleGraph(live, StaleKeys(live, rs)), key)
  }

  /** Fewer keys, fewer cycles. */
  lemma SubgraphReachesLess(live: Registry, some: set<string>, all: set<string>, key: string)
    requires some <= all <= live.Keys && ReachesCycle(StaleGraph(live, some), key)
    ensures ReachesCycle(StaleGraph(live, all), key)
  {
    var g, g' := StaleGraph(live, some), StaleGraph(live, all);
    var p: seq<string>, i: nat, j: nat :| IsWalk(g, p) && p[0] == key && i < j < |p| && p[i] == p[j];
    forall k | 0 < k < |p| ensures p[k] in g'[p[k - 1]] {
      assert p[k] in g[p[k - 1]];
    }
    assert IsWalk(g', p);
  }

  /** This entry without a resource is at the resource's place. */
  predicate IsOldEntry(rs: seq<Resource>, r: Resource, live: Registry, key: string) {
    key in live && key !in CurrentKeys(rs) && MatchesPlace(live[key], r)
  }

  /**
   * There is an old entry at the resource's place, and it will not be taken over: the name is recorded already, or the
   * digest is another one, or there are several old entries, of which only one can be taken over.
   */
  ghost predicate IsLeftBehind(rs: seq<Resource>, r: Resource, live: Registry, digest: string) {
    exists key :: IsOldEntry(rs, r, live, key) &&
      (EffectiveName(r) in live || live[key].dataDigest != digest ||
       exists other :: IsOldEntry(rs, r, live, other) && other != key)
  }

  /** A declared name is recorded before its visit exactly if it was at the beginning, with the same entry. */
  lemma NameBeforeVisit(env: Env, rs: seq<Resource>, order: seq<nat>, c: Config, answers: seq<Answer>, q: nat)
    requires NamesAreUnique(rs) && DistinctPlaces(rs) && Coherent(rs, c.live)
    requires Distinct(order) && InRange(order, |rs|) && q <= |answers| <= |order| && q < |order|
    ensures SameEntry(c.live, Updates(env, rs, order, c, answers[..q]).c.live, EffectiveName(rs[order[q]]))
  {
    hide Updates, Coherent, DistinctPlaces;
    forall k | 0 <= k < q ensures EffectiveName(rs[order[k]]) != EffectiveName(rs[order[q]]) {
      assert order[k] != order[q];
    }
    if EffectiveName(rs[order[q]]) in c.live {
      NoVisits(env, rs, order, c);
      assert answers[..q][..0] == [];
      RecordedSince(env, rs, order, c, answers[..q], 0, order[q]);
    }
    if EffectiveName(rs[order[q]]) in Updates(env, rs, order, c, answers[..q]).c.live {
      EntryWasThere(env, rs, order, c, answers[..q], EffectiveName(rs[order[q]]));
    }
  }

  /** Only the resource at a place takes over an old entry there, so it is there until that resource is visited. */
  lemma OldEntryBeforeVisit(env: Env, rs: seq<Resource>, order: seq<nat>, c: Config, answers: seq<Answer>, q: nat,
                            key: string)
    requires DistinctPlaces(rs) && Distinct(order) && InRange(order, |rs|) && q < |answers| <= |order|
    requires IsOldEntry(rs, rs[order[q]], c.live, key)
    ensures key in Updates(env, rs, order, c, answers[..q]).c.live
    ensures Updates(env, rs, order, c, answers[..q]).c.live[key] == c.live[key]
    ensures IsTaken(env, rs, order, c, answers, key) <==> TakenAt(env, rs, order, c, answers, q, key)
  {
    hide Updates, EffectiveName, Place, CurrentKeys;
    forall p: nat | p < |answers| && p != q ensures !TakenAt(env, rs, order, c, answers, p, key) {
      UndeclaredStaysUnlessTaken(env, rs, order, c, answers[..p], key);
      assert order[p] != order[q] && PlaceOf(rs[order[p]]) != PlaceOf(rs[order[q]]);
    }
    UndeclaredStaysUnlessTaken(env, rs, order, c, answers[..q], key);
    forall p: nat | p < q ensures !TakenAt(env, rs, order, c, answers[..q], p, key) {
      assert answers[..q][..p] == answers[..p];
      assert !TakenAt(env, rs, order, c, answers, p, key);
    }
  }

  /** Before its visit, what is at the place of a resource without an entry of its own are the old entries. */
  lemma PickIsOldEntry(env: Env, rs: seq<Resource>, order: seq<nat>, c: Config, answers: seq<Answer>, q: nat,
                       key: string)
    requires NamesAreUnique(rs) && DistinctPlaces(rs) && Coherent(rs, c.live)
    requires Distinct(order) && InRange(order, |rs|) && q < |answers| <= |order|
    requires EffectiveName(rs[order[q]]) !in c.live
    requires var before := Updates(env, rs, order, c, answers[..q]).c.live;
      key in before && MatchesPlace(before[key], rs[order[q]])
    ensures IsOldEntry(rs, rs[order[q]], c.live, key) &&
      c.live[key] == Updates(env, rs, order, c, answers[..q]).c.live[key]
  {
    hide Updates, EffectiveName, Place, NamesAreUnique, DistinctPlaces, Coherent;
    StaysCoherent(env, rs, order, c, answers[..q]);
    KnownFromTheBeginning(env, rs, order, c, answers, q, key);
  }

  /** With one choice of entry, the visit takes over the entry it was pointed to, or none. */
  lemma TakenMeans(env: Env, rs: seq<Resource>, c: Config, run: Run, q: nat, key: string, digest: string)
    requires NamesAreUnique(rs) && DistinctPlaces(rs) && Coherent(rs, c.live)
    requires Indexes(rs, run) && Distinct(run.order) && q < |run.visits|
    requires PicksRightly(env, rs, run.order, c, run.visits)
    requires !Updates(env, rs, run.order, c, run.visits[..q]).verdict.Aborted?
    requires var data := Resolve(env.x, rs[run.order[q]].data, Updates(env, rs, run.order, c, run.visits[..q]).c.live);
      data.Some? && digest == Digest(env.x, rs[run.order[q]], data.value)
    requires IsOldEntry(rs, rs[run.order[q]], c.live, key)
    ensures var r, pick := rs[run.order[q]], run.visits[q].pick;
      && (IsTaken(env, rs, run.order, c, run.visits, key) <==>
          EffectiveName(r) !in c.live && pick == Some(key) && c.live[key].dataDigest == digest)
      && (EffectiveName(r) !in c.live ==> pick.Some? && IsOldEntry(rs, r, c.live, pick.value))
  {
    hide Updates, Resolve, EffectiveName, Place, NamesAreUnique, DistinctPlaces, Coherent, CurrentKeys, IsTaken;
    var before := Updates(env, rs, run.order, c, run.visits[..q]).c;
    OldEntryBeforeVisit(env, rs, run.order, c, run.visits, q, key);
    NameBeforeVisit(env, rs, run.order, c, run.visits, q);
    if EffectiveName(rs[run.order[q]]) !in c.live {
      assert IsRightPick(env, rs[run.order[q]], before, run.visits[q]);
      PickIsOldEntry(env, rs, run.order, c, run.visits, q, run.visits[q].pick.value);
    }
  }

  /** The digest of data that no template makes depend on the state. */
  function PlainDigest(x: Externals, r: Resource): string {
    Digest(x, r, r.data)
  }

  /**
   * For data without templates a caller can tell beforehand: the place of a declared resource is deleted exactly when
   * an entry is left behind there.
   */
  lemma DeclaredPlaceIsDeletedIff(env: Env, rs: seq<Resource>, c: Config, run: Run, q: nat)
    requires NamesAreUnique(rs) && DistinctPlaces(rs) && Coherent(rs, c.live) && NoStaleCycle(rs, c.live)
    requires IsRun(env, rs, c, run) && !Outcome(env, rs, c, run).verdict.Aborted?
    requires PicksRightly(env, rs, run.order, c, run.visits)
    requires q < |run.visits| && forall name :: !Mentions(rs[run.order[q]].data, name)
    ensures var r := rs[run.order[q]];
      PlaceIsDeleted(Outcome(env, rs, c, run).c.requests, |c.requests|, r) <==>
      IsLeftBehind(rs, r, c.live, PlainDigest(env.x, r))
  {
    hide Updates, Removals, Resolve, EffectiveName, Place, NamesAreUnique, DistinctPlaces, Coherent, CurrentKeys,
      IsTaken, IsKahnOrder, IsDeleteOrder, PicksRightly, PlaceIsDeleted, Remaining, ReachesCycle, Mentions;
    var r := rs[run.order[q]];
    NotAbortedBefore(env, rs, run.order, c, run.visits, q);
    TemplateFreeDataIsUnchanged(env.x, r.data, Updates(env, rs, run.order, c, run.visits[..q]).c.live);
    ApplyOrderIsTopological(rs, run.order);
    PlaceIsDeletedIff(env, rs, c, run, r);
    forall key | IsOldEntry(rs, r, c.live, key)
      ensures key in Remaining(env, rs, c, run) <==> !IsTaken(env, rs, run.order, c, run.visits, key)
      ensures !ReachesCycle(StaleGraph(c.live, Remaining(env, rs, c, run)), key)
    {
      RemainingIff(env, rs, c, run, key);
    }
    forall key | IsOldEntry(rs, r, c.live, key)
      ensures var pick := run.visits[q].pick;
        && (IsTaken(env, rs, run.order, c, run.visits, key) <==>
            EffectiveName(r) !in c.live && pick == Some(key) && c.live[key].dataDigest == PlainDigest(env.x, r))
        && (EffectiveName(r) !in c.live ==> pick.Some? && IsOldEntry(rs, r, c.live, pick.value))
    {
      TakenMeans(env, rs, c, run, q, key, PlainDigest(env.x, r));
    }
  }

  lemma RemainingIff(env: Env, rs: seq<Resource>, c: Config, run: Run, key: string)
    requires Indexes(rs, run) && NoStaleCycle(rs, c.live) && key in c.live && key !in CurrentKeys(rs)
    ensures key in Remaining(env, rs, c, run) <==> !IsTaken(env, rs, run.order, c, run.visits, key)
    ensures !ReachesCycle(StaleGraph(c.live, Remaining(env, rs, c, run)), key)
  {
    hide IsTaken, ReachesCycle;
    var remaining := Remaining(env, rs, c, run);
    if ReachesCycle(StaleGraph(c.live, remaining), key) {
      SubgraphReachesLess(c.live, remaining, StaleKeys(c.live, rs), key);
    }
  }
  // ---------------------------------------------------------------- sent and then deleted

  /** The visit sends a request. */
  predicate Asks(env: Env, r: Resource, c: Config, a: Answer) {
    Visit(env, r, c, a).c.requests != c.requests
  }

  /** A visit without failure asks unless it finds the digest under the resource's name or takes an entry over. */
  lemma FineVisitAsksIff(env: Env, r: Resource, c: Config, a: Answer)
    requires Visit(env, r, c, a).verdict.Fine?
    ensures Resolve(env.x, r.data, c.live).Some?
    ensures var digest := Digest(env.x, r, Resolve(env.x, r.data, c.live).value);
      Asks(env, r, c, a) <==> !UpToDate(c.live, r, digest) && !Migrates(c.live, r, digest, a.pick)
  {
    hide Resolve, RequestFor, EffectiveName, Place;
  }

  /** Every request of the visits was made by a visit of a resource that it is for. */
  lemma {:induction false} RequestOrigin(env: Env, rs: seq<Resource>, order: seq<nat>, c: Config, answers: seq<Answer>,
                                         k: nat)
      returns (p: nat)
    requires |answers| <= |order| && InRange(order, |rs|)
    requires |c.requests| <= k < |Updates(env, rs, order, c, answers).c.requests|
    ensures p < |answers| && !Updates(env, rs, order, c, answers[..p]).verdict.Aborted?
    ensures Asks(env, rs[order[p]], Updates(env, rs, order, c, answers[..p]).c, answers[p])
    ensures IsFor(Updates(env, rs, order, c, answers).c.requests[k], rs[order[p]])
  {
    hide Reconciler.Visit, IsFor;
    var n := |answers| - 1;
    var before := Updates(env, rs, order, c, answers[..n]);
    var asked := [];
    if !before.verdict.Aborted? {
      asked := VisitRequest(env, rs[order[n]], before.c, answers[n]);
    }
    if k < |before.c.requests| {
      p := RequestOrigin(env, rs, order, c, answers[..n], k);
      assert answers[..n][..p] == answers[..p];
    } else {
      p := n;
    }
  }

  /** A request for the resource is followed by the given one. */
  ghost predicate IsSentBefore(requests: seq<Request>, begin: nat, r: Resource, later: Request) {
    exists i: nat, j: nat :: begin <= i < j < |requests| && IsFor(requests[i], r) && requests[j] == later
  }

  /** The resource is sent, and afterwards its place is deleted. */
  ghost predicate IsSentThenDeleted(requests: seq<Request>, begin: nat, r: Resource) {
    exists request: Request :: IsDeleteAt(request, r) && IsSentBefore(requests, begin, r, request)
  }

  predicate AsksAt(env: Env, rs: seq<Resource>, c: Config, run: Run, q: nat)
    requires Indexes(rs, run) && q < |run.visits|
  {
    Asks(env, rs[run.order[q]], Updates(env, rs, run.order, c, run.visits[..q]).c, run.visits[q])
  }

  /** The requests of a run that is not aborted: those of the visits, none of them a delete, then deletes only. */
  lemma VisitsThenDeletes(env: Env, rs: seq<Resource>, c: Config, run: Run)
    requires IsRun(env, rs, c, run) && !Outcome(env, rs, c, run).verdict.Aborted?
    ensures var visited, requests := Visits(env, rs, c, run).c.requests, Outcome(env, rs, c, run).c.requests;
      && |c.requests| <= |visited| && visited <= requests
      && (forall k :: |c.requests| <= k < |requests| ==> (requests[k].Delete? <==> k >= |visited|))
  {
    hide Updates, Removals, IsApplyOrder, AreVisitRequests, DeleteRequest, IsKahnOrder;
    var visited := Visits(env, rs, c, run).c;
    assert run.order[..|run.visits|] == run.order;
    var asked := UpdateRequests(env, rs, run.order, c, run.visits);
    VisitsDeleteNothing(rs, run.order, asked);
    DeletesOnce(visited.live, StaleKeys(visited.live, rs), run.deletions);
    var deleted := RemovalRequests(env, run.deletions, visited, run.removals);
    DeleteRequestsDelete(visited.live, run.deletions, deleted);
  }

  lemma DeletesOnce(live: Registry, stale: set<string>, deletions: seq<string>)
    requires IsDeleteOrder(live, stale, deletions)
    ensures Distinct(deletions)
  {
  }

  lemma DeleteRequestsDelete(live: Registry, keys: seq<string>, requests: seq<Request>)
    requires |requests| <= |keys|
    requires forall k :: 0 <= k < |requests| ==> requests[k] == DeleteRequest(EntryAt(live, keys[k]))
    ensures forall k :: 0 <= k < |requests| ==> requests[k].Delete?
  {
  }

  /** Asked for at its visit, the resource is sent before every delete. */
  lemma AskedIsSentBefore(env: Env, rs: seq<Resource>, c: Config, run: Run, q: nat, j: nat)
    requires IsRun(env, rs, c, run) && !Outcome(env, rs, c, run).verdict.Aborted? && q < |run.visits|
    requires AsksAt(env, rs, c, run, q)
    requires var requests := Outcome(env, rs, c, run).c.requests; |c.requests| <= j < |requests| && requests[j].Delete?
    ensures IsSentBefore(Outcome(env, rs, c, run).c.requests, |c.requests|, rs[run.order[q]],
      Outcome(env, rs, c, run).c.requests[j])
  {
    hide Removals, Reconciler.Visit, IsApplyOrder, IsFor, IsDeleteOrder;
    var r, before := rs[run.order[q]], Updates(env, rs, run.order, c, run.visits[..q]);
    VisitsThenDeletes(env, rs, c, run);
    NotAbortedBefore(env, rs, run.order, c, run.visits, q);
    var asked := VisitRequest(env, r, before.c, run.visits[q]);
    assert run.visits[..q + 1][..q] == run.visits[..q];
    RequestsGrow(env, rs, run.order, c, run.visits, q + 1);
    RequestsGrow(env, rs, run.order, c, run.visits[..q], 0);
    assert run.visits[..q][..0] == [];
    NoVisits(env, rs, run.order, c);
    assert Outcome(env, rs, c, run).c.requests[|before.c.requests|] == asked[0];
  }

  /** A resource is sent and its place then deleted exactly when its visit asks and its place is deleted. */
  lemma SentThenDeletedIff(env: Env, rs: seq<Resource>, c: Config, run: Run, q: nat)
    requires DistinctPlaces(rs) && IsRun(env, rs, c, run) && !Outcome(env, rs, c, run).verdict.Aborted? &&
      q < |run.visits|
    ensures var requests, r := Outcome(env, rs, c, run).c.requests, rs[run.order[q]];
      IsSentThenDeleted(requests, |c.requests|, r) <==>
      AsksAt(env, rs, c, run, q) && PlaceIsDeleted(requests, |c.requests|, r)
  {
    hide Updates, Removals, Asks, IsFor, IsDeleteAt, IsDeleteOrder, IsKahnOrder;
    var requests, r := Outcome(env, rs, c, run).c.requests, rs[run.order[q]];
    VisitsThenDeletes(env, rs, c, run);
    ApplyOrderIsTopological(rs, run.order);
    if IsSentThenDeleted(requests, |c.requests|, r) {
      var request: Request :| IsDeleteAt(request, r) && IsSentBefore(requests, |c.requests|, r, request);
      var i: nat, j: nat :| |c.requests| <= i < j < |requests| && IsFor(requests[i], r) && requests[j] == request;
      NoDeleteIsFor(requests[i], r);
      var p := RequestOrigin(env, rs, run.order, c, run.visits, i);
      ForOnePlace(requests[i], r, rs[run.order[p]]);
      assert run.order[p] == run.order[q];
    }
    if AsksAt(env, rs, c, run, q) && PlaceIsDeleted(requests, |c.requests|, r) {
      var j: nat :| |c.requests| <= j < |requests| && IsDeleteAt(requests[j], r);
      OnlyDeletesDelete(requests[j], r);
      AskedIsSentBefore(env, rs, c, run, q, j);
    }
  }

  lemma NoDeleteIsFor(request: Request, r: Resource)
    requires IsFor(request, r)
    ensures !request.Delete?
  {
  }

  lemma ForOnePlace(request: Request, r: Resource, r': Resource)
    requires IsFor(request, r) && IsFor(request, r')
    ensures PlaceOf(r) == PlaceOf(r')
  {
    SameTargetSamePlace(r.namespace, r.path, r'.namespace, r'.path);
  }

  /** No entry at the resource's place carries the digest of these data. */
  ghost predicate IsNewToPlace(x: Externals, r: Resource, live: Registry, data: Value) {
    forall key :: key in live && MatchesPlace(live[key], r) ==> live[key].dataDigest != Digest(x, r, data)
  }

  /** What a visit asks for, seen from the state the run started from. */
  lemma NewToPlaceAsks(env: Env, rs: seq<Resource>, c: Config, run: Run, q: nat, data: Value)
    requires NamesAreUnique(rs) && DistinctPlaces(rs) && Coherent(rs, c.live)
    requires IsCleanRun(env, rs, c, run) && q < |run.visits|
    requires Resolve(env.x, rs[run.order[q]].data, Updates(env, rs, run.order, c, run.visits[..q]).c.live) == Some(data)
    requires IsNewToPlace(env.x, rs[run.order[q]], c.live, data)
    ensures AsksAt(env, rs, c, run, q)
  {
    hide Updates, Resolve, EffectiveName, Place, NamesAreUnique, DistinctPlaces, Asks, IsKahnOrder;
    var r, before := rs[run.order[q]], Updates(env, rs, run.order, c, run.visits[..q]).c;
    ApplyOrderIsTopological(rs, run.order);
    FineStep(env, rs, run.order, c, run.visits, q);
    FineVisitAsksIff(env, r, before, run.visits[q]);
    NameBeforeVisit(env, rs, run.order, c, run.visits, q);
    StaysCoherent(env, rs, run.order, c, run.visits[..q]);
    var pick := run.visits[q].pick;
    if pick.Some? && pick.value in before.live && MatchesPlace(before.live[pick.value], r) {
      KnownFromTheBeginning(env, rs, run.order, c, run.visits, q, pick.value);
    }
  }

  /**
   * A resource that is renamed and given new data in one go is sent, and the place of the old entry, its own, is
   * deleted in the same run: the old key is stale.
   */
  lemma RenamedAndChangedIsDeleted(env: Env, rs: seq<Resource>, c: Config, run: Run, q: nat, oldKey: string)
    requires WellDeclared(rs) && Coherent(rs, c.live) && IsCleanRun(env, rs, c, run) && q < |run.visits|
    requires IsOldEntry(rs, rs[run.order[q]], c.live, oldKey)
    requires !ReachesCycle(StaleGraph(c.live, StaleKeys(c.live, rs)), oldKey)
    requires var data := Resolve(env.x, rs[run.order[q]].data, Outcome(env, rs, c, run).c.live);
      data.Some? ==> IsNewToPlace(env.x, rs[run.order[q]], c.live, data.value)
    ensures IsSentBefore(Outcome(env, rs, c, run).c.requests, |c.requests|, rs[run.order[q]],
      DeleteRequest(c.live[oldKey]))
  {
    hide Updates, Removals, Resolve, EffectiveName, Place, NamesAreUnique, DistinctPlaces, TemplatesDepend, Coherent,
      IsTaken, IsKahnOrder, IsApplyOrder, Remaining, ReachesCycle, DeleteRequest, AsksAt, IsSentBefore;
    var r := rs[run.order[q]];
    SentOrKnown(env, rs, c, run, q);
    var data := Resolve(env.x, r.data, Outcome(env, rs, c, run).c.live).value;
    ResolvedAtVisit(env, rs, c, run, q);
    NewToPlaceAsks(env, rs, c, run, q, data);
    ApplyOrderIsTopological(rs, run.order);
    NotTakenIfNew(env, rs, c, run, q, oldKey, data);
    NotTakenRemains(env, rs, c, run, oldKey);
    DeletedIff(env, rs, c, run, oldKey);
    var j := DeletesAll(env, rs, c, run, oldKey);
    DeleteTellsPlace(c.live[oldKey], r);
    OnlyDeletesDelete(DeleteRequest(c.live[oldKey]), r);
    AskedIsSentBefore(env, rs, c, run, q, j);
  }

  lemma NotTakenIfNew(env: Env, rs: seq<Resource>, c: Config, run: Run, q: nat, oldKey: string, data: Value)
    requires DistinctPlaces(rs) && Indexes(rs, run) && Distinct(run.order) && q < |run.visits|
    requires IsOldEntry(rs, rs[run.order[q]], c.live, oldKey) && IsNewToPlace(env.x, rs[run.order[q]], c.live, data)
    requires Resolve(env.x, rs[run.order[q]].data, Updates(env, rs, run.order, c, run.visits[..q]).c.live) == Some(data)
    ensures !IsTaken(env, rs, run.order, c, run.visits, oldKey)
  {
    hide Updates, Resolve, EffectiveName, Place, DistinctPlaces, IsTaken;
    OldEntryBeforeVisit(env, rs, run.order, c, run.visits, q, oldKey);
  }

  lemma NotTakenRemains(env: Env, rs: seq<Resource>, c: Config, run: Run, key: string)
    requires Indexes(rs, run) && key in c.live && key !in CurrentKeys(rs)
    requires !IsTaken(env, rs, run.order, c, run.visits, key)
    requires !ReachesCycle(StaleGraph(c.live, StaleKeys(c.live, rs)), key)
    ensures key in Remaining(env, rs, c, run) && !ReachesCycle(StaleGraph(c.live, Remaining(env, rs, c, run)), key)
  {
    hide IsTaken, ReachesCycle;
    var remaining := Remaining(env, rs, c, run);
    if ReachesCycle(StaleGraph(c.live, remaining), key) {
      SubgraphReachesLess(c.live, remaining, StaleKeys(c.live, rs), key);
    }
  }

  ghost predicate IsOnlyOldEntry(rs: seq<Resource>, r: Resource, live: Registry, oldKey: string) {
    && oldKey in live
    && IsOldEntry(rs, r, live, oldKey)
    && (forall key :: IsOldEntry(rs, r, live, key) ==> key == oldKey)
  }

  /** The entry a visit compares its digest with: the resource's own if there is one, otherwise the old one. */
  function Consulted(r: Resource, live: Registry, oldKey: string): StateResource {
    EntryAt(live, if EffectiveName(r) in live then EffectiveName(r) else oldKey)
  }

  /**
   * For data without templates, and one old entry at the resource's place, a caller can tell all of it beforehand: the
   * place is deleted unless the old entry is taken over, and it is written just before exactly when the digest
   * consulted is another one.
   */
  lemma OneOldEntry(env: Env, rs: seq<Resource>, c: Config, run: Run, q: nat, oldKey: string)
    requires NamesAreUnique(rs) && DistinctPlaces(rs) && Coherent(rs, c.live) && NoStaleCycle(rs, c.live)
    requires IsCleanRun(env, rs, c, run) && PicksRightly(env, rs, run.order, c, run.visits)
    requires q < |run.visits| && forall name :: !Mentions(rs[run.order[q]].data, name)
    requires IsOnlyOldEntry(rs, rs[run.order[q]], c.live, oldKey)
    ensures var requests, r := Outcome(env, rs, c, run).c.requests, rs[run.order[q]];
      var digest := PlainDigest(env.x, r);
      && (PlaceIsDeleted(requests, |c.requests|, r) <==>
          EffectiveName(r) in c.live || c.live[oldKey].dataDigest != digest)
      && (IsSentThenDeleted(requests, |c.requests|, r) <==> Consulted(r, c.live, oldKey).dataDigest != digest)
  {
    hide Outcome, IsRun, PicksRightly, PlaceIsDeleted, IsSentThenDeleted, NamesAreUnique, DistinctPlaces, Coherent,
      Mentions, IsOldEntry, IsLeftBehind, IsKahnOrder, IsDeleteOrder, ReachesCycle, Consulted, Updates, Removals,
      PlainDigest, AsksAt, NoStaleCycle;
    CleanMeans(env, rs, c, run);
    var r := rs[run.order[q]];
    OneIsLeftBehindIff(rs, r, c.live, oldKey, PlainDigest(env.x, r));
    OneIsConsulted(rs, r, c.live, oldKey, PlainDigest(env.x, r));
    DeclaredPlaceIsDeletedIff(env, rs, c, run, q);
    SentThenDeletedIff(env, rs, c, run, q);
    AsksIffConsultedDiffers(env, rs, c, run, q, oldKey);
  }

  lemma CleanMeans(env: Env, rs: seq<Resource>, c: Config, run: Run)
    requires IsCleanRun(env, rs, c, run)
    ensures Indexes(rs, run) && IsRun(env, rs, c, run) && !Outcome(env, rs, c, run).verdict.Aborted?
  {
  }

  lemma OneIsLeftBehindIff(rs: seq<Resource>, r: Resource, live: Registry, oldKey: string, digest: string)
    requires IsOnlyOldEntry(rs, r, live, oldKey)
    ensures IsLeftBehind(rs, r, live, digest) <==> EffectiveName(r) in live || live[oldKey].dataDigest != digest
  {
    hide EffectiveName, Place, CurrentKeys;
    assert IsOldEntry(rs, r, live, oldKey);
  }

  /** Without anything left behind, the digest consulted is that of the data. */
  lemma OneIsConsulted(rs: seq<Resource>, r: Resource, live: Registry, oldKey: string, digest: string)
    requires IsOnlyOldEntry(rs, r, live, oldKey)
    ensures !IsLeftBehind(rs, r, live, digest) ==> Consulted(r, live, oldKey).dataDigest == digest
  {
    hide EffectiveName, Place, CurrentKeys;
    assert IsOldEntry(rs, r, live, oldKey);
  }

  lemma AsksIffConsultedDiffers(env: Env, rs: seq<Resource>, c: Config, run: Run, q: nat, oldKey: string)
    requires NamesAreUnique(rs) && DistinctPlaces(rs) && Coherent(rs, c.live)
    requires IsCleanRun(env, rs, c, run) && PicksRightly(env, rs, run.order, c, run.visits)
    requires q < |run.visits| && forall name :: !Mentions(rs[run.order[q]].data, name)
    requires IsOnlyOldEntry(rs, rs[run.order[q]], c.live, oldKey)
    ensures AsksAt(env, rs, c, run, q) <==>
            Consulted(rs[run.order[q]], c.live, oldKey).dataDigest != PlainDigest(env.x, rs[run.order[q]])
  {
    hide Updates, Resolve, EffectiveName, Place, NamesAreUnique, DistinctPlaces, Coherent, CurrentKeys, IsTaken,
      IsKahnOrder, IsDeleteOrder, PicksRightly, Mentions, Asks, Removals;
    var r, before := rs[run.order[q]], Updates(env, rs, run.order, c, run.visits[..q]).c;
    assert IsOldEntry(rs, r, c.live, oldKey);
    ApplyOrderIsTopological(rs, run.order);
    FineStep(env, rs, run.order, c, run.visits, q);
    FineVisitAsksIff(env, r, before, run.visits[q]);
    TemplateFreeDataIsUnchanged(env.x, r.data, before.live);
    NameBeforeVisit(env, rs, run.order, c, run.visits, q);
    TakenMeans(env, rs, c, run, q, oldKey, PlainDigest(env.x, r));
    OldEntryBeforeVisit(env, rs, run.order, c, run.visits, q, oldKey);
  }
}
