/**
 * The smallest case of the main theorems, showing that their hypotheses can be met together: one resource is applied
 * to an empty state, and then renamed.
 */
module Example {
  import opened Wrappers
  import opened Types
  import opened Templates
  import opened Graph
  import opened Ordering
  import opened DeleteOrder
  import opened Reconciler
  import opened Settling
  import opened Lint
  import opened Rerun
  import opened Delivery
  import opened Deletions
  import opened Collisions
  import opened Moving
  import opened Renaming
  import opened SharedPlace

  const ONE := [FIRST]
  const RENAMED := [SECOND]
  const APPLYING := Run([0], [Answer(None, Answered(Null), true)], [], [])
  const MOVING := Run([0], [Answer(Some("a"), Broken, true)], [], [])

  function ToB(name: string): string {
    "b"
  }

  lemma NoDataMentionsNothing()
    ensures forall name :: !Mentions(NO_DATA, name)
  {
  }

  lemma OneIsWellDeclared()
    ensures WellDeclared(ONE) && WellDeclared(RENAMED)
  {
    NoDataMentionsNothing();
  }

  lemma OnlyOrder(r: Resource)
    requires r.dependencies == []
    ensures IsApplyOrder([r], [0])
  {
    var g := ResourceGraph([r]);
    assert g[0] == [] && Topological(g, [0]);
    forall i: nat | i < 1 ensures i in [0] {
      assert [0][i] == i;
    }
    TopologicalIsApplyOrder([r], [0]);
  }

  /** Hypotheses and conclusion of the silent second run and of the delivery theorem. */
  lemma ApplyingIsClean(env: Env)
    ensures WellDeclared(ONE) && Coherent(ONE, NOTHING.live)
    ensures IsCleanRun(env, ONE, NOTHING, APPLYING)
    ensures PicksRightly(env, ONE, APPLYING.order, NOTHING, APPLYING.visits)
    ensures Outcome(env, ONE, NOTHING, APPLYING).c.live == map["a" := Entry(env.x)]
  {
    hide Visit, IsRightPick, IsApplyOrder, IsDeleteOrder, Updates;
    OneIsWellDeclared();
    OnlyOrder(FIRST);
    FirstVisit(env);
    NoVisits(env, ONE, [0], NOTHING);
    OneMoreVisit(env, ONE, [0], NOTHING, [], APPLYING.visits[0]);
    assert [] + APPLYING.visits == APPLYING.visits == [] + [APPLYING.visits[0]];
    assert EffectiveName(FIRST) == "a" && EffectiveName(ONE[0]) in CurrentKeys(ONE);
    NothingToDelete(Visits(env, ONE, NOTHING, APPLYING).c.live, ONE);
  }

  /** Hypotheses of the renaming theorem, and a run it speaks of. */
  lemma MovingIsARenaming(env: Env, c: Config)
    requires c.live == map["a" := Entry(env.x)]
    ensures IsSettledRenaming(env.x, ToB, ONE, RENAMED, c.live)
    ensures IsRun(env, RENAMED, c, MOVING) && PicksRightly(env, RENAMED, MOVING.order, c, MOVING.visits)
  {
    hide Visit, IsRightPick, IsApplyOrder, IsDeleteOrder, Updates;
    OneIsWellDeclared();
    NothingToResolve(env.x, c.live);
    NoDataMentionsNothing();
    assert EffectiveName(FIRST) == "a" && EffectiveName(SECOND) == "b" && "a" != "b";
    assert RenameValue(ToB, NO_DATA) == NO_DATA;
    assert IsRenamed(ToB, FIRST, SECOND);
    assert EffectiveName(ONE[0]) in CurrentKeys(ONE) && EffectiveName(RENAMED[0]) in CurrentKeys(RENAMED);
    OnlyOrder(SECOND);
    SecondVisit(env, c);
    NoVisits(env, RENAMED, [0], c);
    SecondVisitAlone(env, c);
    NothingToDelete(Visits(env, RENAMED, c, MOVING).c.live, RENAMED);
  }

  lemma SecondVisitAlone(env: Env, c: Config)
    requires c.live == map["a" := Entry(env.x)]
    ensures Visits(env, RENAMED, c, MOVING).verdict.Fine?
    ensures Visits(env, RENAMED, c, MOVING).c.live == map["b" := Entry(env.x)]
    ensures PicksRightly(env, RENAMED, MOVING.order, c, MOVING.visits)
  {
    hide Visit, IsRightPick, Updates;
    SecondVisit(env, c);
    NoVisits(env, RENAMED, [0], c);
    OneMoreVisit(env, RENAMED, [0], c, [], MOVING.visits[0]);
    assert [] + [MOVING.visits[0]] == MOVING.visits;
  }
  // ---------------------------------------------------------------- old entries

  /** Nothing found, and all went well. */
  const DONE := Answer(None, Answered(Null), true)
  const SENDING := Run([0], [Answer(Some("a"), Answered(Null), true)], ["a"], [DONE])
  const DROPPING := Run([0], [Answer(None, Broken, true)], ["a"], [DONE])

  /** An entry at the same place, with the digest of other data. */
  ghost function OtherEntry(x: Externals): (e: StateResource)
    ensures e.dataDigest != PlainDigest(x, SECOND) && e.dependencies == [] && MatchesPlace(e, SECOND)
  {
    Entry(x).(dataDigest := PlainDigest(x, SECOND) + "x")
  }

  lemma SingleKey(live: Registry, key: string)
    requires key in live && live[key].dependencies == []
    ensures IsDeleteOrder(live, {key}, [key]) && !ReachesCycle(StaleGraph(live, {key}), key)
  {
    var g := StaleGraph(live, {key});
    assert g[key] == [] && Topological(g, [key]);
    assert [key][0] == key;
    ListedNodesReachNoCycle(g, [key], key);
  }

  /** What is left when "b" alone is declared and "a" is an old entry at its place. */
  lemma OldA(live: Registry)
    requires live.Keys == {"a"} || live.Keys == {"a", "b"}
    requires live["a"].dependencies == [] && MatchesPlace(live["a"], SECOND)
    ensures StaleKeys(live, RENAMED) == {"a"} && NoStaleCycle(RENAMED, live)
    ensures IsOnlyOldEntry(RENAMED, SECOND, live, "a")
  {
    assert EffectiveName(SECOND) == "b" && EffectiveName(RENAMED[0]) in CurrentKeys(RENAMED) && "a" != "b";
    SingleKey(live, "a");
  }

  /** Renamed and changed: "b" is written to the place that the entry of "a" names, and that entry is then deleted. */
  lemma RenamedAndChanged(env: Env, c: Config)
    requires c.live == map["a" := OtherEntry(env.x)]
    ensures WellDeclared(RENAMED) && Coherent(RENAMED, c.live) && NoStaleCycle(RENAMED, c.live)
    ensures IsCleanRun(env, RENAMED, c, SENDING) && PicksRightly(env, RENAMED, SENDING.order, c, SENDING.visits)
    ensures IsSentThenDeleted(Outcome(env, RENAMED, c, SENDING).c.requests, |c.requests|, SECOND)
  {
    hide Visit, IsRightPick, IsApplyOrder, IsDeleteOrder, Updates, Removal, IsSentThenDeleted, NoStaleCycle,
      IsOnlyOldEntry;
    OneIsWellDeclared();
    OnlyOrder(SECOND);
    NoDataMentionsNothing();
    assert EffectiveName(SECOND) == "b" && "a" != "b";
    OldA(c.live);
    SendingVisit(env, c);
    SingleKey(c.live["b" := Recorded(SECOND, PlainDigest(env.x, SECOND), Null)], "a");
    OldA(Visits(env, RENAMED, c, SENDING).c.live);
    RemovalOfOne(env, "a", Visits(env, RENAMED, c, SENDING).c, SENDING.removals);
    OneOldEntry(env, RENAMED, c, SENDING, 0, "a");
  }

  lemma RemovalOfOne(env: Env, key: string, c: Config, removals: seq<Answer>)
    requires removals == [DONE]
    ensures Removals(env, [key], c, removals).verdict.Fine?
    ensures Removals(env, [key], c, removals).c.live == c.live - {key}
    ensures Removals(env, [key], c, removals).c.requests == c.requests + [DeleteRequest(EntryAt(c.live, key))]
  {
    assert removals[..0] == [];
    assert Removals(env, [key], c, removals[..0]) == Step(c, Fine);
  }

  lemma SendingVisit(env: Env, c: Config)
    requires c.live == map["a" := OtherEntry(env.x)]
    ensures Visits(env, RENAMED, c, SENDING).verdict.Fine?
    ensures Visits(env, RENAMED, c, SENDING).c.live == c.live["b" := Recorded(SECOND, PlainDigest(env.x, SECOND), Null)]
    ensures PicksRightly(env, RENAMED, SENDING.order, c, SENDING.visits)
  {
    NothingToResolve(env.x, c.live);
    assert EffectiveName(SECOND) == "b" && "a" != "b";
    NoVisits(env, RENAMED, [0], c);
    OneMoreVisit(env, RENAMED, [0], c, [], SENDING.visits[0]);
    assert [] + [SENDING.visits[0]] == SENDING.visits;
  }

  /**
   * "b" is up to date, and an old entry is still at its place: the place is deleted, and "b" goes on being recorded.
   */
  lemma UpToDateAndDeleted(env: Env, c: Config)
    requires c.live == map["a" := OtherEntry(env.x), "b" := Recorded(SECOND, PlainDigest(env.x, SECOND), Null)]
    ensures WellDeclared(RENAMED) && Coherent(RENAMED, c.live) && NoStaleCycle(RENAMED, c.live)
    ensures IsCleanRun(env, RENAMED, c, DROPPING) && PicksRightly(env, RENAMED, DROPPING.order, c, DROPPING.visits)
    ensures var end := Outcome(env, RENAMED, c, DROPPING).c;
      && end.requests == c.requests + [Delete(None, "p")]
      && UpToDate(end.live, SECOND, PlainDigest(env.x, SECOND))
      && PlaceIsDeleted(end.requests, |c.requests|, SECOND)
  {
    hide Visit, IsRightPick, IsApplyOrder, IsDeleteOrder, Updates, Removal, NoStaleCycle, IsOnlyOldEntry,
      PlaceIsDeleted;
    OneIsWellDeclared();
    OnlyOrder(SECOND);
    NoDataMentionsNothing();
    assert EffectiveName(SECOND) == "b" && "a" != "b";
    OldA(c.live);
    QuietVisit(env, c);
    SingleKey(c.live, "a");
    RemovalOfOne(env, "a", c, DROPPING.removals);
    OneOldEntry(env, RENAMED, c, DROPPING, 0, "a");
  }

  lemma QuietVisit(env: Env, c: Config)
    requires UpToDate(c.live, SECOND, PlainDigest(env.x, SECOND))
    ensures Visits(env, RENAMED, c, DROPPING) == Step(c, Fine)
    ensures PicksRightly(env, RENAMED, DROPPING.order, c, DROPPING.visits)
  {
    NothingToResolve(env.x, c.live);
    NoVisits(env, RENAMED, [0], c);
    OneMoreVisit(env, RENAMED, [0], c, [], DROPPING.visits[0]);
    assert [] + [DROPPING.visits[0]] == DROPPING.visits;
  }

  // ---------------------------------------------------------------- a changed path

  const ELSEWHERE := FIRST.(path := "q")
  const WATCHING := Run([0], [Answer(None, Broken, true)], [], [])

  /** The path of an applied resource is changed: there are runs, and all of them do nothing. */
  lemma ChangedPathIsNotNoticed(env: Env, c: Config)
    requires c.live == map["a" := Entry(env.x)]
    ensures PlaceOf(ELSEWHERE) != PlaceOf(FIRST) && MatchesPlace(c.live["a"], FIRST)
    ensures IsRun(env, [ELSEWHERE], c, WATCHING)
    ensures forall run: Run :: IsRun(env, [ELSEWHERE], c, run) ==> IsSilent(env, [ELSEWHERE], c, run)
  {
    hide Visit, IsRightPick, IsApplyOrder, IsDeleteOrder, Updates, IsSilent, ReachesCycle;
    NothingToResolve(env.x, c.live);
    assert EffectiveName(FIRST) == "a" && EffectiveName(ELSEWHERE) == "a";
    assert EffectiveName(ONE[0]) in CurrentKeys(ONE);
    assert NormalizePath("p") == "p" && NormalizePath("q") == "q" && "p"[0] != "q"[0];
    forall run: Run | IsRun(env, [ELSEWHERE], c, run) ensures IsSilent(env, [ELSEWHERE], c, run) {
      OtherChangesAreNotNoticed(env, ONE, [ELSEWHERE], c, run);
    }
    WatchingIsRun(env, c);
  }

  lemma WatchingIsRun(env: Env, c: Config)
    requires c.live == map["a" := Entry(env.x)]
    ensures IsRun(env, [ELSEWHERE], c, WATCHING)
  {
    hide Visit, IsRightPick, IsApplyOrder, IsDeleteOrder, Updates;
    OnlyOrder(ELSEWHERE);
    assert EffectiveName(ELSEWHERE) == "a" && EffectiveName([ELSEWHERE][0]) in CurrentKeys([ELSEWHERE]);
    NothingToDelete(c.live, [ELSEWHERE]);
    QuietVisitElsewhere(env, c);
  }

  lemma QuietVisitElsewhere(env: Env, c: Config)
    requires c.live == map["a" := Entry(env.x)]
    ensures Visits(env, [ELSEWHERE], c, WATCHING) == Step(c, Fine)
  {
    NothingToResolve(env.x, c.live);
    assert EffectiveName(ELSEWHERE) == "a";
    NoVisits(env, [ELSEWHERE], [0], c);
    OneMoreVisit(env, [ELSEWHERE], [0], c, [], WATCHING.visits[0]);
    assert [] + [WATCHING.visits[0]] == WATCHING.visits;
  }
  // ---------------------------------------------------------------- three at one place

  const MIDDLE := SECOND.(revision := 1)
  const THIRD := FIRST.(name := "c")
  const THREE := [FIRST, MIDDLE, THIRD]
  const LUCKY := Run([0, 1, 2], [Answer(None, Answered(Null), true), Answer(Some("a"), Answered(Null), true),
                                 Answer(Some("b"), Answered(Null), true)], [], [])

  lemma ListOrderOfThree()
    ensures IsApplyOrder(THREE, [0, 1, 2])
  {
    var g, order := ResourceGraph(THREE), [0, 1, 2];
    assert g[0] == [] && g[1] == [] && g[2] == [];
    assert Topological(g, order);
    forall i: nat | i < 3 ensures i in order {
      assert order[i] == i;
    }
    TopologicalIsApplyOrder(THREE, order);
  }

  function EntryOf(x: Externals, r: Resource): StateResource {
    Recorded(r, PlainDigest(x, r), Null)
  }

  /** A visit that finds an entry with another digest, or none, sends the data. */
  lemma NewEntryVisit(env: Env, r: Resource, c: Config, a: Answer)
    requires r.data == NO_DATA && r.name != "" && r.name !in c.live && a.reply == Answered(Null) && a.saved
    requires IsPick(c.live, r, a.pick)
    requires a.pick.Some? ==> c.live[a.pick.value].dataDigest != PlainDigest(env.x, r)
    ensures var step := Visit(env, r, c, a); step.verdict.Fine? && step.c.live == c.live[r.name := EntryOf(env.x, r)]
    ensures IsRightPick(env, r, c, a)
  {
    NothingToResolve(env.x, c.live);
  }

  /** Two that collide may both stay recorded, if a third is at the place and the map happens to yield that first. */
  lemma CollidingButRecorded(env: Env)
    requires PlainDigest(env.x, MIDDLE) != PlainDigest(env.x, FIRST)
    ensures NamesAreUnique(THREE) && !DistinctContents(env.x, THREE)
    ensures Visits(env, THREE, NOTHING, LUCKY).verdict.Fine?
    ensures IsCleanRun(env, THREE, NOTHING, LUCKY) && PicksRightly(env, THREE, LUCKY.order, NOTHING, LUCKY.visits)
    ensures CurrentKeys(THREE) <= Outcome(env, THREE, NOTHING, LUCKY).c.live.Keys
  {
    hide Visit, IsRightPick, IsApplyOrder, IsDeleteOrder, Updates, PlainDigest, PicksRightly, Recorded;
    assert EffectiveName(THREE[0]) == "a" && EffectiveName(THREE[1]) == "b" && EffectiveName(THREE[2]) == "c";
    assert "a"[0] != "b"[0] && "b"[0] != "c"[0] && "a"[0] != "c"[0];
    VisitsOfThree(env);
    ListOrderOfThree();
    assert PlaceOf(THREE[0]) == PlaceOf(THREE[2]) && PlainDigest(env.x, THREE[0]) == PlainDigest(env.x, THREE[2]) by {
      hide *;
      SameData(env.x);
    }
    var live := Visits(env, THREE, NOTHING, LUCKY).c.live;
    assert live.Keys == {"a", "b", "c"} == CurrentKeys(THREE);
    NothingToDelete(live, THREE);
  }

  lemma SameData(x: Externals)
    ensures PlaceOf(THREE[0]) == PlaceOf(THREE[2]) && PlainDigest(x, THREE[0]) == PlainDigest(x, THREE[2])
  {
  }

  lemma VisitsOfThree(env: Env)
    requires PlainDigest(env.x, MIDDLE) != PlainDigest(env.x, FIRST)
    ensures Indexes(THREE, LUCKY) && Visits(env, THREE, NOTHING, LUCKY).verdict.Fine?
    ensures Visits(env, THREE, NOTHING, LUCKY).c.live ==
            map["a" := EntryOf(env.x, FIRST), "b" := EntryOf(env.x, MIDDLE), "c" := EntryOf(env.x, THIRD)]
    ensures PicksRightly(env, THREE, LUCKY.order, NOTHING, LUCKY.visits)
  {
    hide Visit, IsRightPick, PlainDigest, Updates, PicksRightly;
    var a, b, d := LUCKY.visits[0], LUCKY.visits[1], LUCKY.visits[2];
    SameData(env.x);
    assert "a"[0] != "b"[0] && "b"[0] != "c"[0] && "a"[0] != "c"[0];
    NoVisits(env, THREE, LUCKY.order, NOTHING);
    NewEntryVisit(env, FIRST, NOTHING, a);
    OneMoreVisit(env, THREE, LUCKY.order, NOTHING, [], a);
    assert [] + [a] == [a];
    NewEntryVisit(env, MIDDLE, Updates(env, THREE, LUCKY.order, NOTHING, [a]).c, b);
    OneMoreVisit(env, THREE, LUCKY.order, NOTHING, [a], b);
    assert [a] + [b] == [a, b];
    NewEntryVisit(env, THIRD, Updates(env, THREE, LUCKY.order, NOTHING, [a, b]).c, d);
    OneMoreVisit(env, THREE, LUCKY.order, NOTHING, [a, b], d);
    assert [a, b] + [d] == LUCKY.visits;
  }
  // ---------------------------------------------------------------- a live entry at another place

  lemma TwoVisits(env: Env, rs: seq<Resource>, order: seq<nat>, c: Config, a: Answer, b: Answer)
    requires |order| == 2 && InRange(order, |rs|)
    requires var first := Visit(env, rs[order[0]], c, a);
      && first.verdict.Fine? && IsRightPick(env, rs[order[0]], c, a)
      && Visit(env, rs[order[1]], first.c, b).verdict.Fine? && IsRightPick(env, rs[order[1]], first.c, b)
    ensures Updates(env, rs, order, c, [a, b]) ==
            Visit(env, rs[order[1]], Visit(env, rs[order[0]], c, a).c, b)
    ensures PicksRightly(env, rs, order, c, [a, b])
  {
    hide Visit, IsRightPick, PicksRightly;
    NoVisits(env, rs, order, c);
    OneMoreVisit(env, rs, order, c, [], a);
    assert [] + [a] == [a] && [a] + [b] == [a, b];
    OneMoreVisit(env, rs, order, c, [a], b);
  }

  const CROSSED := [ELSEWHERE, SECOND]
  const CROSSING := Run([0, 1], [Answer(None, Broken, true), Answer(Some("a"), Broken, true)], [], [])

  lemma OrderOfCrossed()
    ensures IsApplyOrder(CROSSED, [0, 1])
  {
    var g := ResourceGraph(CROSSED);
    assert g[0] == [] && g[1] == [];
    assert Topological(g, [0, 1]);
    forall i: nat | i < 2 ensures i in [0, 1] {
      assert [0, 1][i] == i;
    }
    TopologicalIsApplyOrder(CROSSED, [0, 1]);
  }

  /**
   * Distinct places are not enough on a state that records another place: "a" has been given another path, which is not
   * noticed, and "b" is declared where "a" was. It takes over the entry of "a", though that is declared.
   */
  lemma LiveEntryIsTaken(env: Env, c: Config)
    requires c.live == map["a" := Entry(env.x)]
    ensures NamesAreUnique(CROSSED) && DistinctPlaces(CROSSED) && IsCleanRun(env, CROSSED, c, CROSSING)
    ensures PicksRightly(env, CROSSED, CROSSING.order, c, CROSSING.visits)
    ensures Outcome(env, CROSSED, c, CROSSING).c.live == map["b" := Entry(env.x)]
  {
    hide Visit, IsRightPick, IsApplyOrder, IsDeleteOrder, Updates, PicksRightly;
    NothingToResolve(env.x, c.live);
    assert EffectiveName(ELSEWHERE) == "a" && EffectiveName(SECOND) == "b" && "a"[0] != "b"[0];
    assert NormalizePath("p") == "p" && NormalizePath("q") == "q" && "p"[0] != "q"[0];
    ElsewhereIsQuiet(env, c);
    SecondVisit(env, c);
    TwoVisits(env, CROSSED, [0, 1], c, CROSSING.visits[0], CROSSING.visits[1]);
    OrderOfCrossed();
    assert EffectiveName(CROSSED[1]) in CurrentKeys(CROSSED);
    NothingToDelete(map["b" := Entry(env.x)], CROSSED);
  }

  lemma ElsewhereIsQuiet(env: Env, c: Config)
    requires c.live == map["a" := Entry(env.x)]
    ensures Visit(env, ELSEWHERE, c, CROSSING.visits[0]) == Step(c, Fine)
    ensures IsRightPick(env, ELSEWHERE, c, CROSSING.visits[0])
  {
    NothingToResolve(env.x, c.live);
    assert EffectiveName(ELSEWHERE) == "a";
  }
  // ---------------------------------------------------------------- moved, and torn down

  /** A visit that finds neither the digest nor an entry to take over. */
  lemma PlainVisit(env: Env, r: Resource, c: Config)
    requires r.data == NO_DATA && !UpToDate(c.live, r, PlainDigest(env.x, r))
    requires EffectiveName(r) in c.live || IsPick(c.live, r, None)
    ensures var step := Visit(env, r, c, DONE);
      step.verdict.Fine? && step.c.live == c.live[EffectiveName(r) := EntryOf(env.x, r)]
    ensures IsRightPick(env, r, c, DONE)
  {
    hide EffectiveName, Place;
    NothingToResolve(env.x, c.live);
  }

  const FAR := ELSEWHERE.(revision := 1)
  const MOVING_AWAY := Run([0], [DONE], [], [])

  /** "a" is given another path and another revision at once. */
  lemma MovedAndChanged(env: Env, c: Config)
    requires c.live == map["a" := Entry(env.x)] && PlainDigest(env.x, FAR) != PlainDigest(env.x, FIRST)
    ensures NamesAreUnique([FAR]) && IsMovedAway([FAR], FAR, c.live, FIRST)
    ensures c.live["a"].dataDigest != PlainDigest(env.x, FAR)
    ensures IsCleanRun(env, [FAR], c, MOVING_AWAY)
  {
    hide Visit, IsRightPick, IsApplyOrder, IsDeleteOrder, Updates, Place, PicksRightly;
    assert EffectiveName(FAR) == "a";
    FarIsElsewhere();
    assert Entry(env.x).dataDigest == PlainDigest(env.x, FIRST);
    PlainVisit(env, FAR, c);
    NoVisits(env, [FAR], [0], c);
    OneMoreVisit(env, [FAR], [0], c, [], DONE);
    assert [] + [DONE] == MOVING_AWAY.visits;
    OnlyOrder(FAR);
    assert EffectiveName([FAR][0]) in CurrentKeys([FAR]);
    NothingToDelete(Visits(env, [FAR], c, MOVING_AWAY).c.live, [FAR]);
  }

  lemma FarIsElsewhere()
    ensures PlaceOf(FAR) != PlaceOf(FIRST)
  {
    assert NormalizePath("p") == "p" && NormalizePath("q") == "q" && "p"[0] != "q"[0];
  }

  const TEARING_DOWN := Run([], [], ["a"], [DONE])

  /** Nothing is declared any more, and everything is deleted. */
  lemma TornDown(env: Env, c: Config)
    requires c.live == map["a" := Entry(env.x)]
    ensures IsCleanRun(env, [], c, TEARING_DOWN)
    ensures Outcome(env, [], c, TEARING_DOWN).c.live == map[]
    ensures Outcome(env, [], c, TEARING_DOWN).c.requests == c.requests + [Delete(None, "p")]
  {
    hide IsDeleteOrder, Removal;
    SingleKey(c.live, "a");
    assert StaleKeys(c.live, []) == {"a"};
    RemovalOfOne(env, "a", c, TEARING_DOWN.removals);
    TopologicalIsApplyOrder([], []);
  }
}
