/**
 * How recorded dependencies come to have a cycle though no list of resources has one: three lists applied in turn, the
 * last of them empty, after which both entries stay for ever.
 */
module RecordedCycle {
  import opened Types
  import opened Graph
  import opened Ordering
  import opened DeleteOrder
  import opened Reconciler
  import opened Settling
  import opened Rerun
  import opened Deletions
  import opened Teardown
  import opened SharedPlace
  import opened Example

  const A := FIRST
  const B := Resource("q", NO_DATA, "", "b", 0, ["a"], false, "")
  const A' := A.(revision := 1, dependencies := ["b"])
  const B' := B.(dependencies := [])

  /** First "b" depends on "a"; then it is the other way round, and "a" is to be sent again. */
  const BEFORE := [A, B]
  const AFTERWARDS := [A', B']

  const APPLY_BEFORE := Run([0, 1], [DONE, DONE], [], [])
  const APPLY_AFTERWARDS := Run([1, 0], [DONE, DONE], [], [])

  lemma Names()
    ensures EffectiveName(A) == EffectiveName(A') == "a" && EffectiveName(B) == EffectiveName(B') == "b" && "a" != "b"
    ensures CurrentKeys(BEFORE) == CurrentKeys(AFTERWARDS) == {"a", "b"}
  {
    assert "a"[0] != "b"[0];
    assert EffectiveName(BEFORE[0]) == "a" && EffectiveName(BEFORE[1]) == "b";
    assert EffectiveName(AFTERWARDS[0]) == "a" && EffectiveName(AFTERWARDS[1]) == "b";
  }

  lemma Places()
    ensures PlaceOf(A) == PlaceOf(A') && PlaceOf(B) == PlaceOf(B') && PlaceOf(A) != PlaceOf(B)
  {
    assert NormalizePath("p") == "p" && NormalizePath("q") == "q" && "p"[0] != "q"[0];
  }

  lemma BothAreWellDeclared()
    ensures WellDeclared(BEFORE) && WellDeclared(AFTERWARDS)
  {
    hide EffectiveName, Place;
    Names();
    Places();
    NoDataMentionsNothing();
  }

  lemma OrderBefore()
    ensures IsApplyOrder(BEFORE, [0, 1])
  {
    hide EffectiveName;
    Names();
    BothAreWellDeclared();
    LastNamedIsOnlyOne(BEFORE, 0);
    assert A.dependencies == [] && B.dependencies == ["a"];
    assert ["a"][..0] == [];
    TwoInOrder(BEFORE, 0, 1);
  }

  lemma OrderAfterwards()
    ensures IsApplyOrder(AFTERWARDS, [1, 0])
  {
    hide EffectiveName;
    Names();
    BothAreWellDeclared();
    LastNamedIsOnlyOne(AFTERWARDS, 1);
    assert B'.dependencies == [] && A'.dependencies == ["b"];
    assert ["b"][..0] == [];
    TwoInOrder(AFTERWARDS, 1, 0);
  }

  lemma TwoInOrder(rs: seq<Resource>, i: nat, j: nat)
    requires |rs| == 2 && (i, j) in {(0, 1), (1, 0)}
    requires ResourceGraph(rs)[i] == [] && ResourceGraph(rs)[j] == [i]
    ensures IsApplyOrder(rs, [i, j])
  {
    hide Resolved;
    var g, order := ResourceGraph(rs), [i, j];
    assert order[..1] == [i];
    assert Topological(g, order);
    forall k: nat | k < 2 ensures k in order {
      assert order[0] == k || order[1] == k;
    }
    TopologicalIsApplyOrder(rs, order);
  }

  lemma QuietVisit(env: Env, r: Resource, c: Config)
    requires r.data == NO_DATA && UpToDate(c.live, r, PlainDigest(env.x, r))
    ensures Visit(env, r, c, DONE) == Step(c, Fine) && IsRightPick(env, r, c, DONE)
  {
    NothingToResolve(env.x, c.live);
  }

  ghost function LiveBefore(x: Externals): Registry {
    map["a" := EntryOf(x, A), "b" := EntryOf(x, B)]
  }

  /** Each records the other as its dependency. */
  ghost function LiveAfterwards(x: Externals): Registry {
    map["a" := EntryOf(x, A'), "b" := EntryOf(x, B)]
  }

  lemma VisitsBefore(env: Env)
    ensures Visits(env, BEFORE, NOTHING, APPLY_BEFORE).verdict.Fine?
    ensures Visits(env, BEFORE, NOTHING, APPLY_BEFORE).c.live == LiveBefore(env.x)
    ensures PicksRightly(env, BEFORE, APPLY_BEFORE.order, NOTHING, APPLY_BEFORE.visits)
  {
    hide Visit, EffectiveName, Place, PlainDigest, IsRightPick, PicksRightly, Updates;
    Names();
    Places();
    PlainVisit(env, A, NOTHING);
    var c := Visit(env, A, NOTHING, DONE).c;
    assert c.live == map["a" := EntryOf(env.x, A)] && !MatchesPlace(EntryOf(env.x, A), B);
    PlainVisit(env, B, c);
    TwoVisits(env, BEFORE, [0, 1], NOTHING, DONE, DONE);
  }

  lemma VisitsAfterwards(env: Env, c: Config)
    requires PlainDigest(env.x, A') != PlainDigest(env.x, A) && c.live == LiveBefore(env.x)
    ensures Visits(env, AFTERWARDS, c, APPLY_AFTERWARDS).verdict.Fine?
    ensures Visits(env, AFTERWARDS, c, APPLY_AFTERWARDS).c.live == LiveAfterwards(env.x)
    ensures PicksRightly(env, AFTERWARDS, APPLY_AFTERWARDS.order, c, APPLY_AFTERWARDS.visits)
  {
    hide Visit, EffectiveName, Place, PlainDigest, IsRightPick, PicksRightly, Updates;
    Names();
    assert PlainDigest(env.x, B') == PlainDigest(env.x, B) by {
      SameDigest(env.x);
    }
    QuietVisit(env, B', c);
    PlainVisit(env, A', c);
    TwoVisits(env, AFTERWARDS, [1, 0], c, DONE, DONE);
  }

  lemma SameDigest(x: Externals)
    ensures PlainDigest(x, B') == PlainDigest(x, B)
  {
  }

  lemma OneWithin(name: string, keys: set<string>)
    requires name in keys
    ensures Within([name], keys) == [name]
  {
    assert [name][..0] == [];
  }

  lemma Mutual(g: map<string, seq<string>>, a: string, b: string)
    requires a in g && b in g && g[a] == [b] && g[b] == [a]
    ensures ReachesCycle(g, a)
  {
    var p := [a, b, a];
    assert IsWalk(g, p) && p[0] == p[2];
  }

  lemma EachOther(x: Externals)
    ensures ReachesCycle(StaleGraph(LiveAfterwards(x), {"a", "b"}), "a")
    ensures ReachesCycle(StaleGraph(LiveAfterwards(x), {"a", "b"}), "b")
  {
    hide PlainDigest, ReachesCycle, Within;
    Names();
    OneWithin("a", {"a", "b"});
    OneWithin("b", {"a", "b"});
    var g := StaleGraph(LiveAfterwards(x), {"a", "b"});
    Mutual(g, "a", "b");
    Mutual(g, "b", "a");
  }

  /** Both lists are applied without failure, in runs that exist. */
  lemma ListsWithoutCycles(env: Env)
    requires PlainDigest(env.x, A') != PlainDigest(env.x, A)
    ensures WellDeclared(BEFORE) && WellDeclared(AFTERWARDS) && !IsCyclic(BEFORE) && !IsCyclic(AFTERWARDS)
    ensures IsCleanRun(env, BEFORE, NOTHING, APPLY_BEFORE)
    ensures PicksRightly(env, BEFORE, APPLY_BEFORE.order, NOTHING, APPLY_BEFORE.visits)
    ensures var c := Outcome(env, BEFORE, NOTHING, APPLY_BEFORE).c;
      && IsCleanRun(env, AFTERWARDS, c, APPLY_AFTERWARDS)
      && PicksRightly(env, AFTERWARDS, APPLY_AFTERWARDS.order, c, APPLY_AFTERWARDS.visits)
      && Outcome(env, AFTERWARDS, c, APPLY_AFTERWARDS).c.live == LiveAfterwards(env.x)
  {
    hide Visit, EffectiveName, Place, PlainDigest, IsRightPick, PicksRightly, Updates, IsDeleteOrder, IsApplyOrder,
      IsCyclic;
    Names();
    BothAreWellDeclared();
    VisitsBefore(env);
    OrderBefore();
    NothingToDelete(LiveBefore(env.x), BEFORE);
    RunIsAcyclic(env, BEFORE, NOTHING, APPLY_BEFORE);
    var c := Outcome(env, BEFORE, NOTHING, APPLY_BEFORE).c;
    VisitsAfterwards(env, c);
    OrderAfterwards();
    NothingToDelete(LiveAfterwards(env.x), AFTERWARDS);
    RunIsAcyclic(env, AFTERWARDS, c, APPLY_AFTERWARDS);
  }

  /** Then nothing is declared any more: there are runs, and none of them deletes anything or fails. */
  lemma StaysForEver(env: Env, c: Config)
    requires c.live == LiveAfterwards(env.x)
    ensures !RecordsNoCycle(c.live) && StaleKeys(c.live, []) == {"a", "b"}
    ensures IsRun(env, [], c, Run([], [], [], []))
    ensures forall run: Run :: IsRun(env, [], c, run) ==> Outcome(env, [], c, run) == Step(c, Fine)
  {
    hide EffectiveName, IsWalk, ReachesCycle, PlainDigest;
    assert StaleKeys(c.live, []) == {"a", "b"} == c.live.Keys;
    EachOther(env.x);
    assert OnlyCyclicLeftOver([], c.live);
    forall run: Run | IsRun(env, [], c, run) ensures Outcome(env, [], c, run) == Step(c, Fine) {
      SilentIff(env, [], c, run);
    }
    assert IsKahnOrder(StaleGraph(c.live, {"a", "b"}), []);
    TopologicalIsApplyOrder([], []);
  }
}
