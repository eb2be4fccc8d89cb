/**
 * Why places must be distinct: two resources that pass the linter, share namespace, path and data, and never settle.
 * The second takes over the entry of the first, so that no run leaves both names recorded.
 */
module SharedPlace {
  import opened Wrappers
  import opened Types
  import opened Templates
  import opened Graph
  import opened Ordering
  import opened DeleteOrder
  import opened Lint
  import opened Reconciler
  import opened Settling
  import opened Rerun

  const NO_DATA := Object(map[])
  const FIRST := Resource("p", NO_DATA, "", "a", 0, [], false, "")
  const SECOND := Resource("p", NO_DATA, "", "b", 0, [], false, "")
  const BOTH := [FIRST, SECOND]
  const NOTHING := Config(map[], map[], [], 0)
  const RUN := Run([0, 1], [Answer(None, Answered(Null), true), Answer(Some("a"), Broken, true)], [], [])

  lemma BothPassTheLinter(x: Externals)
    requires x.upperTrimmed("") == ""
    ensures Linted(x, BOTH) && TemplatesDepend(BOTH) && Coherent(BOTH, NOTHING.live)
    ensures !DistinctPlaces(BOTH)
  {
    assert PlaceOf(BOTH[0]) == PlaceOf(BOTH[1]);
    assert EffectiveName(FIRST) == "a" && EffectiveName(SECOND) == "b";
    assert "a" != "b";
  }

  lemma ListOrderIsApplyOrder()
    ensures IsApplyOrder(BOTH, [0, 1])
  {
    var g := ResourceGraph(BOTH);
    assert g[0] == [] && g[1] == [];
    assert Topological(g, [0, 1]);
    forall i: nat | i < 2 ensures i in [0, 1] {
      assert [0, 1][i] == i;
    }
    TopologicalIsApplyOrder(BOTH, [0, 1]);
  }

  ghost function Entry(x: Externals): StateResource {
    Recorded(FIRST, Digest(x, FIRST, NO_DATA), Null)
  }

  lemma NothingToResolve(x: Externals, live: Registry)
    ensures Resolve(x, NO_DATA, live) == Some(NO_DATA)
  {
    TemplateFreeDataIsUnchanged(x, NO_DATA, live);
  }

  /** The first is applied, and its entry recorded. */
  lemma FirstVisit(env: Env)
    ensures var step := Visit(env, FIRST, NOTHING, RUN.visits[0]);
      step.verdict.Fine? && step.c.live == map["a" := Entry(env.x)]
    ensures IsRightPick(env, FIRST, NOTHING, RUN.visits[0])
  {
    NothingToResolve(env.x, NOTHING.live);
  }

  /** The second finds that entry at its own place with its own digest, and moves it to its own name. */
  lemma SecondVisit(env: Env, c: Config)
    requires c.live == map["a" := Entry(env.x)]
    ensures var step := Visit(env, SECOND, c, RUN.visits[1]);
      step.verdict.Fine? && step.c.live == map["b" := Entry(env.x)]
    ensures IsRightPick(env, SECOND, c, RUN.visits[1])
  {
    NothingToResolve(env.x, c.live);
    assert MatchesPlace(Entry(env.x), SECOND);
    assert "a" != "b" && EffectiveName(SECOND) == "b";
  }

  lemma VisitsOfBoth(env: Env)
    ensures InRange(RUN.order, 2) && Indexes(BOTH, RUN)
    ensures Visits(env, BOTH, NOTHING, RUN).verdict.Fine?
    ensures Visits(env, BOTH, NOTHING, RUN).c.live == map["b" := Entry(env.x)]
    ensures PicksRightly(env, BOTH, RUN.order, NOTHING, RUN.visits)
  {
    hide Visit, IsRightPick;
    var a, b := RUN.visits[0], RUN.visits[1];
    FirstVisit(env);
    OneMoreVisit(env, BOTH, RUN.order, NOTHING, [], a);
    assert [] + [a] == [a];
    SecondVisit(env, Updates(env, BOTH, RUN.order, NOTHING, [a]).c);
    OneMoreVisit(env, BOTH, RUN.order, NOTHING, [a], b);
    assert [a] + [b] == RUN.visits;
  }

  /** A clean run of two linted resources, after which the name of the first is gone again. */
  lemma FirstNameIsLost(env: Env)
    ensures IsCleanRun(env, BOTH, NOTHING, RUN)
    ensures PicksRightly(env, BOTH, RUN.order, NOTHING, RUN.visits)
    ensures !(CurrentKeys(BOTH) <= Outcome(env, BOTH, NOTHING, RUN).c.live.Keys)
  {
    hide Updates, Visit, PicksRightly, IsApplyOrder;
    VisitsOfBoth(env);
    ListOrderIsApplyOrder();
    var live := Visits(env, BOTH, NOTHING, RUN).c.live;
    assert EffectiveName(BOTH[0]) == "a" && EffectiveName(BOTH[1]) == "b" && "a" != "b";
    assert "a" in CurrentKeys(BOTH) && "b" in CurrentKeys(BOTH);
    assert StaleKeys(live, BOTH) == {};
    assert IsDeleteOrder(live, {}, []);
  }

  /** So no second run is silent. */
  lemma NeverSilent(env: Env, again: Config, second: Run)
    requires again.live == Outcome(env, BOTH, NOTHING, RUN).c.live && IsRun(env, BOTH, again, second)
    requires env.x.upperTrimmed("") == ""
    ensures !IsSilent(env, BOTH, again, second)
  {
    hide Visit, Updates, IsApplyOrder;
    FirstNameIsLost(env);
    BothPassTheLinter(env.x);
    SecondRunIsSilentIff(env, BOTH, NOTHING, RUN, again, second);
  }
}
