/** Renaming resources: no request is sent, and every entry moves to its new key. */
module Renaming {
  import opened Wrappers
  import opened Types
  import opened Templates
  import opened Graph
  import opened Ordering
  import opened DeleteOrder
  import opened Lint
  import opened Reconciler
  import opened Settling
  import opened Rerun
  import opened Deletions

  // ---------------------------------------------------------------- renaming data

  function RenameString(ren: string -> string, s: string): string {
    match ParseTemplate(s)
    case None => s
    case Some(t) => "<" + ren(t.name) + ":" + t.key + ">"
  }

  /** The same data with every template naming its resource by the new name. */
  function RenameValue(ren: string -> string, v: Value): Value
    decreases v
  {
    match v
    case Object(m) => Object(map k | k in m :: RenameValue(ren, m[k]))
    case Items(a) => Items(seq(|a|, i requires 0 <= i < |a| => RenameValue(ren, a[i])))
    case Text(s) => Text(RenameString(ren, s))
    case _ => v
  }

  /** The new registry answers about the new name as the old one about the old name, and a template can hold it. */
  predicate AnswersAlike(ren: string -> string, was: Registry, now: Registry, name: string) {
    && ren(name) != "" && ':' !in ren(name)
    && name in was && ren(name) in now && now[ren(name)].responseData == was[name].responseData
  }

  lemma RenamedStringResolves(x: Externals, ren: string -> string, s: string, was: Registry, now: Registry)
    requires forall name :: Mentions(Text(s), name) ==> AnswersAlike(ren, was, now, name)
    ensures ResolveString(x, RenameString(ren, s), now) == ResolveString(x, s, was)
  {
    var t := ParseTemplate(s);
    if t.Some? {
      ParsedIsTemplate(s);
      assert Mentions(Text(s), t.value.name);
      TemplateIsParsed(RenameString(ren, s), ren(t.value.name), t.value.key);
    }
  }

  /** Renamed data resolves in the renamed registry to what it resolved to before. */
  lemma {:induction false} RenamedResolves(x: Externals, ren: string -> string, v: Value, was: Registry, now: Registry)
    requires forall name :: Mentions(v, name) ==> AnswersAlike(ren, was, now, name)
    ensures Resolve(x, RenameValue(ren, v), now) == Resolve(x, v, was)
    decreases v
  {
    match v
    case Object(m) =>
      forall k | k in m ensures Resolve(x, RenameValue(ren, m[k]), now) == Resolve(x, m[k], was) {
        RenamedResolves(x, ren, m[k], was, now);
      }
      ObjectsResolveAlike(x, RenameValue(ren, v).fields, m, now, was);
    case Items(a) =>
      forall i | 0 <= i < |a| ensures Resolve(x, RenameValue(ren, a[i]), now) == Resolve(x, a[i], was) {
        RenamedResolves(x, ren, a[i], was, now);
      }
      ItemsResolveAlike(x, RenameValue(ren, v).items, a, now, was);
    case Text(s) =>
      RenamedStringResolves(x, ren, s, was, now);
    case _ =>
  }

  /** Renamed data mentions only new names of what the data mentioned. */
  lemma {:induction false} RenamedMentions(ren: string -> string, v: Value, name: string) returns (origin: string)
    requires forall n :: Mentions(v, n) ==> ren(n) != "" && ':' !in ren(n)
    requires Mentions(RenameValue(ren, v), name)
    ensures Mentions(v, origin) && ren(origin) == name
    decreases v
  {
    match v
    case Object(m) =>
      var k :| k in m && Mentions(RenameValue(ren, m[k]), name);
      origin := RenamedMentions(ren, m[k], name);
    case Items(a) =>
      var i :| 0 <= i < |a| && Mentions(RenameValue(ren, a[i]), name);
      origin := RenamedMentions(ren, a[i], name);
    case Text(s) =>
      var t := ParseTemplate(s);
      var key :| IsTemplate(RenameString(ren, s), name, key);
      TemplateIsParsed(RenameString(ren, s), name, key);
      ParsedIsTemplate(s);
      origin := t.value.name;
      TemplateIsParsed(RenameString(ren, s), ren(origin), t.value.key);
  }

  // ---------------------------------------------------------------- renaming resources

  ghost predicate IsRenamed(ren: string -> string, r: Resource, r': Resource) {
    && r' == r.(name := r'.name, data := RenameValue(ren, r.data), dependencies := r'.dependencies)
    && |r'.dependencies| == |r.dependencies|
    && (forall j :: 0 <= j < |r.dependencies| ==> r'.dependencies[j] == ren(r.dependencies[j]))
    && EffectiveName(r') == ren(EffectiveName(r))
    && (forall n :: Mentions(r.data, n) ==> ren(n) != "" && ':' !in ren(n))
  }

  /** Names, dependencies and templates are renamed together; two resources never end up with one name. */
  ghost predicate IsRenaming(ren: string -> string, rs: seq<Resource>, rs': seq<Resource>) {
    && |rs'| == |rs|
    && (forall i :: 0 <= i < |rs| ==> IsRenamed(ren, rs[i], rs'[i]))
    && NamesAreUnique(rs')
  }

  /** A new name is not in use yet. */
  ghost predicate IsFresh(ren: string -> string, rs: seq<Resource>, live: Registry) {
    forall i :: 0 <= i < |rs| ==>
      var n := EffectiveName(rs[i]); ren(n) == n || ren(n) !in live
  }

  /** What has no resource. */
  function LeftOver(rs: seq<Resource>, live: Registry): Registry {
    map key | key in live && key !in CurrentKeys(rs) :: live[key]
  }

  /** Nothing without a resource is recorded at the place of a resource that gets a new name. */
  ghost predicate NoOldEntries(rs: seq<Resource>, rs': seq<Resource>, live: Registry)
    requires |rs'| == |rs|
  {
    forall key, i :: key in LeftOver(rs, live) && 0 <= i < |rs| && EffectiveName(rs'[i]) != EffectiveName(rs[i]) ==>
      !MatchesPlace(live[key], rs[i])
  }

  /** What a clean run leaves: all resources recorded and settled, and what is left over reaches cycles. */
  ghost predicate IsSettledState(x: Externals, rs: seq<Resource>, live: Registry) {
    && CurrentKeys(rs) <= live.Keys
    && Coherent(rs, live)
    && (forall i :: 0 <= i < |rs| ==> Settled(x, rs[i], live))
    && OnlyCyclicLeftOver(rs, live)
  }

  /** The entry after the move: the same, but for the spelling of namespace and path. */
  function Moved(e: StateResource, r: Resource, renamed: bool): StateResource {
    if renamed then e.(namespace := r.namespace, path := r.path) else e
  }

  function NameNow(r: Resource, r': Resource, done: bool): string {
    EffectiveName(if done then r' else r)
  }

  /** The names under which the entries are now found, when those of the resources in `done` have moved. */
  ghost function NamesNow(rs: seq<Resource>, rs': seq<Resource>, done: set<nat>): (names: seq<string>)
    requires |rs'| == |rs|
    ensures |names| == |rs|
  {
    seq(|rs|, i requires 0 <= i < |rs| => NameNow(rs[i], rs'[i], i in done))
  }

  ghost function EntriesNow(rs: seq<Resource>, rs': seq<Resource>, live: Registry,
                            done: set<nat>): (entries: seq<StateResource>)
    requires |rs'| == |rs|
    ensures |entries| == |rs|
  {
    seq(|rs|, i requires 0 <= i < |rs| =>
      Moved(EntryAt(live, EffectiveName(rs[i])), rs'[i], i in done && EffectiveName(rs[i]) != EffectiveName(rs'[i])))
  }

  /** The registry maps each of the names to its entry, holds the rest beside them, and has no other keys. */
  ghost predicate Holds(now: Registry, names: seq<string>, entries: seq<StateResource>, rest: Registry)
    requires |entries| == |names|
  {
    && (forall i :: 0 <= i < |names| ==> names[i] in now && now[names[i]] == entries[i])
    && (forall key :: key in rest ==> key in now && now[key] == rest[key])
    && (forall key :: key in now ==> key in names || key in rest)
  }

  ghost predicate IsMixed(rs: seq<Resource>, rs': seq<Resource>, live: Registry, now: Registry, done: set<nat>)
    requires |rs'| == |rs|
  {
    Holds(now, NamesNow(rs, rs', done), EntriesNow(rs, rs', live, done), LeftOver(rs, live))
  }

  lemma HoldsAfterMove(now: Registry, names: seq<string>, entries: seq<StateResource>, rest: Registry, i: nat,
                       name: string, e: StateResource)
    requires |entries| == |names| && i < |names| && Distinct(names) && Holds(now, names, entries, rest)
    requires name !in names && name !in rest && names[i] !in rest
    ensures Holds(now[name := e] - {names[i]}, names[i := name], entries[i := e], rest)
  {
    var after, names' := now[name := e] - {names[i]}, names[i := name];
    assert names'[i] == name;
    forall key | key in after ensures key in names' || key in rest {
      if key != name && key !in rest {
        var j :| 0 <= j < |names| && names[j] == key;
        assert names'[j] == key;
      }
    }
  }

  lemma NamesNowStep(rs: seq<Resource>, rs': seq<Resource>, live: Registry, done: set<nat>, i: nat)
    requires |rs'| == |rs| && i < |rs| && i !in done
    ensures NamesNow(rs, rs', done)[i] == EffectiveName(rs[i])
    ensures NamesNow(rs, rs', done + {i}) == NamesNow(rs, rs', done)[i := EffectiveName(rs'[i])]
    ensures EntriesNow(rs, rs', live, done)[i] == EntryAt(live, EffectiveName(rs[i]))
    ensures EntriesNow(rs, rs', live, done + {i}) == EntriesNow(rs, rs', live, done)[i :=
      Moved(EntryAt(live, EffectiveName(rs[i])), rs'[i], EffectiveName(rs[i]) != EffectiveName(rs'[i]))]
  {
    hide EffectiveName;
  }

  /** Old names of resources that have not moved, new names of those that have, and what is left over never collide. */
  lemma NamesNowDiffer(ren: string -> string, rs: seq<Resource>, rs': seq<Resource>, live: Registry, done: set<nat>)
    requires IsRenaming(ren, rs, rs') && NamesAreUnique(rs) && IsFresh(ren, rs, live)
    requires CurrentKeys(rs) <= live.Keys
    ensures Distinct(NamesNow(rs, rs', done))
    ensures forall i: nat :: i < |rs| && i !in done && EffectiveName(rs'[i]) != EffectiveName(rs[i]) ==>
      EffectiveName(rs'[i]) !in NamesNow(rs, rs', done)
    ensures forall i: nat :: i < |rs| ==>
      EffectiveName(rs'[i]) !in LeftOver(rs, live) && EffectiveName(rs[i]) !in LeftOver(rs, live)
  {
    hide EffectiveName, RenameValue;
    forall i: nat | i < |rs|
      ensures EffectiveName(rs'[i]) !in LeftOver(rs, live) && EffectiveName(rs[i]) !in LeftOver(rs, live)
    {
      assert IsRenamed(ren, rs[i], rs'[i]) && EffectiveName(rs[i]) in CurrentKeys(rs);
    }
    var names := NamesNow(rs, rs', done);
    forall i: nat, j: nat | i < |rs| && j < |rs| && i != j
      ensures EffectiveName(rs[i]) != EffectiveName(rs[j])
      ensures EffectiveName(rs'[i]) != EffectiveName(rs'[j])
      ensures EffectiveName(rs'[i]) != EffectiveName(rs[j])
    {
      assert IsRenamed(ren, rs[i], rs'[i]) && IsRenamed(ren, rs[j], rs'[j]);
      assert EffectiveName(rs[j]) in CurrentKeys(rs);
      assert i < j || j < i;
    }
  }

  lemma MovedAnswersAlike(ren: string -> string, rs: seq<Resource>, rs': seq<Resource>, live: Registry, now: Registry,
                          done: set<nat>, j: nat)
    requires IsRenaming(ren, rs, rs') && j < |rs| && j in done && CurrentKeys(rs) <= live.Keys
    requires IsMixed(rs, rs', live, now, done)
    requires ren(EffectiveName(rs[j])) != "" && ':' !in ren(EffectiveName(rs[j]))
    ensures AnswersAlike(ren, live, now, EffectiveName(rs[j]))
  {
    hide EffectiveName, RenameValue;
    assert IsRenamed(ren, rs[j], rs'[j]) && EffectiveName(rs[j]) in CurrentKeys(rs);
    assert NamesNow(rs, rs', done)[j] == EffectiveName(rs'[j]);
    assert EntriesNow(rs, rs', live, done)[j].responseData == live[EffectiveName(rs[j])].responseData;
  }

  /** The data of a resource whose dependencies have moved resolves as it did in the settled state. */
  lemma ResolvesAsBefore(x: Externals, ren: string -> string, rs: seq<Resource>, rs': seq<Resource>, live: Registry,
                         now: Registry, done: set<nat>, i: nat)
    requires IsRenaming(ren, rs, rs') && i < |rs| && TemplatesDepend(rs) && CurrentKeys(rs) <= live.Keys
    requires IsMixed(rs, rs', live, now, done)
    requires forall j: nat :: DependsOn(ResourceGraph(rs), i, j) ==> j in done
    ensures Resolve(x, rs'[i].data, now) == Resolve(x, rs[i].data, live)
  {
    hide EffectiveName, RenameValue, Resolve, AnswersAlike, IsMixed, CurrentKeys;
    assert IsRenamed(ren, rs[i], rs'[i]);
    forall name | Mentions(rs[i].data, name) ensures AnswersAlike(ren, live, now, name) {
      assert IsDependencyName(rs, i, name);
      var j: nat :| j < |rs| && EffectiveName(rs[j]) == name && DependsOn(ResourceGraph(rs), i, j);
      MovedAnswersAlike(ren, rs, rs', live, now, done, j);
    }
    RenamedResolves(x, ren, rs[i].data, live, now);
  }

  /** The only entry at the place of a resource that has not moved is its own. */
  lemma PickIsOwnEntry(ren: string -> string, rs: seq<Resource>, rs': seq<Resource>, live: Registry, now: Registry,
                       done: set<nat>, i: nat, pick: Option<string>)
    requires IsRenaming(ren, rs, rs') && i < |rs| && i !in done && DistinctPlaces(rs) && Coherent(rs, live)
    requires CurrentKeys(rs) <= live.Keys && NoOldEntries(rs, rs', live) && IsMixed(rs, rs', live, now, done)
    requires EffectiveName(rs'[i]) != EffectiveName(rs[i]) && IsPick(now, rs'[i], pick)
    ensures pick == Some(EffectiveName(rs[i]))
  {
    hide EffectiveName, RenameValue, Place;
    var names, entries := NamesNow(rs, rs', done), EntriesNow(rs, rs', live, done);
    forall j: nat | j < |rs| ensures Place(entries[j].namespace, entries[j].path) == PlaceOf(rs[j]) == PlaceOf(rs'[j]) {
      assert IsRenamed(ren, rs[j], rs'[j]) && EffectiveName(rs[j]) in CurrentKeys(rs);
      assert MatchesPlace(live[EffectiveName(rs[j])], rs[j]);
    }
    assert names[i] in now && MatchesPlace(now[names[i]], rs'[i]);
    assert pick.Some?;
    if pick.value in LeftOver(rs, live) {
      assert false;
    }
    var j: nat :| j < |rs| && names[j] == pick.value;
    assert PlaceOf(rs[j]) == PlaceOf(rs[i]);
    assert j == i;
  }

  // ---------------------------------------------------------------- the run

  /** Everything the theorem assumes. */
  ghost predicate IsSettledRenaming(x: Externals, ren: string -> string, rs: seq<Resource>, rs': seq<Resource>,
                                    live: Registry)
  {
    && IsRenaming(ren, rs, rs') && IsFresh(ren, rs, live)
    && WellDeclared(rs) && (forall i :: 0 <= i < |rs| ==> DependenciesExist(rs, rs[i]))
    && IsSettledState(x, rs, live) && NoOldEntries(rs, rs', live)
  }

  /** A visit of a renamed resource moves its entry and asks nothing. */
  lemma VisitMoves(env: Env, ren: string -> string, rs: seq<Resource>, rs': seq<Resource>, live: Registry, c: Config,
                   done: set<nat>, i: nat, a: Answer)
    requires IsSettledRenaming(env.x, ren, rs, rs', live) && i < |rs|
    requires IsMixed(rs, rs', live, c.live, done) && i !in done
    requires forall j: nat :: DependsOn(ResourceGraph(rs), i, j) ==> j in done
    requires IsRightPick(env, rs'[i], c, a)
    ensures Visit(env, rs'[i], c, a).c.requests == c.requests
    ensures IsMixed(rs, rs', live, Visit(env, rs'[i], c, a).c.live, done + {i})
    ensures (env.writing ==> a.saved) ==> Visit(env, rs'[i], c, a).verdict.Fine?
  {
    hide Visit, Resolve, RenameValue, EffectiveName, IsPick, NamesAreUnique, DistinctPlaces, TemplatesDepend, Coherent,
      Holds, NamesNow, EntriesNow;
    var n, n', e := EffectiveName(rs[i]), EffectiveName(rs'[i]), EntryAt(live, EffectiveName(rs[i]));
    var names, entries := NamesNow(rs, rs', done), EntriesNow(rs, rs', live, done);
    ResolvesAsBefore(env.x, ren, rs, rs', live, c.live, done, i);
    NamesNowStep(rs, rs', live, done, i);
    NamesNowDiffer(ren, rs, rs', live, done);
    HoldsAt(c.live, names, entries, LeftOver(rs, live), i);
    assert IsRenamed(ren, rs[i], rs'[i]) && Settled(env.x, rs[i], live);
    if n' == n {
      VisitOfSettled(env, rs'[i], c, a);
      assert names[i := n] == names && entries[i := e] == entries;
    } else {
      NotHeld(c.live, names, entries, LeftOver(rs, live), n');
      PickIsOwnEntry(ren, rs, rs', live, c.live, done, i, a.pick);
      VisitMigrates(env, rs'[i], c, a);
      HoldsAfterMove(c.live, names, entries, LeftOver(rs, live), i, n', Moved(e, rs'[i], true));
    }
  }

  lemma VisitOfSettled(env: Env, r: Resource, c: Config, a: Answer)
    requires Settled(env.x, r, c.live)
    ensures Visit(env, r, c, a) == Step(c, Fine)
  {
  }

  /** The name is new and the entry found carries the digest: the entry moves, and no request is made. */
  lemma VisitMigrates(env: Env, r: Resource, c: Config, a: Answer)
    requires EffectiveName(r) !in c.live && IsPick(c.live, r, a.pick) && a.pick.Some?
    requires var data := Resolve(env.x, r.data, c.live);
      data.Some? && c.live[a.pick.value].dataDigest == Digest(env.x, r, data.value)
    ensures var e := c.live[a.pick.value].(namespace := r.namespace, path := r.path);
      Visit(env, r, c, a).c.live == c.live[EffectiveName(r) := e] - {a.pick.value}
    ensures Visit(env, r, c, a).c.requests == c.requests
    ensures (env.writing ==> a.saved) ==> Visit(env, r, c, a).verdict.Fine?
  {
  }

  lemma HoldsAt(now: Registry, names: seq<string>, entries: seq<StateResource>, rest: Registry, i: nat)
    requires |entries| == |names| && i < |names| && Holds(now, names, entries, rest)
    ensures names[i] in now && now[names[i]] == entries[i]
  {
  }

  lemma NotHeld(now: Registry, names: seq<string>, entries: seq<StateResource>, rest: Registry, key: string)
    requires |entries| == |names| && key !in names && key !in rest && Holds(now, names, entries, rest)
    ensures key !in now
  {
  }

  /** The dependencies resolve to the same resources. */
  lemma {:induction false} RenamedDependenciesResolve(ren: string -> string, rs: seq<Resource>, rs': seq<Resource>,
                                                      names: seq<string>, names': seq<string>)
    requires IsRenaming(ren, rs, rs') && NamesAreUnique(rs) && |names'| == |names|
    requires forall j :: 0 <= j < |names| ==> IsName(rs, names[j]) && names'[j] == ren(names[j])
    ensures Resolved(rs', names') == Resolved(rs, names)
  {
    if names != [] {
      var n := |names| - 1;
      RenamedDependenciesResolve(ren, rs, rs', names[..n], names'[..n]);
      assert IsName(rs, names[n]) && names'[n] == ren(names[n]);
      var i :| 0 <= i < |rs| && EffectiveName(rs[i]) == names[n];
      assert IsRenamed(ren, rs[i], rs'[i]);
      LastNamedIsOnlyOne(rs, i);
      LastNamedIsOnlyOne(rs', i);
    }
  }

  lemma RenamingKeepsGraph(ren: string -> string, rs: seq<Resource>, rs': seq<Resource>)
    requires IsRenaming(ren, rs, rs') && NamesAreUnique(rs)
    requires forall i :: 0 <= i < |rs| ==> DependenciesExist(rs, rs[i])
    ensures ResourceGraph(rs') == ResourceGraph(rs)
  {
    hide EffectiveName, RenameValue, NamesAreUnique, Resolved;
    forall i: nat | i < |rs| ensures Resolved(rs', rs'[i].dependencies) == Resolved(rs, rs[i].dependencies) {
      assert IsRenamed(ren, rs[i], rs'[i]) && DependenciesExist(rs, rs[i]);
      RenamedDependenciesResolve(ren, rs, rs', rs[i].dependencies, rs'[i].dependencies);
    }
    SameDependenciesSameGraph(rs, rs');
  }

  lemma SameDependenciesSameGraph(rs: seq<Resource>, rs': seq<Resource>)
    requires |rs'| == |rs|
    requires forall i: nat :: i < |rs| ==> Resolved(rs', rs'[i].dependencies) == Resolved(rs, rs[i].dependencies)
    ensures ResourceGraph(rs') == ResourceGraph(rs)
  {
    hide Resolved;
  }

  lemma SettledIsUnmoved(x: Externals, ren: string -> string, rs: seq<Resource>, rs': seq<Resource>, live: Registry)
    requires IsSettledRenaming(x, ren, rs, rs', live)
    ensures IsMixed(rs, rs', live, live, {})
  {
    hide EffectiveName, RenameValue, Settled, NamesAreUnique, DistinctPlaces, TemplatesDepend, Coherent;
    var names := NamesNow(rs, rs', {});
    forall i: nat | i < |rs| ensures names[i] == EffectiveName(rs[i]) && names[i] in live {
      assert EffectiveName(rs[i]) in CurrentKeys(rs);
    }
    forall key | key in live && key !in LeftOver(rs, live) ensures key in names {
      var i: nat :| i < |rs| && EffectiveName(rs[i]) == key;
      assert names[i] == key;
    }
  }

  lemma {:induction false} UpdatesMove(env: Env, ren: string -> string, rs: seq<Resource>, rs': seq<Resource>,
                                       order: seq<nat>, c: Config, answers: seq<Answer>)
    requires IsSettledRenaming(env.x, ren, rs, rs', c.live) && |rs'| == |rs|
    requires Topological(ResourceGraph(rs), order) && InRange(order, |rs'|) && |answers| <= |order|
    requires PicksRightly(env, rs', order, c, answers)
    ensures var after := Updates(env, rs', order, c, answers);
      && after.c.requests == c.requests
      && (!after.verdict.Aborted? ==> IsMixed(rs, rs', c.live, after.c.live, Visited(order, |answers|)))
      && ((forall k :: 0 <= k < |answers| ==> answers[k].saved) ==> after.verdict.Fine?)
  {
    hide Visit, IsMixed, IsSettledRenaming, IsRightPick;
    if answers == [] {
      SettledIsUnmoved(env.x, ren, rs, rs', c.live);
      assert Visited(order, 0) == {};
    } else {
      var n := |answers| - 1;
      FewerPicks(env, rs', order, c, answers);
      UpdatesMove(env, ren, rs, rs', order, c, answers[..n]);
      var before := Updates(env, rs', order, c, answers[..n]);
      if !before.verdict.Aborted? {
        VisitedIsClosed(rs, order, n);
        VisitMoves(env, ren, rs, rs', c.live, before.c, Visited(order, n), order[n], answers[n]);
        FirstStep(order, n);
      }
    }
  }

  lemma FewerPicks(env: Env, rs: seq<Resource>, order: seq<nat>, c: Config, answers: seq<Answer>)
    requires InRange(order, |rs|) && 0 < |answers| <= |order| && PicksRightly(env, rs, order, c, answers)
    ensures var n := |answers| - 1;
      && PicksRightly(env, rs, order, c, answers[..n])
      && IsRightPick(env, rs[order[n]], Updates(env, rs, order, c, answers[..n]).c, answers[n])
  {
    hide Updates, IsRightPick;
    var n := |answers| - 1;
    forall k | 0 <= k < n
      ensures IsRightPick(env, rs[order[k]], Updates(env, rs, order, c, answers[..n][..k]).c, answers[..n][k])
    {
      assert answers[..n][..k] == answers[..k];
    }
  }

  /**
   * The state after the renaming: the new names, each with the entry its old name had, and what was left over, as it
   * was; no other keys.
   */
  ghost predicate IsRenamedState(rs: seq<Resource>, rs': seq<Resource>, live: Registry, now: Registry) {
    && |rs'| == |rs|
    && now.Keys == CurrentKeys(rs') + LeftOver(rs, live).Keys
    && (forall key :: key in LeftOver(rs, live) ==> key !in CurrentKeys(rs') && now[key] == live[key])
    && (forall i :: 0 <= i < |rs| ==>
      var n, n' := EffectiveName(rs[i]), EffectiveName(rs'[i]);
      n in live && n' in now && now[n'] == Moved(live[n], rs'[i], n != n'))
  }

  lemma AllMoved(rs: seq<Resource>, rs': seq<Resource>, live: Registry, now: Registry, all: set<nat>)
    requires |rs'| == |rs| && CurrentKeys(rs) <= live.Keys
    requires IsMixed(rs, rs', live, now, all) && forall i: nat :: i < |rs| ==> i in all
    requires forall i: nat :: i < |rs| ==> EffectiveName(rs'[i]) !in LeftOver(rs, live)
    ensures IsRenamedState(rs, rs', live, now)
  {
    hide EffectiveName, LeftOver, CurrentKeys;
    var names, entries := NamesNow(rs, rs', all), EntriesNow(rs, rs', live, all);
    forall i | 0 <= i < |rs|
      ensures EffectiveName(rs[i]) in live && EffectiveName(rs'[i]) in now
      ensures now[EffectiveName(rs'[i])] ==
        Moved(live[EffectiveName(rs[i])], rs'[i], EffectiveName(rs[i]) != EffectiveName(rs'[i]))
    {
      InCurrentKeys(rs, i);
      assert names[i] == EffectiveName(rs'[i]) && now[names[i]] == entries[i];
    }
    KeysMoved(rs', now, names, entries, LeftOver(rs, live));
    forall key | key in LeftOver(rs, live)
      ensures key in live && live[key] == LeftOver(rs, live)[key] && key !in CurrentKeys(rs')
    {
      LeftOverIsNew(rs, rs', live, key);
    }
  }

  lemma InCurrentKeys(rs: seq<Resource>, i: nat)
    requires i < |rs|
    ensures EffectiveName(rs[i]) in CurrentKeys(rs)
  {
  }

  lemma LeftOverIsNew(rs: seq<Resource>, rs': seq<Resource>, live: Registry, key: string)
    requires |rs'| == |rs| && key in LeftOver(rs, live)
    requires forall i: nat :: i < |rs| ==> EffectiveName(rs'[i]) !in LeftOver(rs, live)
    ensures key in live && live[key] == LeftOver(rs, live)[key] && key !in CurrentKeys(rs')
  {
    hide EffectiveName;
  }

  lemma KeysMoved(rs: seq<Resource>, now: Registry, names: seq<string>, entries: seq<StateResource>, rest: Registry)
    requires |entries| == |names| == |rs| && Holds(now, names, entries, rest)
    requires forall i: nat :: i < |rs| ==> names[i] == EffectiveName(rs[i])
    ensures now.Keys == CurrentKeys(rs) + rest.Keys
  {
    hide EffectiveName;
    forall key | key in now && key !in rest ensures key in CurrentKeys(rs) {
      var i: nat :| i < |names| && names[i] == key;
    }
  }

  /**
   * Renaming costs nothing. Applied to the renamed resources, from a settled state, no run sends a request to the
   * server; unless a failed save aborts it, every entry ends up under its new name with digest, response and recorded
   * dependencies as they were, and nothing else is there that was not left over before; and nothing but a failed save
   * can go wrong.
   */
  lemma RenamingCostsNothing(env: Env, ren: string -> string, rs: seq<Resource>, rs': seq<Resource>, c: Config,
                             run: Run)
    requires IsSettledRenaming(env.x, ren, rs, rs', c.live)
    requires IsRun(env, rs', c, run) && PicksRightly(env, rs', run.order, c, run.visits)
    ensures var end := Outcome(env, rs', c, run);
      && end.c.requests == c.requests
      && (!end.verdict.Aborted? ==> IsRenamedState(rs, rs', c.live, end.c.live))
      && ((forall k :: 0 <= k < |run.visits| ==> run.visits[k].saved) ==> end.verdict.Fine?)
  {
    hide Updates, Removals, Coherent, TemplatesDepend, DistinctPlaces, IsFresh, DependenciesExist, Settled;
    RenamingKeepsGraph(ren, rs, rs');
    ApplyOrderIsTopological(rs', run.order);
    UpdatesMove(env, ren, rs, rs', run.order, c, run.visits);
    var visited := Visits(env, rs', c, run);
    if !visited.verdict.Aborted? {
      EverythingIsVisited(rs', run.order);
      NamesNowDiffer(ren, rs, rs', c.live, {});
      AllMoved(rs, rs', c.live, visited.c.live, Visited(run.order, |rs'|));
      LeftOversAreKept(rs, rs', c.live, visited.c.live, run.deletions);
      assert run.removals == [];
      NoRemovals(env, visited.c);
    }
  }

  lemma NoRemovals(env: Env, c: Config)
    ensures Removals(env, [], c, []) == Step(c, Fine)
  {
  }

  lemma EverythingIsVisited(rs: seq<Resource>, order: seq<nat>)
    requires IsApplyOrder(rs, order)
    ensures forall i: nat :: i < |rs| ==> i in Visited(order, |rs|)
  {
    FirstAll(order);
  }

  /** What was left over and reached cycles still does. */
  lemma LeftOversAreKept(rs: seq<Resource>, rs': seq<Resource>, live: Registry, now: Registry, deletions: seq<string>)
    requires IsRenamedState(rs, rs', live, now) && OnlyCyclicLeftOver(rs, live)
    requires IsDeleteOrder(now, StaleKeys(now, rs'), deletions)
    ensures deletions == []
  {
    hide ReachesCycle, EffectiveName, CurrentKeys;
    assert StaleKeys(now, rs') == StaleKeys(live, rs) == LeftOver(rs, live).Keys;
    assert StaleGraph(now, StaleKeys(now, rs')) == StaleGraph(live, StaleKeys(live, rs));
    NothingDeletedIff(rs', now, deletions);
  }

  /**
   * After a clean run renaming costs nothing: the run need not have deleted what is left over on cycles, unless that is
   * at the place of a resource that now gets a new name.
   */
  lemma RenamingAfterCleanRun(env: Env, ren: string -> string, rs: seq<Resource>, rs': seq<Resource>, c: Config,
                              first: Run, again: Config, second: Run)
    requires WellDeclared(rs) && (forall i :: 0 <= i < |rs| ==> DependenciesExist(rs, rs[i]))
    requires Coherent(rs, c.live) && IsCleanRun(env, rs, c, first) && again.live == Outcome(env, rs, c, first).c.live
    requires IsRenaming(ren, rs, rs') && IsFresh(ren, rs, again.live) && NoOldEntries(rs, rs', again.live)
    requires IsRun(env, rs', again, second) && PicksRightly(env, rs', second.order, again, second.visits)
    ensures var end := Outcome(env, rs', again, second);
      && end.c.requests == again.requests
      && (!end.verdict.Aborted? ==> IsRenamedState(rs, rs', again.live, end.c.live))
      && ((forall k :: 0 <= k < |second.visits| ==> second.visits[k].saved) ==> end.verdict.Fine?)
  {
    hide IsRun, Outcome, IsRenaming, IsFresh, NoOldEntries, PicksRightly, IsRenamedState, WellDeclared;
    CleanRunLeavesSettledState(env, rs, c, first);
    RenamingCostsNothing(env, ren, rs, rs', again, second);
  }

  lemma CleanRunLeavesSettledState(env: Env, rs: seq<Resource>, c: Config, run: Run)
    requires WellDeclared(rs) && Coherent(rs, c.live) && IsCleanRun(env, rs, c, run)
    ensures IsSettledState(env.x, rs, Outcome(env, rs, c, run).c.live)
  {
    hide Updates, Removals, WellDeclared, Coherent, Settled, OnlyCyclicLeftOver, EffectiveName;
    CleanRunSettles(env, rs, c, run);
    AllAreVisited(rs, run.order);
    LeftOversAreCyclic(env, rs, c, run);
    forall i: nat | i < |rs| ensures EffectiveName(rs[i]) in Outcome(env, rs, c, run).c.live {
      SettledIsRecorded(env.x, rs[i], Outcome(env, rs, c, run).c.live);
    }
  }

  lemma SettledIsRecorded(x: Externals, r: Resource, live: Registry)
    requires Settled(x, r, live)
    ensures EffectiveName(r) in live
  {
  }

  /** What the caller can tell before the clean run: nothing old at the place, or no cycle among what is stale. */
  lemma NoOldEntriesAfter(env: Env, rs: seq<Resource>, rs': seq<Resource>, c: Config, run: Run)
    requires |rs'| == |rs| && IsCleanRun(env, rs, c, run)
    requires NoOldEntries(rs, rs', c.live) || NoStaleCycle(rs, c.live)
    ensures NoOldEntries(rs, rs', Outcome(env, rs, c, run).c.live)
  {
    hide Updates, Removals, EffectiveName, IsTaken, ReachesCycle, Remaining, IsDeleteOrder;
    var end := Outcome(env, rs, c, run).c.live;
    forall key | key in LeftOver(rs, end)
      ensures key in LeftOver(rs, c.live) && end[key] == c.live[key] && !NoStaleCycle(rs, c.live)
    {
      LeftOverOfCleanRun(env, rs, c, run, key);
    }
  }

  /** What a clean run leaves over was there and would have been deleted but for a cycle. */
  lemma LeftOverOfCleanRun(env: Env, rs: seq<Resource>, c: Config, run: Run, key: string)
    requires IsCleanRun(env, rs, c, run) && key in LeftOver(rs, Outcome(env, rs, c, run).c.live)
    ensures key in LeftOver(rs, c.live) && Outcome(env, rs, c, run).c.live[key] == c.live[key] &&
      !NoStaleCycle(rs, c.live)
  {
    hide Updates, Removals, EffectiveName, IsTaken, ReachesCycle, IsDeleteOrder, NoStaleCycle;
    var visited := Visits(env, rs, c, run).c;
    FineRemovalsRemove(env, run.deletions, visited, run.removals);
    FirstAll(run.deletions);
    StaleIsRemaining(env, rs, c, run);
    assert key in StaleKeys(visited.live, rs);
    DeletedIff(env, rs, c, run, key);
    if NoStaleCycle(rs, c.live) {
      RemainingIff(env, rs, c, run, key);
    }
  }

  /**
   * Exactly when a visit under a name not yet recorded sends no request whichever entry `FindByNsPath` hits:
   * there is an entry at the resource's place, and every entry at that place carries the digest.
   */
  lemma NewNameIsFreeIff(env: Env, r: Resource, c: Config, data: Value)
    requires Resolve(env.x, r.data, c.live) == Some(data) && RequestFor(env.x, r, data).Some?
    requires EffectiveName(r) !in c.live
    ensures (forall a: Answer :: IsPick(c.live, r, a.pick) ==> Visit(env, r, c, a).c.requests == c.requests) <==>
            && (exists k :: k in c.live && MatchesPlace(c.live[k], r))
            && (forall k :: k in c.live && MatchesPlace(c.live[k], r) ==>
              c.live[k].dataDigest == Digest(env.x, r, data))
  {
    hide Resolve, RequestFor, Place, EffectiveName;
    if forall a: Answer :: IsPick(c.live, r, a.pick) ==> Visit(env, r, c, a).c.requests == c.requests {
      var blind := Answer(None, Broken, true);
      assert IsPick(c.live, r, blind.pick) ==> Visit(env, r, c, blind).c.requests == c.requests;
      forall k | k in c.live && MatchesPlace(c.live[k], r) ensures c.live[k].dataDigest == Digest(env.x, r, data) {
        var a := Answer(Some(k), Broken, true);
        assert IsPick(c.live, r, a.pick);
        assert Visit(env, r, c, a).c.requests == c.requests;
      }
    }
  }
}
