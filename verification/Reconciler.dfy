/** Apply: bring the server to the declared resources, one visit per resource, then delete what is stale. */
module Reconciler {
  import opened Wrappers
  import opened Strings
  import opened Types
  import opened Templates
  import opened Graph
  import opened Ordering
  import opened DeleteOrder

  // ---------------------------------------------------------------- the outside

  /** A request to the server. No namespace means that of the client. */
  datatype Request =
    | Read(namespace: Option<string>, path: string)
    | Write(namespace: Option<string>, path: string, body: map<string, Value>)
    | Delete(namespace: Option<string>, path: string)

  /** A response (`Null` when there is no secret or no data), an HTTP error status, or any other error. */
  datatype Reply = Answered(data: Value) | Status(code: int) | Broken

  /** The server answers as it likes; `requests` is everything it was asked. */
  class Client {
    ghost var requests: seq<Request>

    method Send(request: Request) returns (reply: Reply)
      modifies this
      ensures requests == old(requests) + [request]
    {
      requests := requests + [request];
      reply := *;
    }
  }

  /** A save takes effect or fails; `saves` counts the attempts. */
  class StateWriter {
    var stored: Registry
    ghost var saves: nat

    method SaveState(state: State) returns (ok: bool)
      modifies this
      ensures stored == if ok then state.resources else old(stored)
      ensures saves == old(saves) + 1
    {
      ok := *;
      if ok {
        stored := state.resources;
      }
      saves := saves + 1;
    }
  }

  // ---------------------------------------------------------------- one step

  datatype Config = Config(live: Registry, stored: Registry, requests: seq<Request>, saves: nat)

  /** What the outside contributes to one step: the entry found, the reply, the fate of the save. */
  datatype Answer = Answer(pick: Option<string>, reply: Reply, saved: bool)

  datatype Verdict = Fine | Ignored | Aborted

  datatype Step = Step(c: Config, verdict: Verdict)

  /** The external functions, and whether there is a state writer. */
  datatype Env = Env(x: Externals, writing: bool)

  function Worse(a: Verdict, b: Verdict): Verdict {
    if b.Fine? then a else if a.Aborted? then a else b
  }

  function GiveUp(ignoreFailures: bool): Verdict {
    if ignoreFailures then Ignored else Aborted
  }

  function RevisionForDigest(revision: int): nat {
    if revision < 0 then 0 else revision
  }

  predicate IsGet(x: Externals, r: Resource) {
    x.upperTrimmed(r.httpMethod) == "GET"
  }

  function ClientNamespace(namespace: string): Option<string> {
    if namespace == "" then None else Some(TrimSuffix(namespace, SLASH))
  }

  /** None when the data to send is not an object. */
  function RequestFor(x: Externals, r: Resource, data: Value): Option<Request> {
    var ns, path := ClientNamespace(r.namespace), TrimPrefix(r.path, SLASH);
    if IsGet(x, r) then Some(Read(ns, path))
    else if data.Object? then Some(Write(ns, path, data.fields))
    else None
  }

  function Digest(x: Externals, r: Resource, data: Value): string {
    x.digest(data, RevisionForDigest(r.revision))
  }

  /** The entry is recorded under the resource's name with exactly this digest. */
  predicate UpToDate(live: Registry, r: Resource, digest: string) {
    EffectiveName(r) in live && live[EffectiveName(r)].dataDigest == digest
  }

  predicate Migrates(live: Registry, r: Resource, digest: string, pick: Option<string>) {
    && EffectiveName(r) !in live
    && pick.Some? && pick.value in live && MatchesPlace(live[pick.value], r)
    && live[pick.value].dataDigest == digest
  }

  /** The old entry under the new name, with the resource's own spelling of its place. */
  function Migrate(live: Registry, r: Resource, oldKey: string): Registry
    requires oldKey in live
  {
    live[EffectiveName(r) := live[oldKey].(namespace := r.namespace, path := r.path)] - {oldKey}
  }

  function Recorded(r: Resource, digest: string, response: Value): StateResource {
    StateResource(digest, r.dependencies, r.ignoreFailures, response, r.namespace, r.path)
  }

  /** The in-memory state changes; then it is saved, if there is a writer. */
  function Persist(env: Env, c: Config, live: Registry, saved: bool, ignoreFailures: bool): Step {
    if !env.writing then Step(c.(live := live), Fine)
    else if saved then Step(c.(live := live, stored := live, saves := c.saves + 1), Fine)
    else Step(c.(live := live, saves := c.saves + 1), GiveUp(ignoreFailures))
  }

  function Visit(env: Env, r: Resource, c: Config, a: Answer): Step {
    match Resolve(env.x, r.data, c.live)
    case None => Step(c, GiveUp(r.ignoreFailures))
    case Some(data) =>
      var digest := Digest(env.x, r, data);
      if UpToDate(c.live, r, digest) then Step(c, Fine)
      else if Migrates(c.live, r, digest, a.pick) then
        Persist(env, c, Migrate(c.live, r, a.pick.value), a.saved, r.ignoreFailures)
      else
        match RequestFor(env.x, r, data)
        case None => Step(c, GiveUp(r.ignoreFailures))
        case Some(request) =>
          var asked := c.(requests := c.requests + [request]);
          if a.reply.Answered? then
            var live := c.live[EffectiveName(r) := Recorded(r, digest, a.reply.data)];
            Persist(env, asked, live, a.saved, r.ignoreFailures)
          else Step(asked, GiveUp(r.ignoreFailures))
  }

  /** Go's zero value for a missing map entry. */
  function EntryAt(live: Registry, key: string): StateResource {
    if key in live then live[key] else StateResource("", [], false, Null, "", "")
  }

  /** The server has nothing (left) at the place: deleted, not found, or no such method. */
  predicate IsGone(reply: Reply) {
    reply.Answered? || (reply.Status? && (reply.code == 404 || reply.code == 405))
  }

  function DeleteRequest(e: StateResource): Request {
    Delete(ClientNamespace(e.namespace), TrimPrefix(e.path, SLASH))
  }

  function Removal(env: Env, key: string, c: Config, a: Answer): Step {
    var e := EntryAt(c.live, key);
    var asked := c.(requests := c.requests + [DeleteRequest(e)]);
    if IsGone(a.reply) then Persist(env, asked, c.live - {key}, a.saved, e.ignoreFailures)
    else Step(asked, GiveUp(e.ignoreFailures))
  }

  // ---------------------------------------------------------------- a whole run

  /** The visits made so far; after an abort nothing more happens. The verdict is the worst one met. */
  function Updates(env: Env, rs: seq<Resource>, order: seq<nat>, c: Config, answers: seq<Answer>): Step
    requires |answers| <= |order| && InRange(order, |rs|)
  {
    if answers == [] then Step(c, Fine)
    else
      var n := |answers| - 1;
      var before := Updates(env, rs, order, c, answers[..n]);
      if before.verdict.Aborted? then before
      else
        var step := Visit(env, rs[order[n]], before.c, answers[n]);
        Step(step.c, Worse(before.verdict, step.verdict))
  }

  function Removals(env: Env, keys: seq<string>, c: Config, answers: seq<Answer>): Step
    requires |answers| <= |keys|
  {
    if answers == [] then Step(c, Fine)
    else
      var n := |answers| - 1;
      var before := Removals(env, keys, c, answers[..n]);
      if before.verdict.Aborted? then before
      else
        var step := Removal(env, keys[n], before.c, answers[n]);
        Step(step.c, Worse(before.verdict, step.verdict))
  }

  function CurrentKeys(rs: seq<Resource>): set<string> {
    set i | 0 <= i < |rs| :: EffectiveName(rs[i])
  }

  function StaleKeys(live: Registry, rs: seq<Resource>): set<string> {
    live.Keys - CurrentKeys(rs)
  }

  /** The choices of one run: apply order and delete order, and the outside's answers along them. */
  datatype Run = Run(order: seq<nat>, visits: seq<Answer>, deletions: seq<string>, removals: seq<Answer>)

  predicate Indexes(rs: seq<Resource>, run: Run) {
    |run.visits| <= |run.order| && |run.removals| <= |run.deletions| && InRange(run.order, |rs|)
  }

  function Visits(env: Env, rs: seq<Resource>, c: Config, run: Run): Step
    requires Indexes(rs, run)
  {
    Updates(env, rs, run.order, c, run.visits)
  }

  function Outcome(env: Env, rs: seq<Resource>, c: Config, run: Run): Step
    requires Indexes(rs, run)
  {
    var visited := Visits(env, rs, c, run);
    if visited.verdict.Aborted? then visited
    else
      var removed := Removals(env, run.deletions, visited.c, run.removals);
      Step(removed.c, Worse(visited.verdict, removed.verdict))
  }

  /** A run of `Apply` past the cycle check: it goes to the end unless a failure aborts it. */
  ghost predicate IsRun(env: Env, rs: seq<Resource>, c: Config, run: Run) {
    && Indexes(rs, run)
    && IsApplyOrder(rs, run.order)
    && var visited := Visits(env, rs, c, run);
      if visited.verdict.Aborted? then
        run.deletions == []
      else
        && |run.visits| == |run.order|
        && IsDeleteOrder(visited.c.live, StaleKeys(visited.c.live, rs), run.deletions)
        && (|run.removals| == |run.deletions| || Removals(env, run.deletions, visited.c, run.removals).verdict.Aborted?)
  }

  /** Only the last visit made can be the one that aborts. */
  predicate VisitsStop(env: Env, rs: seq<Resource>, order: seq<nat>, c: Config, answers: seq<Answer>)
    requires |answers| <= |order| && InRange(order, |rs|)
  {
    answers == [] || !Updates(env, rs, order, c, answers[..|answers| - 1]).verdict.Aborted?
  }

  predicate RemovalsStop(env: Env, keys: seq<string>, c: Config, answers: seq<Answer>)
    requires |answers| <= |keys|
  {
    answers == [] || !Removals(env, keys, c, answers[..|answers| - 1]).verdict.Aborted?
  }

  /** Nothing is asked of the outside after an abort. */
  predicate StopsOnAbort(env: Env, rs: seq<Resource>, c: Config, run: Run)
    requires Indexes(rs, run)
  {
    && VisitsStop(env, rs, run.order, c, run.visits)
    && RemovalsStop(env, run.deletions, Visits(env, rs, c, run).c, run.removals)
  }

  /** `FindByNsPath` is asked only for a resource whose name has no entry. */
  predicate IsRightPick(env: Env, r: Resource, c: Config, a: Answer) {
    Resolve(env.x, r.data, c.live).Some? && EffectiveName(r) !in c.live ==> IsPick(c.live, r, a.pick)
  }

  /** What `FindByNsPath` is assumed to have found was there to be found, and it found something if it could. */
  ghost predicate PicksRightly(env: Env, rs: seq<Resource>, order: seq<nat>, c: Config, answers: seq<Answer>)
    requires |answers| <= |order| && InRange(order, |rs|)
  {
    forall k {:trigger answers[..k]} :: 0 <= k < |answers| ==>
      IsRightPick(env, rs[order[k]], Updates(env, rs, order, c, answers[..k]).c, answers[k])
  }

  lemma NoVisits(env: Env, rs: seq<Resource>, order: seq<nat>, c: Config)
    requires InRange(order, |rs|)
    ensures Updates(env, rs, order, c, []) == Step(c, Fine) && PicksRightly(env, rs, order, c, [])
  {
  }

  lemma OneMoreVisit(env: Env, rs: seq<Resource>, order: seq<nat>, c: Config, answers: seq<Answer>, a: Answer)
    requires |answers| < |order| && InRange(order, |rs|) && PicksRightly(env, rs, order, c, answers)
    requires var before := Updates(env, rs, order, c, answers);
      !before.verdict.Aborted? && IsRightPick(env, rs[order[|answers|]], before.c, a)
    ensures VisitsStop(env, rs, order, c, answers + [a])
    ensures PicksRightly(env, rs, order, c, answers + [a])
    ensures var before := Updates(env, rs, order, c, answers);
      var step := Visit(env, rs[order[|answers|]], before.c, a);
      Updates(env, rs, order, c, answers + [a]) == Step(step.c, Worse(before.verdict, step.verdict))
  {
    hide Visit, IsRightPick;
    var longer := answers + [a];
    assert longer[..|answers|] == answers;
    forall k | 0 <= k < |longer|
      ensures IsRightPick(env, rs[order[k]], Updates(env, rs, order, c, longer[..k]).c, longer[k])
    {
      if k < |answers| {
        assert longer[..k] == answers[..k];
      }
    }
  }

  lemma OneMoreRemoval(env: Env, keys: seq<string>, c: Config, answers: seq<Answer>, a: Answer)
    requires |answers| < |keys|
    requires !Removals(env, keys, c, answers).verdict.Aborted?
    ensures RemovalsStop(env, keys, c, answers + [a])
    ensures var before := Removals(env, keys, c, answers);
      var step := Removal(env, keys[|answers|], before.c, a);
      Removals(env, keys, c, answers + [a]) == Step(step.c, Worse(before.verdict, step.verdict))
  {
    assert (answers + [a])[..|answers|] == answers;
  }

  /** A run that has not aborted had not aborted before. */
  lemma {:induction false} NotAbortedBefore(env: Env, rs: seq<Resource>, order: seq<nat>, c: Config,
                                            answers: seq<Answer>, m: nat)
    requires m <= |answers| <= |order| && InRange(order, |rs|)
    requires !Updates(env, rs, order, c, answers).verdict.Aborted?
    ensures !Updates(env, rs, order, c, answers[..m]).verdict.Aborted?
  {
    hide Visit;
    assert answers[..|answers|] == answers;
    if m < |answers| {
      NotAbortedBefore(env, rs, order, c, answers[..|answers| - 1], m);
      assert answers[..|answers| - 1][..m] == answers[..m];
    }
  }

  // ---------------------------------------------------------------- the program

  datatype Failure = NoClient | CyclicDependencies | Stopped

  ghost function Snapshot(client: Client, state: State, writer: StateWriter?): Config
    reads client, state, writer
  {
    if writer == null then Config(state.resources, map[], client.requests, 0)
    else Config(state.resources, writer.stored, client.requests, writer.saves)
  }

  method Save(state: State, writer: StateWriter?, ignoreFailures: bool) returns (verdict: Verdict, ghost saved: bool)
    modifies writer
    ensures writer == null ==> verdict == Fine
    ensures writer != null ==>
      && writer.stored == (if saved then state.resources else old(writer.stored))
      && writer.saves == old(writer.saves) + 1
      && verdict == if saved then Fine else GiveUp(ignoreFailures)
  {
    verdict, saved := Fine, true;
    if writer != null {
      var ok := writer.SaveState(state);
      verdict, saved := if ok then Fine else GiveUp(ignoreFailures), ok;
    }
  }

  /** The body of the create-or-update loop. */
  method VisitResource(x: Externals, r: Resource, client: Client, state: State, writer: StateWriter?)
      returns (verdict: Verdict, ghost a: Answer)
    modifies client, state, writer
    ensures var env, before := Env(x, writer != null), old(Snapshot(client, state, writer));
      && IsRightPick(env, r, before, a)
      && Step(Snapshot(client, state, writer), verdict) == Visit(env, r, before, a)
  {
    hide Resolve, RequestFor, EffectiveName, Place;
    var key := EffectiveName(r);
    a := Answer(None, Broken, true);
    var resolved := ResolveTemplates(x, r.data, state);
    if resolved.None? {
      return GiveUp(r.ignoreFailures), a;
    }
    var data := resolved.value;
    var digest := Digest(x, r, data);
    if key in state.resources && state.resources[key].dataDigest == digest {
      return Fine, a;
    }
    if key !in state.resources {
      var found := state.FindByNsPath(r);
      a := Answer(found, Broken, true);
      if found.Some? && state.resources[found.value].dataDigest == digest {
        var prev := state.resources[found.value];
        state.resources := state.resources[key := prev.(namespace := r.namespace, path := r.path)];
        state.resources := state.resources - {found.value};
        ghost var saved;
        verdict, saved := Save(state, writer, r.ignoreFailures);
        return verdict, Answer(found, Broken, saved);
      }
    }
    var request := RequestFor(x, r, data);
    if request.None? {
      return GiveUp(r.ignoreFailures), a;
    }
    var reply := client.Send(request.value);
    a := Answer(a.pick, reply, true);
    if !reply.Answered? {
      return GiveUp(r.ignoreFailures), a;
    }
    state.resources := state.resources[key := Recorded(r, digest, reply.data)];
    ghost var saved;
    verdict, saved := Save(state, writer, r.ignoreFailures);
    a := Answer(a.pick, reply, saved);
  }

  /** The body of the delete loop. */
  method RemoveResource(x: Externals, key: string, client: Client, state: State, writer: StateWriter?)
      returns (verdict: Verdict, ghost a: Answer)
    modifies client, state, writer
    ensures Step(Snapshot(client, state, writer), verdict) ==
            Removal(Env(x, writer != null), key, old(Snapshot(client, state, writer)), a)
  {
    var e := EntryAt(state.resources, key);
    var reply := client.Send(DeleteRequest(e));
    a := Answer(None, reply, true);
    if IsGone(reply) {
      state.resources := state.resources - {key};
      ghost var saved;
      verdict, saved := Save(state, writer, e.ignoreFailures);
      a := Answer(None, reply, saved);
    } else {
      verdict := GiveUp(e.ignoreFailures);
    }
  }

  method CreateOrUpdate(x: Externals, rs: seq<Resource>, order: seq<nat>, client: Client, state: State,
                        writer: StateWriter?)
      returns (verdict: Verdict, ghost answers: seq<Answer>)
    requires InRange(order, |rs|)
    modifies client, state, writer
    ensures |answers| <= |order| && (verdict.Aborted? || |answers| == |order|)
    ensures var env, before := Env(x, writer != null), old(Snapshot(client, state, writer));
      && VisitsStop(env, rs, order, before, answers)
      && PicksRightly(env, rs, order, before, answers)
      && Step(Snapshot(client, state, writer), verdict) == Updates(env, rs, order, before, answers)
  {
    hide Visit, IsRightPick;
    ghost var env, before := Env(x, writer != null), Snapshot(client, state, writer);
    verdict, answers := Fine, [];
    for k := 0 to |order|
      invariant |answers| == k && !verdict.Aborted?
      invariant VisitsStop(env, rs, order, before, answers)
      invariant PicksRightly(env, rs, order, before, answers)
      invariant Step(Snapshot(client, state, writer), verdict) == Updates(env, rs, order, before, answers)
    {
      var visit, a := VisitResource(x, rs[order[k]], client, state, writer);
      OneMoreVisit(env, rs, order, before, answers, a);
      verdict, answers := Worse(verdict, visit), answers + [a];
      if visit.Aborted? {
        return;
      }
    }
  }

  method DeleteStale(x: Externals, keys: seq<string>, client: Client, state: State, writer: StateWriter?)
      returns (verdict: Verdict, ghost answers: seq<Answer>)
    modifies client, state, writer
    ensures |answers| <= |keys| && (verdict.Aborted? || |answers| == |keys|)
    ensures var env, before := Env(x, writer != null), old(Snapshot(client, state, writer));
      && RemovalsStop(env, keys, before, answers)
      && Step(Snapshot(client, state, writer), verdict) == Removals(env, keys, before, answers)
  {
    ghost var env, before := Env(x, writer != null), Snapshot(client, state, writer);
    verdict, answers := Fine, [];
    for k := 0 to |keys|
      invariant |answers| == k && !verdict.Aborted?
      invariant RemovalsStop(env, keys, before, answers)
      invariant Step(Snapshot(client, state, writer), verdict) == Removals(env, keys, before, answers)
    {
      var removal, a := RemoveResource(x, keys[k], client, state, writer);
      OneMoreRemoval(env, keys, before, answers, a);
      verdict, answers := Worse(verdict, removal), answers + [a];
      if removal.Aborted? {
        return;
      }
    }
  }

  /** The stale keys in whatever order the map hands them out. */
  method CollectStale(rs: seq<Resource>, state: State) returns (stale: seq<string>)
    ensures Distinct(stale) && forall k :: k in stale ==> k in state.resources
    ensures (set k | k in stale) == StaleKeys(state.resources, rs)
  {
    var current: set<string> := {};
    for i := 0 to |rs|
      invariant current == set j | 0 <= j < i :: EffectiveName(rs[j])
    {
      current := current + {EffectiveName(rs[i])};
    }
    stale := [];
    var todo := state.resources.Keys;
    while todo != {}
      invariant todo <= state.resources.Keys && Distinct(stale)
      invariant forall k :: k in stale <==> k in state.resources && k !in todo && k !in current
    {
      var k :| k in todo;
      if k !in current {
        stale := stale + [k];
      }
      todo := todo - {k};
    }
  }

  /** Everything after the checks, for an order already computed. */
  method Reconcile(x: Externals, rs: seq<Resource>, order: seq<nat>, client: Client, state: State, writer: StateWriter?)
      returns (stopped: bool, ghost run: Run, ghost end: Step)
    requires IsApplyOrder(rs, order) && InRange(order, |rs|)
    modifies client, state, writer
    ensures var env, before := Env(x, writer != null), old(Snapshot(client, state, writer));
      && IsRun(env, rs, before, run)
      && StopsOnAbort(env, rs, before, run)
      && PicksRightly(env, rs, run.order, before, run.visits)
      && end == Outcome(env, rs, before, run)
      && end.c == Snapshot(client, state, writer)
      && stopped == end.verdict.Aborted?
  {
    ghost var env, before := Env(x, writer != null), Snapshot(client, state, writer);
    var verdict, visits := CreateOrUpdate(x, rs, order, client, state, writer);
    ghost var visited := Step(Snapshot(client, state, writer), verdict);
    run := Run(order, visits, [], []);
    if verdict.Aborted? {
      return true, run, visited;
    }
    var stale := CollectStale(rs, state);
    var deletions := DeleteOrderFromState(state, stale);
    var removal, removals := DeleteStale(x, deletions, client, state, writer);
    run := Run(order, visits, deletions, removals);
    assert Visits(env, rs, before, run) == visited;
    return removal.Aborted?, run, Step(Snapshot(client, state, writer), Worse(verdict, removal));
  }

  /** Nothing outside has changed. */
  twostate predicate Untouched(client: Client?, state: State?, writer: StateWriter?)
    reads client, state, writer
  {
    && (client != null ==> client.requests == old(client.requests))
    && (state != null ==> state.resources == old(state.resources))
    && (writer != null ==> writer.stored == old(writer.stored) && writer.saves == old(writer.saves))
  }

  /** A run started from the given state, or from an empty one when there is none. */
  twostate predicate Happened(x: Externals, rs: seq<Resource>, client: Client, given: State?, writer: StateWriter?,
                              run: Run, end: Step)
    reads client, given, writer
  {
    var begin := Config(
      if given == null then map[] else old(given.resources),
      if writer == null then map[] else old(writer.stored),
      old(client.requests),
      if writer == null then 0 else old(writer.saves));
    && IsRun(Env(x, writer != null), rs, begin, run)
    && StopsOnAbort(Env(x, writer != null), rs, begin, run)
    && PicksRightly(Env(x, writer != null), rs, run.order, begin, run.visits)
    && Outcome(Env(x, writer != null), rs, begin, run) == end
    && client.requests == end.c.requests
    && (given != null ==> given.resources == end.c.live)
    && end.c.stored == (if writer == null then map[] else writer.stored)
    && end.c.saves == (if writer == null then 0 else writer.saves)
  }

  method Apply(x: Externals, rs: seq<Resource>, client: Client?, given: State?, writer: StateWriter?)
      returns (failure: Option<Failure>, ghost run: Run, ghost end: Step)
    modifies client, given, writer
    ensures failure == Some(NoClient) <==> client == null
    ensures failure == Some(CyclicDependencies) <==> client != null && IsCyclic(rs)
    ensures client == null || IsCyclic(rs) ==> Untouched(client, given, writer)
    ensures client != null && !IsCyclic(rs) ==>
      && Happened(x, rs, client, given, writer, run, end)
      && failure == if end.verdict.Aborted? then Some(Stopped) else None
  {
    run, end := Run([], [], [], []), Step(Config(map[], map[], [], 0), Fine);
    if client == null {
      return Some(NoClient), run, end;
    }
    var state := given;
    if state == null {
      state := new State();
    }
    var order := TopologicalOrder(rs);
    if order.None? {
      return Some(CyclicDependencies), run, end;
    }
    var stopped;
    stopped, run, end := Reconcile(x, rs, order.value, client, state, writer);
    return if stopped then Some(Stopped) else None, run, end;
  }
}
