/** What one step of `Apply` does, case by case, in terms of the resource, the state and the answers alone. */
module Steps {
  import opened Wrappers
  import opened Types
  import opened Templates
  import opened Reconciler

  /** A key of the state is stale exactly if no resource has that name. */
  lemma StaleIff(live: Registry, rs: seq<Resource>, key: string)
    ensures key in StaleKeys(live, rs) <==>
            key in live && forall i :: 0 <= i < |rs| ==> EffectiveName(rs[i]) != key
    ensures key in CurrentKeys(rs) <==> exists i :: 0 <= i < |rs| && EffectiveName(rs[i]) == key
  {
    hide EffectiveName;
  }

  // ---------------------------------------------------------------- requests

  /** No namespace is that of the client; any other is sent without one trailing slash. */
  predicate IsNamespaceOf(sent: Option<string>, namespace: string) {
    if namespace == "" then sent == None
    else if namespace[|namespace| - 1] == SLASH then sent.Some? && sent.value + [SLASH] == namespace
    else sent == Some(namespace)
  }

  /** The path is sent without one leading slash. */
  predicate IsPathOf(sent: string, path: string) {
    if path != "" && path[0] == SLASH then [SLASH] + sent == path else sent == path
  }

  /** A read of the resource's place if its method is GET, otherwise a write of exactly these data to it. */
  predicate Carries(x: Externals, request: Request, r: Resource, data: Value) {
    && !request.Delete? && IsNamespaceOf(request.namespace, r.namespace) && IsPathOf(request.path, r.path)
    && (if x.upperTrimmed(r.httpMethod) == "GET" then request.Read? else request.Write? && data == Object(request.body))
  }

  /** A delete of the entry's place. */
  predicate IsDeletionOf(request: Request, e: StateResource) {
    request.Delete? && IsNamespaceOf(request.namespace, e.namespace) && IsPathOf(request.path, e.path)
  }

  // ---------------------------------------------------------------- visits

  /** The digest of the data with the revision, which counts as zero when negative. */
  function DigestOf(x: Externals, r: Resource, data: Value): string {
    x.digest(data, if r.revision < 0 then 0 else r.revision)
  }

  predicate HasDigest(live: Registry, key: string, digest: string) {
    key in live && live[key].dataDigest == digest
  }

  /** The name has no entry, and the one found is at the resource's place and carries the digest. */
  predicate FindsMatch(live: Registry, r: Resource, digest: string, pick: Option<string>) {
    && EffectiveName(r) !in live
    && pick.Some? && HasDigest(live, pick.value, digest) && MatchesPlace(live[pick.value], r)
  }

  /** GET needs no data; anything else sends an object. */
  predicate CanBeSent(x: Externals, r: Resource, data: Value) {
    x.upperTrimmed(r.httpMethod) == "GET" || data.Object?
  }

  /** After a change of the state: it is stored, or the save has failed, or there is no writer. */
  predicate IsSaved(env: Env, before: Config, after: Step, saved: bool) {
    if !env.writing then
      after.c.stored == before.stored && after.c.saves == before.saves && after.verdict.Fine?
    else
      && after.c.saves == before.saves + 1
      && after.c.stored == (if saved then after.c.live else before.stored)
      && (after.verdict.Fine? <==> saved)
  }

  /** A visit whose templates do not resolve, or whose data cannot be sent, fails and does nothing else. */
  lemma FailingVisit(env: Env, r: Resource, c: Config, a: Answer)
    requires var data := Resolve(env.x, r.data, c.live);
      data.Some? ==>
        && !HasDigest(c.live, EffectiveName(r), DigestOf(env.x, r, data.value))
        && !FindsMatch(c.live, r, DigestOf(env.x, r, data.value), a.pick)
        && !CanBeSent(env.x, r, data.value)
    ensures var step := Visit(env, r, c, a); step.c == c && !step.verdict.Fine?
  {
    hide Resolve, EffectiveName, Place;
  }

  /** A resource recorded with its present digest is passed over. */
  lemma KnownVisit(env: Env, r: Resource, c: Config, a: Answer)
    requires var data := Resolve(env.x, r.data, c.live);
      data.Some? && HasDigest(c.live, EffectiveName(r), DigestOf(env.x, r, data.value))
    ensures Visit(env, r, c, a) == Step(c, Fine)
  {
    hide Resolve, EffectiveName;
  }

  /** A matching entry moves to the resource's name and place with all else it holds; nothing is requested. */
  lemma TakingVisit(env: Env, r: Resource, c: Config, a: Answer)
    requires var data := Resolve(env.x, r.data, c.live);
      data.Some? && FindsMatch(c.live, r, DigestOf(env.x, r, data.value), a.pick)
    ensures var step, was := Visit(env, r, c, a), c.live[a.pick.value];
      && step.c.requests == c.requests
      && IsSaved(env, c, step, a.saved)
      && step.c.live.Keys == c.live.Keys - {a.pick.value} + {EffectiveName(r)}
      && (forall key :: key in step.c.live && key != EffectiveName(r) ==> step.c.live[key] == c.live[key])
      && step.c.live[EffectiveName(r)] ==
         StateResource(was.dataDigest, was.dependencies, was.ignoreFailures, was.responseData, r.namespace, r.path)
  {
    hide Resolve, EffectiveName, Place;
  }

  /** Any other visit makes exactly one request; on an answer the entry records it, and no other entry changes. */
  lemma SendingVisit(env: Env, r: Resource, c: Config, a: Answer) returns (request: Request)
    requires Resolve(env.x, r.data, c.live).Some?
    requires var data := Resolve(env.x, r.data, c.live).value;
      && !HasDigest(c.live, EffectiveName(r), DigestOf(env.x, r, data))
      && !FindsMatch(c.live, r, DigestOf(env.x, r, data), a.pick)
      && CanBeSent(env.x, r, data)
    ensures var data, step := Resolve(env.x, r.data, c.live).value, Visit(env, r, c, a);
      && Carries(env.x, request, r, data) && step.c.requests == c.requests + [request]
      && (if a.reply.Answered? then
            && IsSaved(env, c, step, a.saved)
            && step.c.live == c.live[EffectiveName(r) := StateResource(DigestOf(env.x, r, data), r.dependencies,
                 r.ignoreFailures, a.reply.data, r.namespace, r.path)]
          else
            step.c == c.(requests := c.requests + [request]) && !step.verdict.Fine?)
  {
    hide Resolve, EffectiveName, Place;
    request := RequestFor(env.x, r, Resolve(env.x, r.data, c.live).value).value;
  }

  /** Exactly when a visit makes a request. */
  lemma AsksIff(env: Env, r: Resource, c: Config, a: Answer)
    ensures Visit(env, r, c, a).c.requests != c.requests <==>
      && Resolve(env.x, r.data, c.live).Some?
      && var data := Resolve(env.x, r.data, c.live).value;
        && !HasDigest(c.live, EffectiveName(r), DigestOf(env.x, r, data))
        && !FindsMatch(c.live, r, DigestOf(env.x, r, data), a.pick)
        && CanBeSent(env.x, r, data)
  {
    hide Resolve, EffectiveName, Place;
  }

  /** A failure of a visit aborts the run unless the resource says that its failures are ignored. */
  lemma VisitVerdict(env: Env, r: Resource, c: Config, a: Answer)
    ensures var verdict := Visit(env, r, c, a).verdict;
      && (verdict.Aborted? ==> !r.ignoreFailures)
      && (verdict.Ignored? ==> r.ignoreFailures)
  {
    hide Resolve, RequestFor, EffectiveName, Place;
  }

  // ---------------------------------------------------------------- removals

  /** The entry is removed when the server has deleted it, does not find it, or does not allow the method. */
  lemma RemovalEffect(env: Env, key: string, c: Config, a: Answer) returns (request: Request)
    requires key in c.live
    ensures var step := Removal(env, key, c, a);
      && IsDeletionOf(request, c.live[key]) && step.c.requests == c.requests + [request]
      && (if a.reply.Answered? || a.reply == Status(404) || a.reply == Status(405) then
            && IsSaved(env, c, step, a.saved)
            && step.c.live.Keys == c.live.Keys - {key}
            && (forall other :: other in step.c.live ==> step.c.live[other] == c.live[other])
          else
            step.c == c.(requests := c.requests + [request]) && !step.verdict.Fine?)
  {
    request := DeleteRequest(c.live[key]);
  }

  /** A failure of a removal aborts the run unless the entry says that failures are ignored. */
  lemma RemovalVerdict(env: Env, key: string, c: Config, a: Answer)
    requires key in c.live
    ensures var verdict := Removal(env, key, c, a).verdict;
      && (verdict.Aborted? ==> !c.live[key].ignoreFailures)
      && (verdict.Ignored? ==> c.live[key].ignoreFailures)
  {
  }
}
