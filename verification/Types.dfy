/** Resources, the state registry, and the normal form of namespaces and paths. */
module Types {
  import opened Wrappers
  import opened Strings

  /**
   * YAML and JSON values as Go's `interface{}` holds them. `Null` is nil, `Scalar` a number or boolean,
   * `Mixed` a map whose keys are not all strings.
   */
  datatype Value =
    | Null
    | Scalar(repr: string)
    | Mixed(repr: string)
    | Text(text: string)
    | Items(items: seq<Value>)
    | Object(fields: map<string, Value>)

  datatype Resource = Resource(
    path: string,
    data: Value,
    namespace: string,
    name: string,
    revision: int,
    dependencies: seq<string>,
    ignoreFailures: bool,
    httpMethod: string)

  datatype StateResource = StateResource(
    dataDigest: string,
    dependencies: seq<string>,
    ignoreFailures: bool,
    responseData: Value,
    namespace: string,
    path: string)

  type Registry = map<string, StateResource>

  /** The library functions whose results the program uses but does not depend on the inside of. */
  datatype Externals = Externals(
    digest: (Value, nat) -> string,       // SHA-256 of the JSON of data and revision
    sprint: Value -> string,              // fmt.Sprint
    scanIndex: string -> Option<int>,     // fmt.Sscanf with %d
    upperTrimmed: string -> string)       // strings.ToUpper of strings.TrimSpace

  const SLASH := '/'

  function NormalizeNamespace(s: string): (ns: string)
    ensures ns == "" || (ns[0] != SLASH && ns[|ns| - 1] == SLASH)
    ensures s != "" && s[0] != SLASH && s[|s| - 1] == SLASH ==> ns == s
  {
    var t := TrimLeft(s, SLASH);
    if t == "" || t[|t| - 1] == SLASH then t else t + [SLASH]
  }

  function NormalizePath(s: string): (path: string)
    ensures path == "" || (path[0] != SLASH && path[|path| - 1] != SLASH)
    ensures s != "" && s[0] != SLASH && s[|s| - 1] != SLASH ==> path == s
  {
    Trim(s, SLASH)
  }

  function NormalizeResource(r: Resource): Resource {
    r.(namespace := NormalizeNamespace(r.namespace), path := NormalizePath(r.path))
  }

  /** The name if there is one, otherwise namespace and path; also the key of the state entry. */
  function EffectiveName(r: Resource): string {
    if r.name != "" then r.name
    else NormalizeNamespace(r.namespace) + NormalizePath(r.path)
  }

  /** Namespace and path up to the slashes that normalization ignores. */
  function Place(namespace: string, path: string): (string, string) {
    (NormalizeNamespace(namespace), NormalizePath(path))
  }

  function PlaceOf(r: Resource): (string, string) {
    Place(r.namespace, r.path)
  }

  predicate MatchesPlace(e: StateResource, r: Resource) {
    Place(e.namespace, e.path) == PlaceOf(r)
  }

  predicate OnlySlashes(s: string) {
    forall i :: 0 <= i < |s| ==> s[i] == SLASH
  }

  /** Leading slashes go, and one at the end comes unless there is one or nothing is left. */
  lemma {:induction false} NamespaceIs(slashes: string, rest: string)
    requires OnlySlashes(slashes) && (rest == "" || rest[0] != SLASH)
    ensures NormalizeNamespace(slashes + rest) ==
            if rest == "" || rest[|rest| - 1] == SLASH then rest else rest + [SLASH]
  {
    if slashes == "" {
      assert slashes + rest == rest;
    } else {
      assert (slashes + rest)[1..] == slashes[1..] + rest;
      NamespaceIs(slashes[1..], rest);
    }
  }

  lemma {:induction false} LeadingSlashesGo(slashes: string, rest: string)
    requires OnlySlashes(slashes)
    ensures TrimLeft(slashes + rest, SLASH) == TrimLeft(rest, SLASH)
  {
    if slashes == "" {
      assert slashes + rest == rest;
    } else {
      assert (slashes + rest)[1..] == slashes[1..] + rest;
      LeadingSlashesGo(slashes[1..], rest);
    }
  }

  lemma {:induction false} TrailingSlashesGo(rest: string, slashes: string)
    requires OnlySlashes(slashes)
    ensures TrimRight(rest + slashes, SLASH) == TrimRight(rest, SLASH)
  {
    if slashes == "" {
      assert rest + slashes == rest;
    } else {
      var n := |slashes| - 1;
      assert (rest + slashes)[..|rest + slashes| - 1] == rest + slashes[..n];
      TrailingSlashesGo(rest, slashes[..n]);
    }
  }

  /** Slashes at both ends go, and nothing else. */
  lemma PathIs(before: string, path: string, after: string)
    requires OnlySlashes(before) && OnlySlashes(after)
    requires path != "" && path[0] != SLASH && path[|path| - 1] != SLASH
    ensures NormalizePath(before + path + after) == path
  {
    hide TrimLeft, TrimRight;
    var rest := path + after;
    assert before + path + after == before + rest && rest[0] == path[0];
    LeadingSlashesGo(before, rest);
    assert TrimLeft(rest, SLASH) == rest;
    TrailingSlashesGo(path, after);
  }

  /** A resource is known by its name if it has one, and otherwise by its namespace, with one slash, and its path. */
  lemma NameIs(r: Resource)
    ensures r.name != "" ==> EffectiveName(r) == r.name
    ensures var ns, path := r.namespace, r.path;
      && r.name == "" && path != "" && path[0] != SLASH && path[|path| - 1] != SLASH
      && (ns != "" ==> ns[0] != SLASH && ns[|ns| - 1] != SLASH)
      ==> EffectiveName(r) == if ns == "" then path else ns + "/" + path
  {
    if r.namespace != "" && r.namespace[0] != SLASH {
      NamespaceIs("", r.namespace);
      assert "" + r.namespace == r.namespace && [SLASH] == "/";
    }
  }

  predicate IsNormal(namespace: string, path: string) {
    && (namespace == "" || (namespace[0] != SLASH && namespace[|namespace| - 1] == SLASH))
    && (path == "" || (path[0] != SLASH && path[|path| - 1] != SLASH))
  }

  /** In normal form, places are the same exactly if namespace and path are. */
  lemma NormalPlaceIff(namespace: string, path: string, namespace': string, path': string)
    requires IsNormal(namespace, path) && IsNormal(namespace', path')
    ensures Place(namespace, path) == Place(namespace', path') <==> namespace == namespace' && path == path'
  {
  }

  /**
   * Normalizing on load brings namespace and path into normal form and settles: again changes nothing, and neither key
   * nor place nor anything else was affected.
   */
  lemma NormalizationSettles(r: Resource)
    ensures var n := NormalizeResource(r);
      IsNormal(n.namespace, n.path) && n == r.(namespace := n.namespace, path := n.path)
    ensures NormalizeResource(NormalizeResource(r)) == NormalizeResource(r)
    ensures EffectiveName(NormalizeResource(r)) == EffectiveName(r)
    ensures PlaceOf(NormalizeResource(r)) == PlaceOf(r)
  {
    assert NormalizeNamespace(NormalizeNamespace(r.namespace)) == NormalizeNamespace(r.namespace);
    assert NormalizePath(NormalizePath(r.path)) == NormalizePath(r.path);
  }

  /** The in-memory state that one apply reads and updates. */
  class State {
    var resources: Registry

    constructor ()
      ensures resources == map[]
    {
      resources := map[];
    }

    /** Go visits the map in any order, so any matching entry may be returned. */
    method FindByNsPath(r: Resource) returns (found: Option<string>)
      ensures IsPick(resources, r, found)
    {
      var todo := resources.Keys;
      while todo != {}
        invariant todo <= resources.Keys
        invariant forall k :: k in resources && k !in todo ==> !MatchesPlace(resources[k], r)
      {
        var k :| k in todo;
        if MatchesPlace(resources[k], r) {
          return Some(k);
        }
        todo := todo - {k};
      }
      return None;
    }
  }

  /** What `FindByNsPath` may return: an entry at the resource's place, nothing only when there is none. */
  predicate IsPick(registry: Registry, r: Resource, found: Option<string>) {
    match found
    case Some(k) => k in registry && MatchesPlace(registry[k], r)
    case None => forall k :: k in registry ==> !MatchesPlace(registry[k], r)
  }
}
