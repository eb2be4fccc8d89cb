/** The checks made on the declared resources before they are applied. */
module Lint {
  import opened Wrappers
  import opened Types

  /** Positions count from zero. */
  datatype LintError =
    | MissingPath(i: nat)
    | MissingData(i: nat)
    | DataNotObject(i: nat)
    | NegativeRevision(i: nat)
    | BadMethod(i: nat)
    | DuplicateName(first: nat, i: nat)
    | EmptyDependency(i: nat, j: nat)
    | UnknownDependency(i: nat, j: nat)

  predicate IsObject(v: Value) {
    v.Object? || v.Mixed?
  }

  predicate IsMethod(x: Externals, httpMethod: string) {
    x.upperTrimmed(httpMethod) in {"", "GET", "POST"}
  }

  predicate FieldsAreFine(x: Externals, r: Resource) {
    r.path != "" && IsObject(r.data) && r.revision >= 0 && IsMethod(x, r.httpMethod)
  }

  ghost predicate NamesAreUnique(rs: seq<Resource>) {
    forall i, j :: 0 <= i < j < |rs| ==> EffectiveName(rs[i]) != EffectiveName(rs[j])
  }

  ghost predicate IsName(rs: seq<Resource>, name: string) {
    exists i :: 0 <= i < |rs| && EffectiveName(rs[i]) == name
  }

  ghost predicate DependenciesExist(rs: seq<Resource>, r: Resource) {
    forall j :: 0 <= j < |r.dependencies| ==> r.dependencies[j] != "" && IsName(rs, r.dependencies[j])
  }

  /** What passing the linter means. */
  ghost predicate Linted(x: Externals, rs: seq<Resource>) {
    && (forall i :: 0 <= i < |rs| ==> FieldsAreFine(x, rs[i]))
    && NamesAreUnique(rs)
    && (forall i :: 0 <= i < |rs| ==> DependenciesExist(rs, rs[i]))
  }

  /** The complaint is true. */
  ghost predicate IsTrueOf(e: LintError, x: Externals, rs: seq<Resource>) {
    && e.i < |rs|
    && var r := rs[e.i];
    match e
    case MissingPath(_) => r.path == ""
    case MissingData(_) => r.path != "" && r.data.Null?
    case DataNotObject(_) => r.path != "" && !r.data.Null? && !IsObject(r.data)
    case NegativeRevision(_) => r.path != "" && IsObject(r.data) && r.revision < 0
    case BadMethod(_) => r.path != "" && IsObject(r.data) && r.revision >= 0 && !IsMethod(x, r.httpMethod)
    case DuplicateName(first, i) =>
      FieldsAreFine(x, r) && first < i && EffectiveName(rs[first]) == EffectiveName(r)
    case EmptyDependency(_, j) => j < |r.dependencies| && r.dependencies[j] == ""
    case UnknownDependency(_, j) =>
      j < |r.dependencies| && r.dependencies[j] != "" && !IsName(rs, r.dependencies[j])
  }

  predicate IsAboutDependency(e: LintError) {
    e.EmptyDependency? || e.UnknownDependency?
  }

  /** Nothing comes before the complaint: fields and names of all resources are checked before any dependency. */
  ghost predicate IsFirst(e: LintError, x: Externals, rs: seq<Resource>)
    requires e.i < |rs|
  {
    if IsAboutDependency(e) then
      && (forall k :: 0 <= k < |rs| ==> FieldsAreFine(x, rs[k])) && NamesAreUnique(rs)
      && (forall k :: 0 <= k < e.i ==> DependenciesExist(rs, rs[k]))
      && (forall k :: 0 <= k < e.j && k < |rs[e.i].dependencies| ==>
        rs[e.i].dependencies[k] != "" && IsName(rs, rs[e.i].dependencies[k]))
    else
      (forall k :: 0 <= k < e.i ==> FieldsAreFine(x, rs[k])) && NamesAreUnique(rs[..e.i])
  }

  function FieldError(x: Externals, r: Resource, i: nat): Option<LintError> {
    if r.path == "" then Some(MissingPath(i))
    else if r.data.Null? then Some(MissingData(i))
    else if !IsObject(r.data) then Some(DataNotObject(i))
    else if r.revision < 0 then Some(NegativeRevision(i))
    else if !IsMethod(x, r.httpMethod) then Some(BadMethod(i))
    else None
  }

  /** `byEffectiveName` holds exactly the names of the first `i` resources. */
  ghost predicate Indexed(rs: seq<Resource>, byEffectiveName: map<string, nat>, i: nat)
    requires i <= |rs|
  {
    && (forall k :: 0 <= k < i ==> EffectiveName(rs[k]) in byEffectiveName)
    && (forall name :: name in byEffectiveName ==>
      byEffectiveName[name] < i && EffectiveName(rs[byEffectiveName[name]]) == name)
  }

  /** What passing means, field by field. */
  lemma LintedMeans(x: Externals, rs: seq<Resource>)
    ensures Linted(x, rs) <==>
      && (forall i :: 0 <= i < |rs| ==>
        && rs[i].path != "" && (rs[i].data.Object? || rs[i].data.Mixed?) && rs[i].revision >= 0
        && var httpMethod := x.upperTrimmed(rs[i].httpMethod);
          httpMethod == "" || httpMethod == "GET" || httpMethod == "POST")
      && (forall i, j :: 0 <= i < j < |rs| ==> EffectiveName(rs[i]) != EffectiveName(rs[j]))
      && (forall i, d :: 0 <= i < |rs| && d in rs[i].dependencies ==>
        d != "" && exists j :: 0 <= j < |rs| && EffectiveName(rs[j]) == d)
  {
    hide EffectiveName;
    forall i | 0 <= i < |rs|
      ensures DependenciesExist(rs, rs[i]) <==>
        forall d :: d in rs[i].dependencies ==> d != "" && exists j :: 0 <= j < |rs| && EffectiveName(rs[j]) == d
    {
      DependenciesMean(rs, rs[i]);
    }
  }

  lemma DependenciesMean(rs: seq<Resource>, r: Resource)
    ensures DependenciesExist(rs, r) <==>
      forall d :: d in r.dependencies ==> d != "" && exists j :: 0 <= j < |rs| && EffectiveName(rs[j]) == d
  {
    hide EffectiveName;
    if DependenciesExist(rs, r) {
      forall d | d in r.dependencies ensures d != "" && exists j :: 0 <= j < |rs| && EffectiveName(rs[j]) == d {
        var k :| 0 <= k < |r.dependencies| && r.dependencies[k] == d;
        assert IsName(rs, r.dependencies[k]);
      }
    }
    if forall d :: d in r.dependencies ==> d != "" && exists j :: 0 <= j < |rs| && EffectiveName(rs[j]) == d {
      forall k | 0 <= k < |r.dependencies| ensures r.dependencies[k] != "" && IsName(rs, r.dependencies[k]) {
        assert r.dependencies[k] in r.dependencies;
      }
    }
  }

  /** A true complaint and a passed check exclude each other. */
  lemma TrueComplaintMeansNotLinted(e: LintError, x: Externals, rs: seq<Resource>)
    requires IsTrueOf(e, x, rs)
    ensures !Linted(x, rs)
  {
    if IsAboutDependency(e) {
      assert !DependenciesExist(rs, rs[e.i]);
    }
  }

  lemma IndexOneMore(rs: seq<Resource>, byEffectiveName: map<string, nat>, i: nat)
    requires i < |rs| && Indexed(rs, byEffectiveName, i) && NamesAreUnique(rs[..i])
    requires EffectiveName(rs[i]) !in byEffectiveName
    ensures Indexed(rs, byEffectiveName[EffectiveName(rs[i]) := i], i + 1) && NamesAreUnique(rs[..i + 1])
  {
    assert rs[..i + 1] == rs[..i] + [rs[i]];
    forall k | 0 <= k < i ensures EffectiveName(rs[k]) != EffectiveName(rs[i]) {
      assert EffectiveName(rs[k]) in byEffectiveName;
    }
  }

  /** The first loop. */
  method LintFields(x: Externals, rs: seq<Resource>)
      returns (error: Option<LintError>, byEffectiveName: map<string, nat>)
    ensures error.None? ==> (forall i :: 0 <= i < |rs| ==> FieldsAreFine(x, rs[i])) && NamesAreUnique(rs)
    ensures error.None? ==> Indexed(rs, byEffectiveName, |rs|)
    ensures error.Some? ==>
      && !IsAboutDependency(error.value) && IsTrueOf(error.value, x, rs) && IsFirst(error.value, x, rs)
  {
    byEffectiveName := map[];
    for i := 0 to |rs|
      invariant Indexed(rs, byEffectiveName, i)
      invariant forall k :: 0 <= k < i ==> FieldsAreFine(x, rs[k])
      invariant NamesAreUnique(rs[..i])
    {
      error := FieldError(x, rs[i], i);
      if error.Some? {
        return;
      }
      var eff := EffectiveName(rs[i]);
      if eff in byEffectiveName {
        return Some(DuplicateName(byEffectiveName[eff], i)), byEffectiveName;
      }
      IndexOneMore(rs, byEffectiveName, i);
      byEffectiveName := byEffectiveName[eff := i];
    }
    assert rs[..|rs|] == rs;
    return None, byEffectiveName;
  }

  /** The second loop. */
  method LintDependencies(rs: seq<Resource>, byEffectiveName: map<string, nat>) returns (error: Option<LintError>)
    requires Indexed(rs, byEffectiveName, |rs|)
    ensures error.None? <==> forall i :: 0 <= i < |rs| ==> DependenciesExist(rs, rs[i])
    ensures error.Some? ==>
      && var e := error.value;
      && IsAboutDependency(e) && e.i < |rs| && e.j < |rs[e.i].dependencies|
      && (if e.EmptyDependency? then rs[e.i].dependencies[e.j] == ""
          else rs[e.i].dependencies[e.j] != "" && !IsName(rs, rs[e.i].dependencies[e.j]))
      && (forall k :: 0 <= k < e.i ==> DependenciesExist(rs, rs[k]))
      && (forall k :: 0 <= k < e.j ==> rs[e.i].dependencies[k] != "" && IsName(rs, rs[e.i].dependencies[k]))
  {
    for i := 0 to |rs|
      invariant forall k :: 0 <= k < i ==> DependenciesExist(rs, rs[k])
    {
      var deps := rs[i].dependencies;
      for j := 0 to |deps|
        invariant forall k :: 0 <= k < j ==> deps[k] != "" && IsName(rs, deps[k])
      {
        assert deps[j] in byEffectiveName <==> IsName(rs, deps[j]);
        if deps[j] == "" {
          return Some(EmptyDependency(i, j));
        }
        if deps[j] !in byEffectiveName {
          return Some(UnknownDependency(i, j));
        }
      }
    }
    return None;
  }

  method Lint(x: Externals, rs: seq<Resource>) returns (error: Option<LintError>)
    ensures error.None? <==> Linted(x, rs)
    ensures error.Some? ==> IsTrueOf(error.value, x, rs) && IsFirst(error.value, x, rs)
  {
    var byEffectiveName;
    error, byEffectiveName := LintFields(x, rs);
    if error.None? {
      error := LintDependencies(rs, byEffectiveName);
    }
    if error.Some? {
      TrueComplaintMeansNotLinted(error.value, x, rs);
    }
  }
}
