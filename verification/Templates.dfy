/** Substitution of `<name:key>` strings by values from recorded responses. */
module Templates {
  import opened Wrappers
  import opened Strings
  import opened Types

  datatype Template = Template(name: string, key: string)

  /** The parts of a string of the exact form `<name:key>`, both parts nonempty. */
  function ParseTemplate(s: string): Option<Template> {
    if |s| < 4 || s[0] != '<' || s[|s| - 1] != '>' then
      None
    else
      var inner := s[1..|s| - 1];
      var colon := IndexOf(inner, ':');
      if colon == |inner| then
        None
      else
        var name, key := inner[..colon], inner[colon + 1..];
        if name == "" || key == "" then None else Some(Template(name, key))
  }

  /** Angle brackets around a nonempty name without a colon, a colon, and any nonempty key. */
  predicate IsTemplate(s: string, name: string, key: string) {
    && s == "<" + name + ":" + key + ">"
    && name != "" && key != "" && ':' !in name
  }

  lemma ParsedIsTemplate(s: string)
    requires ParseTemplate(s).Some?
    ensures IsTemplate(s, ParseTemplate(s).value.name, ParseTemplate(s).value.key)
  {
    var inner := s[1..|s| - 1];
    var colon := IndexOf(inner, ':');
    assert inner == inner[..colon] + ":" + inner[colon + 1..];
    assert s == "<" + inner + ">";
  }

  lemma TemplateIsParsed(s: string, name: string, key: string)
    requires IsTemplate(s, name, key)
    ensures ParseTemplate(s) == Some(Template(name, key))
  {
    var inner := s[1..|s| - 1];
    assert inner == name + ":" + key;
    IndexOfConcat(name, ':', key);
    assert inner[..|name|] == name && inner[|name| + 1..] == key;
  }

  // ---------------------------------------------------------------- lookup

  /** One step of a lookup: a field of an object or an element of a list. */
  function Child(x: Externals, v: Value, segment: string): Option<Value> {
    match v
    case Object(m) => if segment in m then Some(m[segment]) else None
    case Items(a) =>
      var i := x.scanIndex(segment);
      if i.Some? && 0 <= i.value < |a| then Some(a[i.value]) else None
    case _ => None
  }

  function Descend(x: Externals, v: Value, segments: seq<string>): Option<Value> {
    if segments == [] then Some(v)
    else
      var next := Child(x, v, segments[0]);
      if next.None? then None else Descend(x, next.value, segments[1..])
  }

  function Lookup(x: Externals, v: Value, path: string): Option<Value> {
    if path == "" then None else Descend(x, v, Split(path, '.'))
  }

  /** The segment-by-segment loop of `getResponseDataPath`. */
  method GetResponseDataPath(x: Externals, rd: Value, path: string) returns (r: Option<Value>)
    ensures r == Lookup(x, rd, path)
  {
    if path == "" {
      return None;
    }
    var segments := Split(path, '.');
    var v := rd;
    for i := 0 to |segments|
      invariant Descend(x, v, segments[i..]) == Descend(x, rd, segments)
    {
      var next := Child(x, v, segments[i]);
      assert segments[i..][0] == segments[i] && segments[i..][1..] == segments[i + 1..];
      if next.None? {
        return None;
      }
      v := next.value;
    }
    return Some(v);
  }

  lemma {:induction false} DescendConcat(x: Externals, v: Value, a: seq<string>, b: seq<string>)
    ensures Descend(x, v, a + b) ==
            (var mid := Descend(x, v, a); if mid.None? then None else Descend(x, mid.value, b))
  {
    if a == [] {
      assert a + b == b;
    } else {
      assert (a + b)[0] == a[0] && (a + b)[1..] == a[1..] + b;
      var next := Child(x, v, a[0]);
      if next.Some? {
        DescendConcat(x, next.value, a[1..], b);
      }
    }
  }

  /** Looking up `p.q` is looking up `q` inside the result of `p`. */
  lemma LookupComposes(x: Externals, v: Value, p: string, q: string)
    requires p != "" && q != ""
    ensures Lookup(x, v, p + "." + q) ==
            (var mid := Lookup(x, v, p); if mid.None? then None else Lookup(x, mid.value, q))
  {
    SplitConcat(p, '.', q);
    DescendConcat(x, v, Split(p, '.'), Split(q, '.'));
  }

  /** What one segment selects: a field of an object by its name, an element of a list by its position. */
  predicate IsSelected(x: Externals, v: Value, segment: string, r: Option<Value>) {
    match v
    case Object(m) => if segment in m then r == Some(m[segment]) else r == None
    case Items(a) =>
      (match x.scanIndex(segment)
       case Some(i) => if 0 <= i < |a| then r == Some(a[i]) else r == None
       case None => r == None)
    case _ => r == None
  }

  /** A path without a dot is one segment. */
  lemma LookupOfSegment(x: Externals, v: Value, segment: string)
    requires segment != "" && '.' !in segment
    ensures IsSelected(x, v, segment, Lookup(x, v, segment))
  {
    assert IndexOf(segment, '.') == |segment|;
    assert Descend(x, v, [segment]) == Child(x, v, segment);
  }

  /** Any other path goes on, from what its first segment selects, with the rest; either may be empty. */
  lemma LookupOfFirst(x: Externals, v: Value, first: string, rest: string)
      returns (mid: Option<Value>, last: Option<Value>)
    requires '.' !in first
    ensures IsSelected(x, v, first, mid)
    ensures Lookup(x, v, first + "." + rest) == if mid.None? then None else last
    ensures mid.Some? ==> if rest == "" then IsSelected(x, mid.value, "", last) else last == Lookup(x, mid.value, rest)
  {
    SplitAtFirst(first, '.', rest);
    mid := Child(x, v, first);
    last := if mid.None? then None else Descend(x, mid.value, Split(rest, '.'));
    if rest == "" && mid.Some? {
      assert Descend(x, mid.value, [""]) == Child(x, mid.value, "");
    }
  }

  // ---------------------------------------------------------------- resolution

  function ResolveString(x: Externals, s: string, registry: Registry): Option<string> {
    match ParseTemplate(s)
    case None => Some(s)
    case Some(t) =>
      if t.name !in registry then None
      else
        match Lookup(x, registry[t.name].responseData, t.key)
        case None => None
        case Some(v) => Some(x.sprint(v))
  }

  /** `None` is the error of a template that names no entry or no value. */
  function Resolve(x: Externals, v: Value, registry: Registry): Option<Value>
    decreases v
  {
    match v
    case Object(m) =>
      if forall k :: k in m ==> Resolve(x, m[k], registry).Some? then
        Some(Object(map k | k in m :: Resolve(x, m[k], registry).value))
      else None
    case Items(a) =>
      if forall i :: 0 <= i < |a| ==> Resolve(x, a[i], registry).Some? then
        Some(Items(seq(|a|, i requires 0 <= i < |a| => Resolve(x, a[i], registry).value)))
      else None
    case Text(s) =>
      var t := ResolveString(x, s, registry);
      if t.None? then None else Some(Text(t.value))
    case _ => Some(v)
  }

  method ResolveTemplates(x: Externals, v: Value, state: State) returns (r: Option<Value>)
    ensures r == Resolve(x, v, state.resources)
    decreases v, 1
  {
    match v
    case Object(m) => r := ResolveTemplatesMap(x, v, state);
    case Items(a) => r := ResolveTemplatesSlice(x, v, state);
    case Text(s) =>
      var t := ResolveTemplateString(x, s, state);
      r := if t.None? then None else Some(Text(t.value));
    case _ => r := Some(v);
  }

  /** The fields are visited in no particular order; the first failure ends the loop. */
  method ResolveTemplatesMap(x: Externals, v: Value, state: State) returns (r: Option<Value>)
    requires v.Object?
    ensures r == Resolve(x, v, state.resources)
    decreases v, 0
  {
    var m := v.fields;
    var out: map<string, Value> := map[];
    var todo := m.Keys;
    while todo != {}
      invariant todo <= m.Keys && out.Keys == m.Keys - todo
      invariant forall k :: k in out ==> Resolve(x, m[k], state.resources) == Some(out[k])
    {
      var k :| k in todo;
      var field := ResolveTemplates(x, m[k], state);
      if field.None? {
        return None;
      }
      out := out[k := field.value];
      todo := todo - {k};
    }
    assert Resolve(x, v, state.resources).Some? && out == Resolve(x, v, state.resources).value.fields;
    return Some(Object(out));
  }

  method ResolveTemplatesSlice(x: Externals, v: Value, state: State) returns (r: Option<Value>)
    requires v.Items?
    ensures r == Resolve(x, v, state.resources)
    decreases v, 0
  {
    var a := v.items;
    var out: seq<Value> := [];
    for i := 0 to |a|
      invariant |out| == i
      invariant forall k :: 0 <= k < i ==> Resolve(x, a[k], state.resources) == Some(out[k])
    {
      var item := ResolveTemplates(x, a[i], state);
      if item.None? {
        return None;
      }
      out := out + [item.value];
    }
    assert Resolve(x, v, state.resources).Some? && out == Resolve(x, v, state.resources).value.items;
    return Some(Items(out));
  }

  method ResolveTemplateString(x: Externals, s: string, state: State) returns (r: Option<string>)
    ensures r == ResolveString(x, s, state.resources)
  {
    var template := ParseTemplate(s);
    if template.None? {
      return Some(s);
    }
    var Template(name, key) := template.value;
    if name !in state.resources {
      return None;
    }
    var value := GetResponseDataPath(x, state.resources[name].responseData, key);
    return if value.None? then None else Some(x.sprint(value.value));
  }

  // ---------------------------------------------------------------- properties

  /** A template becomes the printed form of what its path leads to in the response of the resource it names. */
  lemma TemplateResolves(x: Externals, s: string, name: string, key: string, registry: Registry)
    requires IsTemplate(s, name, key)
    ensures Resolve(x, Text(s), registry) ==
            if name in registry && Lookup(x, registry[name].responseData, key).Some? then
              Some(Text(x.sprint(Lookup(x, registry[name].responseData, key).value)))
            else None
  {
    TemplateIsParsed(s, name, key);
  }

  /** Objects and lists resolve part by part, each part in its own place, and fail with any of them. */
  lemma PartsResolve(x: Externals, m: map<string, Value>, a: seq<Value>, registry: Registry)
    ensures Resolve(x, Object(m), registry).Some? <==> forall k :: k in m ==> Resolve(x, m[k], registry).Some?
    ensures Resolve(x, Items(a), registry).Some? <==> forall i :: 0 <= i < |a| ==> Resolve(x, a[i], registry).Some?
    ensures var r := Resolve(x, Object(m), registry);
      r.Some? ==>
        && r.value.Object? && r.value.fields.Keys == m.Keys
        && forall k :: k in m ==> Some(r.value.fields[k]) == Resolve(x, m[k], registry)
    ensures var r := Resolve(x, Items(a), registry);
      r.Some? ==>
        && r.value.Items? && |r.value.items| == |a|
        && forall i :: 0 <= i < |a| ==> Some(r.value.items[i]) == Resolve(x, a[i], registry)
  {
  }

  /** The resources whose responses the value refers to. */
  ghost predicate Mentions(v: Value, name: string)
    decreases v
  {
    match v
    case Object(m) => exists k :: k in m && Mentions(m[k], name)
    case Items(a) => exists i :: 0 <= i < |a| && Mentions(a[i], name)
    case Text(s) => exists key :: IsTemplate(s, name, key)
    case _ => false
  }

  /** Two registries that give the same answers about one name. */
  predicate SameResponse(a: Registry, b: Registry, name: string) {
    && (name in a <==> name in b)
    && (name in a ==> a[name].responseData == b[name].responseData)
  }

  lemma ObjectsResolveAlike(x: Externals, m: map<string, Value>, m': map<string, Value>, a: Registry, b: Registry)
    requires m.Keys == m'.Keys && forall k :: k in m ==> Resolve(x, m[k], a) == Resolve(x, m'[k], b)
    ensures Resolve(x, Object(m), a) == Resolve(x, Object(m'), b)
  {
    if Resolve(x, Object(m), a).Some? {
      assert Resolve(x, Object(m), a).value.fields == Resolve(x, Object(m'), b).value.fields;
    }
  }

  lemma ItemsResolveAlike(x: Externals, s: seq<Value>, s': seq<Value>, a: Registry, b: Registry)
    requires |s| == |s'| && forall i :: 0 <= i < |s| ==> Resolve(x, s[i], a) == Resolve(x, s'[i], b)
    ensures Resolve(x, Items(s), a) == Resolve(x, Items(s'), b)
  {
    if Resolve(x, Items(s), a).Some? {
      assert Resolve(x, Items(s), a).value.items == Resolve(x, Items(s'), b).value.items;
    }
  }

  /** Resolution looks at nothing but the responses of the names mentioned. */
  lemma {:induction false} ResolutionIsLocal(x: Externals, v: Value, a: Registry, b: Registry)
    requires forall name :: Mentions(v, name) ==> SameResponse(a, b, name)
    ensures Resolve(x, v, a) == Resolve(x, v, b)
    decreases v
  {
    match v
    case Object(m) =>
      forall k | k in m ensures Resolve(x, m[k], a) == Resolve(x, m[k], b) {
        ResolutionIsLocal(x, m[k], a, b);
      }
      ObjectsResolveAlike(x, m, m, a, b);
    case Items(s) =>
      forall i | 0 <= i < |s| ensures Resolve(x, s[i], a) == Resolve(x, s[i], b) {
        ResolutionIsLocal(x, s[i], a, b);
      }
      ItemsResolveAlike(x, s, s, a, b);
    case Text(s) =>
      var t := ParseTemplate(s);
      if t.Some? {
        ParsedIsTemplate(s);
        assert Mentions(v, t.value.name);
      }
    case _ =>
  }

  /** Data without templates comes back as it is, whatever the registry. */
  lemma {:induction false} TemplateFreeDataIsUnchanged(x: Externals, v: Value, registry: Registry)
    requires forall name :: !Mentions(v, name)
    ensures Resolve(x, v, registry) == Some(v)
    decreases v
  {
    match v
    case Object(m) =>
      forall k | k in m ensures Resolve(x, m[k], registry) == Some(m[k]) {
        forall name ensures !Mentions(m[k], name) {
          assert Mentions(m[k], name) ==> Mentions(v, name);
        }
        TemplateFreeDataIsUnchanged(x, m[k], registry);
      }
      assert Resolve(x, v, registry).Some? && Resolve(x, v, registry).value.fields == m;
    case Items(s) =>
      forall i | 0 <= i < |s| ensures Resolve(x, s[i], registry) == Some(s[i]) {
        forall name ensures !Mentions(s[i], name) {
          assert Mentions(s[i], name) ==> Mentions(v, name);
        }
        TemplateFreeDataIsUnchanged(x, s[i], registry);
      }
      assert Resolve(x, v, registry).Some? && Resolve(x, v, registry).value.items == s;
    case Text(s) =>
      var t := ParseTemplate(s);
      if t.Some? {
        ParsedIsTemplate(s);
        assert Mentions(v, t.value.name);
      }
    case _ =>
  }

  /** Same keys, same lengths, same constructors; only the characters of strings may differ. */
  ghost predicate SameShape(v: Value, w: Value)
    decreases v
  {
    match v
    case Object(m) => w.Object? && w.fields.Keys == m.Keys && forall k :: k in m ==> SameShape(m[k], w.fields[k])
    case Items(a) => w.Items? && |w.items| == |a| && forall i :: 0 <= i < |a| ==> SameShape(a[i], w.items[i])
    case Text(_) => w.Text?
    case _ => w == v
  }

  lemma {:induction false} ResolutionKeepsShape(x: Externals, v: Value, registry: Registry)
    requires Resolve(x, v, registry).Some?
    ensures SameShape(v, Resolve(x, v, registry).value)
    decreases v
  {
    match v
    case Object(m) =>
      forall k | k in m ensures SameShape(m[k], Resolve(x, m[k], registry).value) {
        ResolutionKeepsShape(x, m[k], registry);
      }
    case Items(s) =>
      forall i | 0 <= i < |s| ensures SameShape(s[i], Resolve(x, s[i], registry).value) {
        ResolutionKeepsShape(x, s[i], registry);
      }
    case _ =>
  }
}
