/** The paths at which a notes tree may keep the note of an object: the id, split after every two characters. */
module Fanout {
  import opened Graph

  const SEPARATOR := '/'

  function Join(a: string, b: string): string {
    a + [SEPARATOR] + b
  }

  function JoinAll(a: string, paths: seq<string>): (r: seq<string>)
    ensures |r| == |paths| && forall i :: 0 <= i < |r| ==> r[i] == Join(a, paths[i])
  {
    seq(|paths|, i requires 0 <= i < |paths| => Join(a, paths[i]))
  }

  function ObjectFanoutPaths(id: string): seq<string> {
    if |id| <= 2 then [id] else [id] + JoinAll(id[..2], ObjectFanoutPaths(id[2..]))
  }

  function WithoutSeparators(s: string): string {
    if s == "" then ""
    else (if s[0] == SEPARATOR then "" else [s[0]]) + WithoutSeparators(s[1..])
  }

  function Separators(s: string): nat {
    if s == "" then 0 else (if s[0] == SEPARATOR then 1 else 0) + Separators(s[1..])
  }

  lemma {:induction false} OverConcat(a: string, b: string)
    ensures WithoutSeparators(a + b) == WithoutSeparators(a) + WithoutSeparators(b)
    ensures Separators(a + b) == Separators(a) + Separators(b)
  {
    if a == "" {
      assert a + b == b;
    } else {
      assert (a + b)[1..] == a[1..] + b;
      OverConcat(a[1..], b);
    }
  }

  lemma {:induction false} Plain(s: string)
    requires SEPARATOR !in s
    ensures WithoutSeparators(s) == s && Separators(s) == 0
  {
    if s != "" {
      Plain(s[1..]);
    }
  }

  /** Path number `k` is the id with `k` separators put in; there is one path per pair of characters, at least one. */
  lemma {:induction false} PathsSpellTheId(id: string, k: nat)
    requires SEPARATOR !in id
    ensures |ObjectFanoutPaths(id)| == if |id| <= 2 then 1 else (|id| + 1) / 2
    ensures k < |ObjectFanoutPaths(id)| ==>
      WithoutSeparators(ObjectFanoutPaths(id)[k]) == id && Separators(ObjectFanoutPaths(id)[k]) == k
    decreases |id|
  {
    Plain(id);
    if |id| > 2 {
      var head, tail := id[..2], id[2..];
      PathsSpellTheId(tail, if k > 0 then k - 1 else 0);
      if 0 < k < |ObjectFanoutPaths(id)| {
        var path := ObjectFanoutPaths(tail)[k - 1];
        assert ObjectFanoutPaths(id)[k] == Join(head, path);
        OverConcat(head + [SEPARATOR], path);
        OverConcat(head, [SEPARATOR]);
        Plain(head);
        assert [SEPARATOR][1..] == "";
        assert id == head + tail;
      }
    }
  }

  /** Path number `k` has a separator after each of the first `k` pairs of characters, and none later. */
  lemma {:induction false} PathsCutPairs(id: string, k: nat, i: nat)
    requires k < |ObjectFanoutPaths(id)|
    ensures 2 * k <= |id| && |ObjectFanoutPaths(id)[k]| == |id| + k
    ensures i < |id| + k ==>
      ObjectFanoutPaths(id)[k][i] == if i >= 3 * k then id[i - k] else if i % 3 == 2 then SEPARATOR else id[i - i / 3]
    decreases |id|
  {
    if k > 0 {
      var tail := id[2..];
      var rest, path := ObjectFanoutPaths(tail)[k - 1], ObjectFanoutPaths(id)[k];
      PathsCutPairs(tail, k - 1, if i >= 3 then i - 3 else 0);
      assert path == Join(id[..2], rest) && |path| == |rest| + 3;
      if 3 <= i < |path| {
        assert path[i] == rest[i - 3];
        assert (i - 3) / 3 == i / 3 - 1 && (i - 3) % 3 == i % 3;
      }
    }
  }

  lemma PathsAreDistinct(id: string)
    requires SEPARATOR !in id
    ensures Distinct(ObjectFanoutPaths(id))
  {
    forall i, j | 0 <= i < j < |ObjectFanoutPaths(id)| ensures ObjectFanoutPaths(id)[i] != ObjectFanoutPaths(id)[j] {
      PathsSpellTheId(id, i);
      PathsSpellTheId(id, j);
    }
  }

  /** A path belongs to one object only. */
  lemma DifferentIdsShareNoPath(a: string, b: string, path: string)
    requires SEPARATOR !in a && SEPARATOR !in b
    requires path in ObjectFanoutPaths(a) && path in ObjectFanoutPaths(b)
    ensures a == b
  {
    var i :| 0 <= i < |ObjectFanoutPaths(a)| && ObjectFanoutPaths(a)[i] == path;
    var j :| 0 <= j < |ObjectFanoutPaths(b)| && ObjectFanoutPaths(b)[j] == path;
    PathsSpellTheId(a, i);
    PathsSpellTheId(b, j);
  }
}
