/** The few operations of Go's `strings` package the program uses, on strings as sequences of characters. */
module Strings {

  /** Position of the first `c` in `s`, or `|s|` when there is none. */
  function IndexOf(s: string, c: char): (i: nat)
    ensures i <= |s| && c !in s[..i]
    ensures i < |s| ==> s[i] == c
  {
    if s == "" || s[0] == c then 0
    else
      var rest := IndexOf(s[1..], c);
      assert s[..rest + 1] == [s[0]] + s[1..][..rest];
      rest + 1
  }

  /** `strings.TrimLeft(s, c)` */
  function TrimLeft(s: string, c: char): (t: string)
    ensures t == "" || t[0] != c
    ensures s == "" || s[0] != c ==> t == s
  {
    if s != "" && s[0] == c then TrimLeft(s[1..], c) else s
  }

  /** `strings.TrimRight(s, c)` */
  function TrimRight(s: string, c: char): (t: string)
    ensures t == "" || t[|t| - 1] != c
    ensures t <= s
    ensures s == "" || s[|s| - 1] != c ==> t == s
  {
    if s != "" && s[|s| - 1] == c then TrimRight(s[..|s| - 1], c) else s
  }

  /** `strings.Trim(s, c)` */
  function Trim(s: string, c: char): (t: string)
    ensures t == "" || (t[0] != c && t[|t| - 1] != c)
    ensures s == "" || (s[0] != c && s[|s| - 1] != c) ==> t == s
  {
    TrimRight(TrimLeft(s, c), c)
  }

  /** `strings.TrimPrefix(s, c)` for a one-character prefix. */
  function TrimPrefix(s: string, c: char): string {
    if s != "" && s[0] == c then s[1..] else s
  }

  /** `strings.TrimSuffix(s, c)` for a one-character suffix. */
  function TrimSuffix(s: string, c: char): string {
    if s != "" && s[|s| - 1] == c then s[..|s| - 1] else s
  }

  /** `strings.Split(s, c)`: the pieces between separators; never empty. */
  function Split(s: string, c: char): (parts: seq<string>)
    ensures |parts| > 0
    decreases |s|
  {
    var i := IndexOf(s, c);
    if i == |s| then [s] else [s[..i]] + Split(s[i + 1..], c)
  }

  lemma IndexOfConcat(s: string, c: char, t: string)
    requires c !in s
    ensures IndexOf(s + [c] + t, c) == |s|
  {
    var u := s + [c] + t;
    var i := IndexOf(u, c);
    assert u[|s|] == c && c in u;
    assert forall k :: 0 <= k < |s| ==> u[k] == s[k] != c;
    assert forall k :: 0 <= k < i ==> u[k] in u[..i];
  }

  /** What `Split` does at the first separator. */
  lemma SplitAtFirst(head: string, c: char, rest: string)
    requires c !in head
    ensures Split(head + [c] + rest, c) == [head] + Split(rest, c)
  {
    var s := head + [c] + rest;
    IndexOfConcat(head, c, rest);
    assert s[..|head|] == head && s[|head| + 1..] == rest;
  }

  /** Splitting at a separator splits both sides independently. */
  lemma {:induction false} SplitConcat(s: string, c: char, t: string)
    ensures Split(s + [c] + t, c) == Split(s, c) + Split(t, c)
    decreases |s|
  {
    var i := IndexOf(s, c);
    if i == |s| {
      assert s[..i] == s;
      SplitAtFirst(s, c, t);
    } else {
      var head, rest := s[..i], s[i + 1..];
      SplitRest(s, head, c, rest, t);
      SplitConcat(rest, c, t);
      SplitAtFirst(head, c, rest);
      SplitAtFirst(head, c, rest + [c] + t);
      Associate(head, Split(rest, c), Split(t, c));
    }
  }

  lemma SplitRest(s: string, head: string, c: char, rest: string, t: string)
    requires |head| < |s| && s[|head|] == c && head == s[..|head|] && rest == s[|head| + 1..]
    ensures s == head + [c] + rest
    ensures s + [c] + t == head + [c] + (rest + [c] + t)
  {
    assert s == head + [c] + rest;
  }

  lemma Associate<T>(x: T, a: seq<T>, b: seq<T>)
    ensures [x] + (a + b) == [x] + a + b
  {
  }
}
