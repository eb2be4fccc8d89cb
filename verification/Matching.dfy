/** What the greedy pass achieves: a maximal matching of signatures to keys. */
module Matching {
  import opened Graph
  import opened Pgp

  /** The signature at position `item` is counted for the key at position `key`. */
  datatype Match = Match(item: nat, key: nat)

  /** Every pair verifies, and no signature and no key position is used twice. */
  ghost predicate IsMatching(p: OpenPgp, items: seq<Signed>, keys: seq<string>, m: seq<Match>) {
    && (forall a :: 0 <= a < |m| ==>
      m[a].item < |items| && m[a].key < |keys| && p.verifies(items[m[a].item], keys[m[a].key]))
    && IsInjective(m)
  }

  ghost predicate IsInjective(m: seq<Match>) {
    forall a, b :: 0 <= a < b < |m| ==> m[a].item != m[b].item && m[a].key != m[b].key
  }

  ghost predicate UsesItem(m: seq<Match>, item: nat) {
    exists a :: 0 <= a < |m| && m[a].item == item
  }

  ghost predicate UsesKey(m: seq<Match>, key: nat) {
    exists a :: 0 <= a < |m| && m[a].key == key
  }

  /** No further pair could be added. */
  ghost predicate IsMaximal(p: OpenPgp, items: seq<Signed>, keys: seq<string>, m: seq<Match>) {
    forall i: nat, k: nat :: i < |items| && k < |keys| && p.verifies(items[i], keys[k]) ==>
      UsesItem(m, i) || UsesKey(m, k)
  }

  // ---------------------------------------------------------------- the matching that is built

  /**
   * The pairs counted from signature `j` on. `rest` are the positions, in the original list of keys, of the keys
   * that are left.
   */
  ghost function Chosen(p: OpenPgp, items: seq<Signed>, j: nat, keys: seq<string>, rest: seq<nat>,
                        required: int): seq<Match>
    requires j <= |items| && InBounds(rest, |keys|)
    decreases |items| - j
  {
    if j == |items| then []
    else
      match ScanKeys(p, items[j], KeysAt(keys, rest))
      case Unreadable => []
      case Miss => Chosen(p, items, j + 1, keys, rest, required)
      case Hit(at) =>
        [Match(j, rest[at])] +
        if required == 1 then [] else Chosen(p, items, j + 1, keys, Without(rest, at), required - 1)
  }

  ghost predicate InBounds(rest: seq<nat>, n: nat) {
    forall i :: 0 <= i < |rest| ==> rest[i] < n
  }

  ghost function KeysAt(keys: seq<string>, rest: seq<nat>): (r: seq<string>)
    requires InBounds(rest, |keys|)
    ensures |r| == |rest|
  {
    seq(|rest|, i requires 0 <= i < |rest| => keys[rest[i]])
  }

  /** The positions that no pair uses, in order. */
  ghost function Unused(rest: seq<nat>, m: seq<Match>): (r: seq<nat>)
    ensures forall k :: k in r <==> k in rest && !UsesKey(m, k)
    ensures forall n :: InBounds(rest, n) ==> InBounds(r, n)
    ensures (forall i :: 0 <= i < |rest| ==> !UsesKey(m, rest[i])) ==> r == rest
  {
    if rest == [] then []
    else
      assert forall n :: InBounds(rest, n) ==> rest[0] < n && InBounds(rest[1..], n);
      (if UsesKey(m, rest[0]) then [] else [rest[0]]) + Unused(rest[1..], m)
  }

  /** Using up one position first and the others after is using them all up. */
  lemma {:induction false} UnusedAfterFirst(rest: seq<nat>, at: nat, first: Match, m: seq<Match>)
    requires at < |rest| && Distinct(rest) && first.key == rest[at]
    ensures Unused(rest, [first] + m) == Unused(Without(rest, at), m)
  {
    var all := [first] + m;
    forall k: nat ensures UsesKey(all, k) <==> k == first.key || UsesKey(m, k) {
      assert all[0] == first && forall a :: 0 <= a < |m| ==> all[a + 1] == m[a];
    }
    if at == 0 {
      assert Without(rest, 0) == rest[1..];
      UnusedAlike(rest[1..], all, m);
    } else {
      assert Without(rest, at)[0] == rest[0] && Without(rest, at)[1..] == Without(rest[1..], at - 1);
      UnusedAfterFirst(rest[1..], at - 1, first, m);
    }
  }

  lemma {:induction false} UnusedAlike(rest: seq<nat>, m: seq<Match>, m': seq<Match>)
    requires forall i :: 0 <= i < |rest| ==> (UsesKey(m, rest[i]) <==> UsesKey(m', rest[i]))
    ensures Unused(rest, m) == Unused(rest, m')
  {
    if rest != [] {
      UnusedAlike(rest[1..], m, m');
    }
  }

  lemma WithoutKeeps(rest: seq<nat>, at: nat)
    requires at < |rest| && Distinct(rest)
    ensures Distinct(Without(rest, at)) && rest[at] !in Without(rest, at)
    ensures forall k :: k in Without(rest, at) ==> k in rest
  {
  }

  lemma KeysAtWithout(keys: seq<string>, rest: seq<nat>, at: nat)
    requires at < |rest| && InBounds(rest, |keys|)
    ensures KeysAt(keys, Without(rest, at)) == Without(KeysAt(keys, rest), at)
  {
  }

  /** All that is proved of the pairs counted from signature `j` on, for the tally that the pass returns. */
  ghost predicate Accounts(p: OpenPgp, items: seq<Signed>, j: nat, keys: seq<string>, rest: seq<nat>, required: int,
                           m: seq<Match>, left: Tally)
    requires InBounds(rest, |keys|)
  {
    && left.Left?
    && IsInjective(m)
    && (forall a :: 0 <= a < |m| ==>
      j <= m[a].item < |items| && m[a].key in rest && m[a].key < |keys| && p.verifies(items[m[a].item], keys[m[a].key]))
    && |m| == required - left.required
    && (left.required != 0 ==>
      && left.keys == KeysAt(keys, Unused(rest, m))
      && (forall i: nat, k: nat :: j <= i < |items| && k in rest && k < |keys| && !UsesItem(m, i) && !UsesKey(m, k) ==>
        !p.verifies(items[i], keys[k])))
  }

  lemma {:induction false} GreedyAccounts(p: OpenPgp, items: seq<Signed>, j: nat, keys: seq<string>, rest: seq<nat>,
                                          required: int)
    requires j <= |items| && required != 0 && Distinct(rest) && InBounds(rest, |keys|)
    requires Greedy(p, items[j..], KeysAt(keys, rest), required).Left?
    ensures Accounts(p, items, j, keys, rest, required, Chosen(p, items, j, keys, rest, required),
                     Greedy(p, items[j..], KeysAt(keys, rest), required))
    decreases |items| - j
  {
    if j < |items| {
      assert items[j..][0] == items[j] && items[j..][1..] == items[j + 1..];
      match ScanKeys(p, items[j], KeysAt(keys, rest))
      case Miss =>
        GreedyAccounts(p, items, j + 1, keys, rest, required);
        AccountsAfterMiss(p, items, j, keys, rest, required);
      case Hit(at) =>
        WithoutKeeps(rest, at);
        KeysAtWithout(keys, rest, at);
        if required != 1 {
          GreedyAccounts(p, items, j + 1, keys, Without(rest, at), required - 1);
        }
        AccountsAfterHit(p, items, j, keys, rest, required, at);
    }
  }

  lemma AccountsAfterMiss(p: OpenPgp, items: seq<Signed>, j: nat, keys: seq<string>, rest: seq<nat>, required: int)
    requires j < |items| && required != 0 && InBounds(rest, |keys|)
    requires ScanKeys(p, items[j], KeysAt(keys, rest)).Miss?
    requires var m := Chosen(p, items, j + 1, keys, rest, required);
      Accounts(p, items, j + 1, keys, rest, required, m, Greedy(p, items[j + 1..], KeysAt(keys, rest), required))
    ensures var m := Chosen(p, items, j, keys, rest, required);
      Accounts(p, items, j, keys, rest, required, m, Greedy(p, items[j..], KeysAt(keys, rest), required))
  {
    assert items[j..][0] == items[j] && items[j..][1..] == items[j + 1..];
    forall k | k in rest ensures !p.verifies(items[j], keys[k]) {
      var i :| 0 <= i < |rest| && rest[i] == k;
      assert KeysAt(keys, rest)[i] == keys[k];
    }
  }

  lemma AccountsAfterHit(p: OpenPgp, items: seq<Signed>, j: nat, keys: seq<string>, rest: seq<nat>, required: int,
                         at: nat)
    requires j < |items| && required != 0 && Distinct(rest) && InBounds(rest, |keys|)
    requires ScanKeys(p, items[j], KeysAt(keys, rest)) == Hit(at) && at < |rest|
    requires required != 1 ==>
      var m := Chosen(p, items, j + 1, keys, Without(rest, at), required - 1);
      Accounts(p, items, j + 1, keys, Without(rest, at), required - 1, m,
               Greedy(p, items[j + 1..], KeysAt(keys, Without(rest, at)), required - 1))
    ensures var m := Chosen(p, items, j, keys, rest, required);
      Accounts(p, items, j, keys, rest, required, m, Greedy(p, items[j..], KeysAt(keys, rest), required))
  {
    assert items[j..][0] == items[j] && items[j..][1..] == items[j + 1..];
    WithoutKeeps(rest, at);
    KeysAtWithout(keys, rest, at);
    var first := Match(j, rest[at]);
    assert KeysAt(keys, rest)[at] == keys[rest[at]];
    if required != 1 {
      var m := Chosen(p, items, j + 1, keys, Without(rest, at), required - 1);
      assert Chosen(p, items, j, keys, rest, required) == [first] + m;
      AccountsOnTop(p, items, j, keys, rest, required, at, m,
        Greedy(p, items[j + 1..], KeysAt(keys, Without(rest, at)), required - 1));
    }
  }

  lemma AccountsOnTop(p: OpenPgp, items: seq<Signed>, j: nat, keys: seq<string>, rest: seq<nat>, required: int, at: nat,
                      m: seq<Match>, left: Tally)
    requires j < |items| && Distinct(rest) && InBounds(rest, |keys|)
    requires at < |rest| && p.verifies(items[j], keys[rest[at]])
    requires InBounds(Without(rest, at), |keys|) &&
      Accounts(p, items, j + 1, keys, Without(rest, at), required - 1, m, left)
    ensures Accounts(p, items, j, keys, rest, required, [Match(j, rest[at])] + m, left)
  {
    hide Without, KeysAt, Unused;
    var first := Match(j, rest[at]);
    var all := [first] + m;
    WithoutKeeps(rest, at);
    assert forall a :: 0 < a < |all| ==> all[a] == m[a - 1];
    UnusedAfterFirst(rest, at, first, m);
    PairOnTop(first, m);
    assert forall k :: k in rest && k != rest[at] ==> k in Without(rest, at) by {
      WithoutDropsOne(rest, at);
    }
  }

  lemma WithoutDropsOne(rest: seq<nat>, at: nat)
    requires at < |rest|
    ensures forall k :: k in rest && k != rest[at] ==> k in Without(rest, at)
  {
  }

  lemma PairOnTop(first: Match, m: seq<Match>)
    requires IsInjective(m)
    requires forall a :: 0 <= a < |m| ==> m[a].item != first.item && m[a].key != first.key
    ensures IsInjective([first] + m)
    ensures forall i: nat :: UsesItem([first] + m, i) <==> i == first.item || UsesItem(m, i)
    ensures forall k: nat :: UsesKey([first] + m, k) <==> k == first.key || UsesKey(m, k)
  {
    var all := [first] + m;
    assert all[0] == first && forall a :: 0 <= a < |m| ==> all[a + 1] == m[a];
  }

  // ---------------------------------------------------------------- main results

  ghost function AllPositions(n: nat): (r: seq<nat>)
    ensures |r| == n && Distinct(r) && InBounds(r, n) && forall i :: 0 <= i < n ==> r[i] == i
  {
    seq(n, i => i)
  }

  /** As many keys are used up as the count goes down. */
  lemma {:induction false} GreedyConserves(p: OpenPgp, items: seq<Signed>, keys: seq<string>, required: int)
    requires required != 0
    ensures var left := Greedy(p, items, keys, required);
      left.Left? && left.required != 0 ==> |keys| - |left.keys| == required - left.required
  {
    if items != [] {
      match ScanKeys(p, items[0], keys)
      case Unreadable =>
      case Miss => GreedyConserves(p, items[1..], keys, required);
      case Hit(at) =>
        if required != 1 {
          GreedyConserves(p, items[1..], Without(keys, at), required - 1);
        }
    }
  }

  /**
   * Soundness and conservation. Whatever the pass returns, exactly as many signatures as the count went down by are
   * matched to distinct keys that verify them; as long as the count is not zero, the keys returned are the others
   * in their order, and no unmatched signature verifies under any of them.
   */
  lemma VerifiedMatching(p: OpenPgp, items: seq<Signed>, keys: seq<string>, required: int) returns (m: seq<Match>)
    requires Verify(p, items, keys, required).Left?
    ensures IsMatching(p, items, keys, m)
    ensures var left := Verify(p, items, keys, required);
      && |m| == required - left.required
      && (left.required != 0 ==>
        && left.keys == KeysAt(keys, Unused(AllPositions(|keys|), m)) && |left.keys| == |keys| - |m|
        && IsMaximal(p, items, keys, m))
  {
    if required == 0 {
      m := [];
    } else {
      GreedyConserves(p, items, keys, required);
      var rest := AllPositions(|keys|);
      assert KeysAt(keys, rest) == keys && items[0..] == items;
      m := Chosen(p, items, 0, keys, rest, required);
      GreedyAccounts(p, items, 0, keys, rest, required);
      forall k: nat | k < |keys| ensures k in rest {
        assert rest[k] == k;
      }
    }
  }

  /** A matching each of whose pairs uses one of the given items or keys is no larger than both together. */
  lemma {:induction false} CoveredIsSmall(n: seq<Match>, items: set<nat>, keys: set<nat>)
    requires IsInjective(n)
    requires forall a :: 0 <= a < |n| ==> n[a].item in items || n[a].key in keys
    ensures |n| <= |items| + |keys|
  {
    if n != [] {
      var last, rest := n[|n| - 1], n[..|n| - 1];
      if last.item in items {
        CoveredIsSmall(rest, items - {last.item}, keys);
      } else {
        CoveredIsSmall(rest, items, keys - {last.key});
      }
    }
  }

  lemma {:induction false} UsedAtMost(m: seq<Match>)
    ensures |set a | 0 <= a < |m| :: m[a].item| <= |m| && |set a | 0 <= a < |m| :: m[a].key| <= |m|
  {
    if m != [] {
      var last, rest := m[|m| - 1], m[..|m| - 1];
      UsedAtMost(rest);
      assert m == rest + [last];
      assert (set a | 0 <= a < |m| :: m[a].item) == (set a | 0 <= a < |rest| :: rest[a].item) + {last.item};
      assert (set a | 0 <= a < |m| :: m[a].key) == (set a | 0 <= a < |rest| :: rest[a].key) + {last.key};
    }
  }

  /** A maximal matching has at least half the size of any other. */
  lemma MaximalIsHalf(p: OpenPgp, items: seq<Signed>, keys: seq<string>, m: seq<Match>, n: seq<Match>)
    requires IsMaximal(p, items, keys, m) && IsMatching(p, items, keys, n)
    ensures |n| <= 2 * |m|
  {
    var usedItems, usedKeys := set a | 0 <= a < |m| :: m[a].item, set a | 0 <= a < |m| :: m[a].key;
    forall b | 0 <= b < |n| ensures n[b].item in usedItems || n[b].key in usedKeys {
      assert UsesItem(m, n[b].item) || UsesKey(m, n[b].key);
    }
    CoveredIsSmall(n, usedItems, usedKeys);
    UsedAtMost(m);
  }

  ghost predicate AllParse(p: OpenPgp, keys: seq<string>) {
    forall k :: 0 <= k < |keys| ==> p.parses(keys[k])
  }

  lemma {:induction false} ParsedKeysAreScanned(p: OpenPgp, s: Signed, keys: seq<string>)
    requires AllParse(p, keys)
    ensures !ScanKeys(p, s, keys).Unreadable?
  {
    if keys != [] {
      ParsedKeysAreScanned(p, s, keys[1..]);
    }
  }

  lemma {:induction false} ParsedKeysNeverBreak(p: OpenPgp, items: seq<Signed>, keys: seq<string>, required: int)
    requires AllParse(p, keys)
    ensures Greedy(p, items, keys, required).Left?
  {
    if items != [] {
      ParsedKeysAreScanned(p, items[0], keys);
      match ScanKeys(p, items[0], keys)
      case Hit(at) => ParsedKeysNeverBreak(p, items[1..], Without(keys, at), required - 1);
      case Miss => ParsedKeysNeverBreak(p, items[1..], keys, required);
      case Unreadable =>
    }
  }

  /** A key that cannot be read is an error when it is tried: for the first signature, before a key that verifies it. */
  lemma UnreadableIsAnError(p: OpenPgp, items: seq<Signed>, keys: seq<string>, required: int, k: nat)
    requires required != 0 && items != [] && k < |keys| && !p.parses(keys[k])
    requires forall j :: 0 <= j < k ==> !p.verifies(items[0], keys[j])
    ensures Verify(p, items, keys, required) == Broken
  {
  }

  ghost predicate Accepts(p: OpenPgp, items: seq<Signed>, keys: seq<string>, required: int) {
    var left := Verify(p, items, keys, required);
    left.Left? && left.required == 0
  }

  /**
   * The threshold. Acceptance takes a matching of `required` signatures to keys; conversely, though the pass does not
   * look for a largest matching, it accepts whenever one of size 2 * required - 1 exists.
   */
  lemma GreedyThreshold(p: OpenPgp, items: seq<Signed>, keys: seq<string>, required: int, n: seq<Match>)
    requires AllParse(p, keys) && required > 0 && IsMatching(p, items, keys, n)
    ensures |n| >= 2 * required - 1 ==> Accepts(p, items, keys, required)
    ensures Accepts(p, items, keys, required) ==> exists m :: IsMatching(p, items, keys, m) && |m| == required
  {
    ParsedKeysNeverBreak(p, items, keys, required);
    var m := VerifiedMatching(p, items, keys, required);
    if !Accepts(p, items, keys, required) {
      MaximalIsHalf(p, items, keys, m, n);
      GreedyNeverOvershoots(p, items, keys, required);
    }
  }

  /** Counting down from a positive number stops at zero. */
  lemma {:induction false} GreedyNeverOvershoots(p: OpenPgp, items: seq<Signed>, keys: seq<string>, required: int)
    requires required > 0 && Greedy(p, items, keys, required).Left?
    ensures 0 <= Greedy(p, items, keys, required).required <= required
  {
    if items != [] {
      match ScanKeys(p, items[0], keys)
      case Hit(at) =>
        if required > 1 {
          GreedyNeverOvershoots(p, items[1..], Without(keys, at), required - 1);
        }
      case Miss => GreedyNeverOvershoots(p, items[1..], keys, required);
      case Unreadable =>
    }
  }

  /** The keys under which some signature verifies. */
  ghost function VerifyingKeys(p: OpenPgp, items: seq<Signed>, keys: seq<string>): set<nat> {
    set k: nat | k < |keys| && exists i :: 0 <= i < |items| && p.verifies(items[i], keys[k])
  }

  ghost predicate OneKeyEach(p: OpenPgp, items: seq<Signed>, keys: seq<string>) {
    forall i, k, l :: 0 <= i < |items| && 0 <= k < l < |keys| ==>
      !(p.verifies(items[i], keys[k]) && p.verifies(items[i], keys[l]))
  }

  lemma {:induction false} InjectiveKeysCount(m: seq<Match>)
    requires IsInjective(m)
    ensures |set a | 0 <= a < |m| :: m[a].key| == |m|
  {
    if m != [] {
      var last, rest := m[|m| - 1], m[..|m| - 1];
      InjectiveKeysCount(rest);
      assert (set a | 0 <= a < |m| :: m[a].key) == (set a | 0 <= a < |rest| :: rest[a].key) + {last.key};
    }
  }

  /**
   * When each signature verifies under at most one of the keys, the pass is exact: the number counted is the smaller
   * of `required` and the number of keys with a verifying signature.
   */
  lemma ExactWhenOneKeyEach(p: OpenPgp, items: seq<Signed>, keys: seq<string>, required: int)
    requires AllParse(p, keys) && required > 0 && OneKeyEach(p, items, keys)
    ensures var left, available := Verify(p, items, keys, required), |VerifyingKeys(p, items, keys)|;
      left.Left? && required - left.required == if available < required then available else required
  {
    ParsedKeysNeverBreak(p, items, keys, required);
    GreedyNeverOvershoots(p, items, keys, required);
    var m := VerifiedMatching(p, items, keys, required);
    var used, all := set a | 0 <= a < |m| :: m[a].key, VerifyingKeys(p, items, keys);
    InjectiveKeysCount(m);
    assert used <= all;
    SubsetSize(used, all);
    if Verify(p, items, keys, required).required != 0 {
      forall k | k in all ensures k in used {
        var i :| 0 <= i < |items| && p.verifies(items[i], keys[k]);
        assert UsesItem(m, i) || UsesKey(m, k);
        if UsesItem(m, i) {
          var a :| 0 <= a < |m| && m[a].item == i;
          assert p.verifies(items[i], keys[m[a].key]);
          assert m[a].key == k;
        }
      }
      assert used == all;
    }
  }

  /** A count below zero is never reached. */
  lemma AcceptanceIsExact(p: OpenPgp, items: seq<Signed>, keys: seq<string>, required: int)
    requires Accepts(p, items, keys, required)
    ensures required >= 0 && exists m :: IsMatching(p, items, keys, m) && |m| == required
  {
    var m := VerifiedMatching(p, items, keys, required);
  }
}
