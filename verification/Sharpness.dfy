/**
 * The threshold of the greedy pass cannot be improved: for every required number there are signatures and keys with
 * a matching of size 2 * required - 2 that the pass rejects.
 *
 * Block `b` has two signatures and two keys. The first signature verifies under both keys, the second under the first
 * key only; the pass gives the first key to the first signature, and the second is left without one.
 */
module Sharpness {
  import opened Pgp
  import opened Matching

  function Name(b: nat): (s: string)
    ensures |s| == b
  {
    seq(b, _ => 'x')
  }

  function ItemAt(i: nat): Signed {
    Signed(Name(i / 2), if i % 2 == 0 then "both" else "one")
  }

  function KeyAt(i: nat): (key: string)
    ensures |key| == i / 2 + 1
  {
    Name(i / 2) + if i % 2 == 0 then "0" else "1"
  }

  predicate BlockVerifies(s: Signed, key: string) {
    |key| == |s.message| + 1 && (s.signature == "both" || key[|key| - 1] == '0')
  }

  const BLOCKS := OpenPgp(_ => true, BlockVerifies)

  function BlockItems(m: nat): (items: seq<Signed>)
    ensures |items| == 2 * m && forall i :: 0 <= i < 2 * m ==> items[i] == ItemAt(i)
  {
    seq(2 * m, i requires 0 <= i < 2 * m => ItemAt(i))
  }

  function BlockKeys(m: nat): (keys: seq<string>)
    ensures |keys| == 2 * m && forall i :: 0 <= i < 2 * m ==> keys[i] == KeyAt(i)
  {
    seq(2 * m, i requires 0 <= i < 2 * m => KeyAt(i))
  }

  lemma {:induction false} ScanSkips(s: Signed, passed: seq<string>, keys: seq<string>)
    requires forall k :: 0 <= k < |passed| ==> !BlockVerifies(s, passed[k])
    ensures ScanKeys(BLOCKS, s, passed + keys) == Shifted(ScanKeys(BLOCKS, s, keys), |passed|)
  {
    if passed == [] {
      assert passed + keys == keys;
    } else {
      assert (passed + keys)[0] == passed[0] && (passed + keys)[1..] == passed[1..] + keys;
      ScanSkips(s, passed[1..], keys);
    }
  }

  /** From block `b` on, each block counts one signature; `over` are the keys left over from the blocks before. */
  lemma {:induction false} OnePerBlock(b: nat, m: nat, over: seq<string>, required: int)
    requires b <= m && required > m - b
    requires forall k :: 0 <= k < |over| ==> |over[k]| <= b
    ensures var left := Greedy(BLOCKS, BlockItems(m)[2 * b..], over + BlockKeys(m)[2 * b..], required);
      left.Left? && left.required == required - (m - b)
    decreases m - b
  {
    hide ScanKeys, ItemAt, BlockItems, BlockKeys;
    var items, keys := BlockItems(m)[2 * b..], BlockKeys(m)[2 * b..];
    if b < m {
      assert items == [ItemAt(2 * b), ItemAt(2 * b + 1)] + BlockItems(m)[2 * (b + 1)..];
      var rest := BlockKeys(m)[2 * (b + 1)..];
      assert keys == [KeyAt(2 * b)] + ([KeyAt(2 * b + 1)] + rest);
      FirstOfBlock(b, over, rest);
      SecondOfBlock(b, m, over);
      assert items[1..][0] == ItemAt(2 * b + 1) && items[1..][1..] == BlockItems(m)[2 * (b + 1)..];
      OnePerBlock(b + 1, m, over + [KeyAt(2 * b + 1)], required - 1);
    }
  }

  lemma FirstOfBlock(b: nat, over: seq<string>, rest: seq<string>)
    requires forall k :: 0 <= k < |over| ==> |over[k]| <= b
    ensures var keys := over + ([KeyAt(2 * b)] + ([KeyAt(2 * b + 1)] + rest));
      && ScanKeys(BLOCKS, ItemAt(2 * b), keys) == Hit(|over|)
      && Without(keys, |over|) == over + [KeyAt(2 * b + 1)] + rest
  {
    var first, others := KeyAt(2 * b), [KeyAt(2 * b + 1)] + rest;
    forall k | 0 <= k < |over| ensures !BlockVerifies(ItemAt(2 * b), over[k]) {
    }
    ScanSkips(ItemAt(2 * b), over, [first] + others);
    FirstKeyFits(b);
    assert ([first] + others)[0] == first;
    WithoutMiddle(over, first, others);
    assert over + others == over + [KeyAt(2 * b + 1)] + rest;
  }

  lemma FirstKeyFits(b: nat)
    ensures BlockVerifies(ItemAt(2 * b), KeyAt(2 * b))
  {
  }

  lemma WithoutMiddle<T>(a: seq<T>, x: T, b: seq<T>)
    ensures Without(a + ([x] + b), |a|) == a + b
  {
  }

  lemma SecondOfBlock(b: nat, m: nat, over: seq<string>)
    requires b < m && forall k :: 0 <= k < |over| ==> |over[k]| <= b
    ensures ScanKeys(BLOCKS, ItemAt(2 * b + 1), over + [KeyAt(2 * b + 1)] + BlockKeys(m)[2 * (b + 1)..]) == Miss
  {
    hide ScanKeys, ItemAt, KeyAt, BlockVerifies;
    var rest := BlockKeys(m)[2 * (b + 1)..];
    var keys := over + [KeyAt(2 * b + 1)] + rest;
    forall k | 0 <= k < |keys| ensures !BlockVerifies(ItemAt(2 * b + 1), keys[k]) {
      SecondNeedsFirstKey(b, keys[k]);
      if k > |over| {
        assert keys[k] == rest[k - |over| - 1] == KeyAt(2 * (b + 1) + (k - |over| - 1));
      } else if k == |over| {
        assert keys[k] == KeyAt(2 * b + 1);
      } else {
        assert keys[k] == over[k];
      }
    }
    ScanSkips(ItemAt(2 * b + 1), keys, []);
    assert keys + [] == keys;
  }

  lemma SecondNeedsFirstKey(b: nat, key: string)
    ensures |key| != b + 1 || key == KeyAt(2 * b + 1) ==> !BlockVerifies(ItemAt(2 * b + 1), key)
  {
    assert KeyAt(2 * b + 1) == Name(b) + "1" && KeyAt(2 * b + 1)[b] == '1';
  }

  function Partner(i: nat): (j: nat)
    ensures j / 2 == i / 2 && j != i
  {
    if i % 2 == 0 then i + 1 else i - 1
  }

  lemma PartnerVerifies(i: nat)
    ensures BlockVerifies(ItemAt(i), KeyAt(Partner(i)))
    ensures Partner(Partner(i)) == i
  {
  }

  /** Every signature of the blocks gets a key: the first of each block the second key, and the other way round. */
  function Swapped(m: nat): (n: seq<Match>)
    ensures |n| == 2 * m && forall i :: 0 <= i < 2 * m ==> n[i] == Match(i, Partner(i))
  {
    seq(2 * m, i requires 0 <= i < 2 * m => Match(i, Partner(i)))
  }

  lemma SwappedIsMatching(m: nat)
    ensures IsMatching(BLOCKS, BlockItems(m), BlockKeys(m), Swapped(m))
  {
    forall i | 0 <= i < 2 * m ensures BLOCKS.verifies(BlockItems(m)[i], BlockKeys(m)[Partner(i)]) {
      PartnerVerifies(i);
    }
    forall i, j | 0 <= i < j < 2 * m ensures Partner(i) != Partner(j) {
      PartnerVerifies(i);
      PartnerVerifies(j);
    }
  }

  lemma ThresholdIsSharp(required: nat)
    requires required > 0
    ensures var m := required - 1;
      && AllParse(BLOCKS, BlockKeys(m)) && IsMatching(BLOCKS, BlockItems(m), BlockKeys(m), Swapped(m))
      && |Swapped(m)| == 2 * required - 2
      && !Accepts(BLOCKS, BlockItems(m), BlockKeys(m), required)
  {
    var m := required - 1;
    OnePerBlock(0, m, [], required);
    assert [] + BlockKeys(m) == BlockKeys(m);
    SwappedIsMatching(m);
  }
}
