/** Greedy matching of signatures to keys: every key counts once. */
module Pgp {
  /** What is signed together with one signature of it. */
  datatype Signed = Signed(message: string, signature: string)

  /** OpenPGP: which armored keys parse, and which signatures verify under which keys. */
  datatype OpenPgp = OpenPgp(parses: string -> bool, verifies: (Signed, string) -> bool)

  /** The keys not used up and the number of signatures still required, or the error of an unreadable key. */
  datatype Tally = Left(keys: seq<string>, required: int) | Broken

  /** How the scan of the keys for one signature ends. */
  datatype Scan = Hit(at: nat) | Miss | Unreadable

  /** The first key that verifies the signature, unless a key before it cannot be read. */
  function ScanKeys(p: OpenPgp, s: Signed, keys: seq<string>): (r: Scan)
    ensures r.Hit? ==> r.at < |keys| && p.verifies(s, keys[r.at])
    ensures r.Hit? ==> forall k :: 0 <= k < r.at ==> !p.verifies(s, keys[k])
    ensures r.Hit? ==> forall k :: 0 <= k <= r.at ==> p.parses(keys[k])
    ensures r.Miss? ==> forall k :: 0 <= k < |keys| ==> p.parses(keys[k]) && !p.verifies(s, keys[k])
    ensures r.Unreadable? ==> exists k ::
      0 <= k < |keys| && !p.parses(keys[k]) && forall j :: 0 <= j < k ==> !p.verifies(s, keys[j])
  {
    if keys == [] then Miss
    else if !p.parses(keys[0]) then Unreadable
    else if p.verifies(s, keys[0]) then Hit(0)
    else
      match ScanKeys(p, s, keys[1..])
      case Hit(at) => Hit(at + 1)
      case other => other
  }

  function Without<T>(s: seq<T>, i: nat): (r: seq<T>)
    requires i < |s|
    ensures |r| == |s| - 1
  {
    s[..i] + s[i + 1..]
  }

  /** The loop over the signatures, entered with a count other than zero. */
  function Greedy(p: OpenPgp, items: seq<Signed>, keys: seq<string>, required: int): Tally {
    if items == [] then Left(keys, required)
    else
      match ScanKeys(p, items[0], keys)
      case Unreadable => Broken
      case Miss => Greedy(p, items[1..], keys, required)
      case Hit(at) =>
        if required == 1 then Left(keys, 0)
        else Greedy(p, items[1..], Without(keys, at), required - 1)
  }

  function Verify(p: OpenPgp, items: seq<Signed>, keys: seq<string>, required: int): Tally {
    if required == 0 then Left(keys, 0) else Greedy(p, items, keys, required)
  }

  /** `VerifyPGPSignatures`; all signatures are of one message, or of one that cannot be read. */
  method VerifyPgpSignatures(p: OpenPgp, message: string, readable: bool, signatures: seq<string>, pgpKeys: seq<string>,
                             requiredNumber: int)
      returns (r: Tally)
    ensures readable ==> r == Verify(p, Items(message, signatures), pgpKeys, requiredNumber)
    ensures !readable && (requiredNumber == 0 || signatures == [] || pgpKeys == []) ==>
      r == Left(pgpKeys, requiredNumber)
    ensures !readable && requiredNumber != 0 && signatures != [] && pgpKeys != [] ==> r == Broken
  {
    var keys, required := pgpKeys, requiredNumber;
    if required == 0 {
      return Left(keys, 0);
    }
    ghost var items := Items(message, signatures);
    for j := 0 to |signatures|
      invariant required != 0
      invariant readable ==> Greedy(p, items, pgpKeys, requiredNumber) == Greedy(p, items[j..], keys, required)
      invariant !readable ==> keys == pgpKeys && required == requiredNumber && (j > 0 ==> keys == [])
    {
      var s := Signed(message, signatures[j]);
      assert items[j..][0] == s && items[j..][1..] == items[j + 1..];
      var i, l := 0, |keys|;
      assert keys[0..] == keys;
      while i < l
        invariant 0 <= i <= l
        invariant !readable ==> i == 0
        invariant readable ==> ScanKeys(p, s, keys) == Shifted(ScanKeys(p, s, keys[i..]), i)
      {
        if !p.parses(keys[i]) {
          return Broken;
        }
        if !readable {
          return Broken;
        }
        assert keys[i..][0] == keys[i] && keys[i..][1..] == keys[i + 1..];
        if !p.verifies(s, keys[i]) {
          i := i + 1;
          continue;
        }
        required := required - 1;
        if required == 0 {
          return Left(keys, 0);
        }
        keys := Without(keys, i);
        break;
      }
    }
    return Left(keys, required);
  }

  function Items(message: string, signatures: seq<string>): (items: seq<Signed>)
    ensures |items| == |signatures|
  {
    seq(|signatures|, i requires 0 <= i < |signatures| => Signed(message, signatures[i]))
  }

  function Shifted(r: Scan, i: nat): Scan {
    match r
    case Hit(at) => Hit(at + i)
    case other => other
  }
}
