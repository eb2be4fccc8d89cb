/** The signature threshold of a commit: its own signature first, then those in the notes. */
module Signatures {
  import opened Wrappers
  import opened Pgp
  import opened Matching

  /** A commit object; `encoded` is the text without the signature, if it can be encoded. */
  datatype CommitObject = CommitObject(signature: string, encoded: Option<string>)

  /** The signatures that the notes list for the commit. */
  datatype Notes = Listed(signatures: seq<string>) | ObjectNotFound | Unavailable

  datatype Verdict = Accepted | NotEnough(missing: int) | Failed

  /** All that is offered for the commit, each signature with the message it is checked against. */
  function Offered(found: CommitObject, commit: string, notes: Notes): seq<Signed>
    requires found.signature != "" ==> found.encoded.Some?
  {
    (if found.signature != "" then [Signed(found.encoded.value, found.signature)] else []) +
    if notes.Listed? then Items(commit, notes.signatures) else []
  }

  method VerifyObjectSignatures(p: OpenPgp, commit: string, notes: Notes, keys: seq<string>, required: int)
      returns (r: Verdict)
    ensures notes.Unavailable? ==> r == Failed
    ensures notes.ObjectNotFound? ==> r == NotEnough(required)
    ensures notes == Listed([]) ==> r == NotEnough(required)
    ensures notes.Listed? && notes.signatures != [] ==>
      r == match Verify(p, Items(commit, notes.signatures), keys, required)
           case Broken => Failed
           case Left(_, left) => if left == 0 then Accepted else NotEnough(left)
  {
    match notes
    case Unavailable => return Failed;
    case ObjectNotFound => return NotEnough(required);
    case Listed(signatures) =>
      if signatures == [] {
        return NotEnough(required);
      }
      var tally := VerifyPgpSignatures(p, commit, true, signatures, keys, required);
      if tally.Broken? {
        return Failed;
      }
      return if tally.required != 0 then NotEnough(tally.required) else Accepted;
  }

  /** Two stages are one pass: the commit signature first, the notes after it, keys and count carried over. */
  lemma {:induction false} GreedyConcat(p: OpenPgp, a: seq<Signed>, b: seq<Signed>, keys: seq<string>, required: int)
    requires required != 0
    ensures Greedy(p, a + b, keys, required) ==
            (match Greedy(p, a, keys, required)
             case Broken => Broken
             case Left(rest, left) => if left == 0 then Left(rest, 0) else Greedy(p, b, rest, left))
  {
    if a == [] {
      assert a + b == b;
    } else {
      assert (a + b)[0] == a[0] && (a + b)[1..] == a[1..] + b;
      match ScanKeys(p, a[0], keys)
      case Unreadable =>
      case Miss => GreedyConcat(p, a[1..], b, keys, required);
      case Hit(at) =>
        if required != 1 {
          GreedyConcat(p, a[1..], b, Without(keys, at), required - 1);
        }
    }
  }

  /** The commit object can be read, and what is offered for it reaches the required number. */
  ghost predicate IsAccepted(p: OpenPgp, found: Option<CommitObject>, commit: string, notes: Notes, keys: seq<string>,
                             requiredNumber: int)
  {
    && found.Some? && (found.value.signature != "" ==> found.value.encoded.Some?)
    && Accepts(p, Offered(found.value, commit, notes), keys, requiredNumber)
  }

  /** A signature counted for the key at a position: the commit's own, or one of those in the notes. */
  datatype Credit = Own(key: nat) | Noted(at: nat, key: nat)

  /** The commit's own signature is of its encoded text, those in the notes are of its hash. */
  predicate IsCredit(p: OpenPgp, co: CommitObject, commit: string, notes: Notes, keys: seq<string>, credit: Credit) {
    && credit.key < |keys|
    && match credit
       case Own(key) =>
         co.signature != "" && co.encoded.Some? && p.verifies(Signed(co.encoded.value, co.signature), keys[key])
       case Noted(at, key) =>
         notes.Listed? && at < |notes.signatures| && p.verifies(Signed(commit, notes.signatures[at]), keys[key])
  }

  predicate SameSignature(a: Credit, b: Credit) {
    match (a, b)
    case (Own(_), Own(_)) => true
    case (Noted(i, _), Noted(j, _)) => i == j
    case _ => false
  }

  /** No signature and no key position is counted twice. */
  ghost predicate AreCredits(p: OpenPgp, co: CommitObject, commit: string, notes: Notes, keys: seq<string>,
                             credits: seq<Credit>)
  {
    && (forall a :: 0 <= a < |credits| ==> IsCredit(p, co, commit, notes, keys, credits[a]))
    && (forall a, b :: 0 <= a < b < |credits| ==>
      credits[a].key != credits[b].key && !SameSignature(credits[a], credits[b]))
  }

  /** The number of the commit's own signatures: the position at which those of the notes begin. */
  function OwnCount(co: CommitObject): nat {
    if co.signature != "" then 1 else 0
  }

  function CreditOf(co: CommitObject, m: Match): Credit {
    if m.item < OwnCount(co) then Own(m.key) else Noted(m.item - OwnCount(co), m.key)
  }

  function MatchOf(co: CommitObject, credit: Credit): Match {
    match credit
    case Own(key) => Match(0, key)
    case Noted(at, key) => Match(at + OwnCount(co), key)
  }

  lemma OfferedAt(co: CommitObject, commit: string, notes: Notes)
    requires co.signature != "" ==> co.encoded.Some?
    ensures var offered := Offered(co, commit, notes);
      && |offered| == OwnCount(co) + (if notes.Listed? then |notes.signatures| else 0)
      && (co.signature != "" ==> offered[0] == Signed(co.encoded.value, co.signature))
      && (notes.Listed? ==> forall i :: 0 <= i < |notes.signatures| ==>
        offered[OwnCount(co) + i] == Signed(commit, notes.signatures[i]))
  {
  }

  /** Whatever is accepted has the required number of credits. */
  lemma AcceptedIsCredited(p: OpenPgp, found: Option<CommitObject>, commit: string, notes: Notes, keys: seq<string>,
                           requiredNumber: int)
      returns (credits: seq<Credit>)
    requires IsAccepted(p, found, commit, notes, keys, requiredNumber)
    ensures found.Some? && requiredNumber >= 0 && |credits| == requiredNumber
    ensures AreCredits(p, found.value, commit, notes, keys, credits)
  {
    var co := found.value;
    OfferedAt(co, commit, notes);
    var m := AcceptedIsMatched(p, found, commit, notes, keys, requiredNumber);
    credits := seq(|m|, a requires 0 <= a < |m| => CreditOf(co, m[a]));
    CreditsOfMatching(p, co, commit, notes, keys, m, credits);
  }

  lemma CreditOfMatch(p: OpenPgp, co: CommitObject, commit: string, notes: Notes, keys: seq<string>, m: Match)
    requires co.signature != "" ==> co.encoded.Some?
    requires m.key < |keys| && m.item < |Offered(co, commit, notes)|
    requires p.verifies(Offered(co, commit, notes)[m.item], keys[m.key])
    ensures IsCredit(p, co, commit, notes, keys, CreditOf(co, m))
  {
    hide Offered;
    OfferedAt(co, commit, notes);
    if m.item >= OwnCount(co) {
      assert Offered(co, commit, notes)[OwnCount(co) + (m.item - OwnCount(co))] ==
             Signed(commit, notes.signatures[m.item - OwnCount(co)]);
    }
  }

  lemma CreditsOfMatching(p: OpenPgp, co: CommitObject, commit: string, notes: Notes, keys: seq<string>,
                          m: seq<Match>, credits: seq<Credit>)
    requires co.signature != "" ==> co.encoded.Some?
    requires IsMatching(p, Offered(co, commit, notes), keys, m)
    requires |credits| == |m| && forall a :: 0 <= a < |m| ==> credits[a] == CreditOf(co, m[a])
    ensures AreCredits(p, co, commit, notes, keys, credits)
  {
    hide Offered, IsCredit;
    forall a | 0 <= a < |m| ensures IsCredit(p, co, commit, notes, keys, credits[a]) {
      CreditOfMatch(p, co, commit, notes, keys, m[a]);
    }
  }

  /**
   * Conversely, if the keys can be read, one credit less than twice the required number is enough; so a single one is
   * when one is required.
   */
  lemma CreditsSuffice(p: OpenPgp, co: CommitObject, commit: string, notes: Notes, keys: seq<string>,
                       requiredNumber: int, credits: seq<Credit>)
    requires requiredNumber > 0 && AllParse(p, keys) && (co.signature != "" ==> co.encoded.Some?)
    requires AreCredits(p, co, commit, notes, keys, credits) && |credits| >= 2 * requiredNumber - 1
    ensures IsAccepted(p, Some(co), commit, notes, keys, requiredNumber)
  {
    OfferedAt(co, commit, notes);
    var m := seq(|credits|, a requires 0 <= a < |credits| => MatchOf(co, credits[a]));
    forall a | 0 <= a < |m|
      ensures m[a].item < |Offered(co, commit, notes)|
      ensures p.verifies(Offered(co, commit, notes)[m[a].item], keys[m[a].key])
    {
      assert IsCredit(p, co, commit, notes, keys, credits[a]);
    }
    forall a, b | 0 <= a < b < |m| ensures m[a].item != m[b].item && m[a].key != m[b].key {
      assert IsCredit(p, co, commit, notes, keys, credits[a]) && IsCredit(p, co, commit, notes, keys, credits[b]);
      assert !SameSignature(credits[a], credits[b]);
    }
    GreedyThreshold(p, Offered(co, commit, notes), keys, requiredNumber, m);
  }

  /** Acceptance is an injective matching of the required size between signatures offered and trusted keys. */
  lemma AcceptedIsMatched(p: OpenPgp, found: Option<CommitObject>, commit: string, notes: Notes, keys: seq<string>,
                          requiredNumber: int)
      returns (m: seq<Match>)
    requires IsAccepted(p, found, commit, notes, keys, requiredNumber)
    ensures requiredNumber >= 0 && |m| == requiredNumber
    ensures IsMatching(p, Offered(found.value, commit, notes), keys, m)
  {
    AcceptanceIsExact(p, Offered(found.value, commit, notes), keys, requiredNumber);
    m :| IsMatching(p, Offered(found.value, commit, notes), keys, m) && |m| == requiredNumber;
  }

  /**
   * A commit is accepted exactly when its object can be read and a single greedy pass over everything offered for it
   * reaches the required number; when it falls short, the error tells by how much.
   */
  method VerifyCommitSignatures(p: OpenPgp, found: Option<CommitObject>, commit: string, notes: Notes,
                                keys: seq<string>, requiredNumber: int)
      returns (r: Verdict)
    ensures r.Accepted? <==> IsAccepted(p, found, commit, notes, keys, requiredNumber)
    ensures r.NotEnough? ==>
      && found.Some? && (found.value.signature != "" ==> found.value.encoded.Some?)
      && var tally := Verify(p, Offered(found.value, commit, notes), keys, requiredNumber);
        tally.Left? && tally.required == r.missing
  {
    if found.None? {
      return Failed;
    }
    var co := found.value;
    var trusted, required := keys, requiredNumber;
    ghost var listed := if notes.Listed? then Items(commit, notes.signatures) else [];
    ghost var own: seq<Signed> := [];
    if co.signature != "" {
      if co.encoded.None? {
        return Failed;
      }
      var tally := VerifyPgpSignatures(p, co.encoded.value, true, [co.signature], trusted, required);
      own := Items(co.encoded.value, [co.signature]);
      assert own == [Signed(co.encoded.value, co.signature)];
      if requiredNumber != 0 {
        GreedyConcat(p, own, listed, keys, requiredNumber);
      }
      if tally.Broken? {
        return Failed;
      }
      trusted, required := tally.keys, tally.required;
    }
    assert own + listed == Offered(co, commit, notes);
    assert co.signature == "" ==> own + listed == listed;
    if required == 0 {
      return Accepted;
    }
    r := VerifyObjectSignatures(p, commit, notes, trusted, required);
  }
}
