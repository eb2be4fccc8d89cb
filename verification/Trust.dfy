/** The periodic task with the signature check it uses: what is stored as finished was signed by enough trusted keys. */
module Trust {
  import opened Wrappers
  import opened Pgp
  import opened Matching
  import opened Signatures
  import Periodic

  /** What the check sees of a commit at a time: the configuration, the trusted keys, and the repository. */
  datatype World = World(
    p: OpenPgp,
    trusted: int -> seq<string>,
    required: int -> int,
    found: (int, string) -> Option<CommitObject>,
    notes: (int, string) -> Notes)

  ghost predicate IsSigned(w: World, at: int, hash: string) {
    IsAccepted(w.p, w.found(at, hash), hash, w.notes(at, hash), w.trusted(at), w.required(at))
  }

  /** The task asks exactly this check. */
  ghost predicate Asks(g: Periodic.Setting, w: World) {
    forall at: int, hash: string :: g.signed(at, hash) <==> IsSigned(w, at, hash)
  }

  /**
   * Every commit ever stored as finished had, when it was chosen, as many signatures as were required, each verified by
   * another one of the trusted keys: its own on its encoded text, or those in its notes on its hash.
   */
  lemma FinishedIsTrusted(g: Periodic.Setting, w: World, run: seq<Periodic.System>, k: nat, j: nat)
      returns (credits: seq<Credit>)
    requires Asks(g, w) && Periodic.IsRun(g, run) && k < |run| && j < |run[k].shared.finished|
    ensures var commit, at := run[k].shared.finished[j].commit, run[k].shared.finished[j].at;
      && w.found(at, commit.hash).Some? && w.required(at) >= 0 && |credits| == w.required(at)
      && AreCredits(w.p, w.found(at, commit.hash).value, commit.hash, w.notes(at, commit.hash), w.trusted(at), credits)
  {
    Periodic.RecordProgresses(g, run, k, j);
    var commit, at := run[k].shared.finished[j].commit, run[k].shared.finished[j].at;
    assert IsSigned(w, at, commit.hash);
    credits := AcceptedIsCredited(w.p, w.found(at, commit.hash), commit.hash, w.notes(at, commit.hash), w.trusted(at),
      w.required(at));
  }

  /** And if the keys can be read, any commit with twice that number of credits, less one, is accepted by the check. */
  lemma EnoughIsSigned(w: World, at: int, hash: string, credits: seq<Credit>)
    requires w.required(at) > 0 && AllParse(w.p, w.trusted(at))
    requires w.found(at, hash).Some? &&
      (w.found(at, hash).value.signature != "" ==> w.found(at, hash).value.encoded.Some?)
    requires AreCredits(w.p, w.found(at, hash).value, hash, w.notes(at, hash), w.trusted(at), credits)
    requires |credits| >= 2 * w.required(at) - 1
    ensures IsSigned(w, at, hash)
  {
    CreditsSuffice(w.p, w.found(at, hash).value, hash, w.notes(at, hash), w.trusted(at), w.required(at), credits);
  }
}
