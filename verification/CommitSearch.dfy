/** The search from HEAD back to the last finished commit for the first acceptable one. */
module CommitSearch {
  import opened Wrappers

  /** Times are nanoseconds since the epoch. */
  datatype CommitInfo = CommitInfo(hash: string, date: int)

  /** What the log yields next: a commit, or an error in its place. */
  datatype LogItem = Entry(commit: CommitInfo) | IterationError

  /** The cloned repository: its head, and the log from there. No commit has an empty hash. */
  datatype Repository = Repository(head: Option<string>, headReadable: bool, log: seq<LogItem>)

  /** The stateful iterator over the log. */
  class CommitIter {
    const log: seq<LogItem>
    var next: nat

    ghost predicate Valid()
      reads this
    {
      next <= |log|
    }

    constructor (log: seq<LogItem>)
      ensures Valid() && this.log == log && next == 0
    {
      this.log := log;
      next := 0;
    }

    /** `None` is the end of the log. */
    method Next() returns (item: Option<LogItem>)
      requires Valid()
      modifies this
      ensures Valid()
      ensures old(next) == |log| ==> item == None && next == old(next)
      ensures old(next) < |log| ==> item == Some(log[old(next)]) && next == old(next) + 1
    {
      if next == |log| {
        return None;
      }
      item := Some(log[next]);
      next := next + 1;
    }
  }

  datatype SearchResult = Found(commit: CommitInfo) | NothingNew | Failed

  /** The commit has its signatures, is not from the future and not older than the last finished one. */
  predicate IsEligible(signed: string -> bool, last: Option<CommitInfo>, now: int, c: CommitInfo) {
    && signed(c.hash)
    && c.date <= now
    && (last.Some? ==> c.date >= last.value.date)
  }

  /** The hash to stop at; empty when there is none. */
  function Boundary(last: Option<CommitInfo>): string {
    if last.None? then "" else last.value.hash
  }

  predicate IsBoundary(last: Option<CommitInfo>, hash: string) {
    Boundary(last) != "" && hash == Boundary(last)
  }

  /** The search looks past this item. */
  predicate IsPassedOver(signed: string -> bool, last: Option<CommitInfo>, now: int, item: LogItem) {
    item.Entry? && !IsBoundary(last, item.commit.hash) && !IsEligible(signed, last, now, item.commit)
  }

  /** Position `n` is where the search stops: everything before it is passed over, and it is not. */
  ghost predicate StopsAt(signed: string -> bool, last: Option<CommitInfo>, now: int, log: seq<LogItem>, n: nat) {
    && n <= |log|
    && (forall k :: 0 <= k < n ==> IsPassedOver(signed, last, now, log[k]))
    && (n < |log| ==> !IsPassedOver(signed, last, now, log[n]))
  }

  /** The result, given where the search stops. */
  predicate IsResultAt(signed: string -> bool, last: Option<CommitInfo>, now: int, log: seq<LogItem>, n: nat,
                       r: SearchResult)
    requires n <= |log|
  {
    match r
    case Found(c) => n < |log| && log[n] == Entry(c) && !IsBoundary(last, c.hash) && IsEligible(signed, last, now, c)
    case NothingNew => n == |log| || (log[n].Entry? && IsBoundary(last, log[n].commit.hash))
    case Failed => n < |log| && log[n].IterationError?
  }

  /** The result of the search is the first of: an error, the boundary, an eligible commit. */
  ghost predicate IsSearchResult(signed: string -> bool, last: Option<CommitInfo>, now: int, repo: Repository,
                                 r: SearchResult)
  {
    if repo.head.None? then r == Failed
    else if IsBoundary(last, repo.head.value) then r == NothingNew
    else if !repo.headReadable then r == Failed
    else exists n: nat :: StopsAt(signed, last, now, repo.log, n) && IsResultAt(signed, last, now, repo.log, n, r)
  }

  /** `signed` is the signature check of a commit with the trusted keys and the configured number. */
  method FindFirstSignedCommit(signed: string -> bool, last: Option<CommitInfo>, now: int, repo: Repository,
                               configReadable: bool, keysReadable: bool)
      returns (r: SearchResult)
    ensures configReadable && keysReadable ==> IsSearchResult(signed, last, now, repo, r)
    ensures !configReadable ==> r == Failed
    ensures configReadable && !keysReadable ==>
      r == if repo.head.Some? && IsBoundary(last, repo.head.value) then NothingNew else Failed
  {
    if !configReadable {
      return Failed;
    }
    var boundary := Boundary(last);
    if repo.head.None? {
      return Failed;
    }
    if boundary != "" && boundary == repo.head.value {
      return NothingNew;
    }
    if !keysReadable {
      return Failed;
    }
    if !repo.headReadable {
      return Failed;
    }
    var iter := new CommitIter(repo.log);
    while true
      invariant iter.Valid() && iter.log == repo.log
      invariant forall k :: 0 <= k < iter.next ==> IsPassedOver(signed, last, now, repo.log[k])
      decreases |repo.log| - iter.next
    {
      ghost var at := iter.next;
      var item := iter.Next();
      if item.None? {
        assert StopsAt(signed, last, now, repo.log, at);
        break;
      }
      if item.value.IterationError? {
        assert StopsAt(signed, last, now, repo.log, at);
        return Failed;
      }
      var c := item.value.commit;
      if boundary != "" && c.hash == boundary {
        assert StopsAt(signed, last, now, repo.log, at);
        break;
      }
      if !signed(c.hash) {
        continue;
      }
      if c.date > now {
        continue;
      }
      if last.Some? && c.date < last.value.date {
        continue;
      }
      assert StopsAt(signed, last, now, repo.log, at);
      return Found(c);
    }
    return NothingNew;
  }

  /** The stopping position, and with it the result, is determined. */
  lemma SearchIsDetermined(signed: string -> bool, last: Option<CommitInfo>, now: int, repo: Repository,
                           r: SearchResult, r': SearchResult)
    requires IsSearchResult(signed, last, now, repo, r) && IsSearchResult(signed, last, now, repo, r')
    ensures r == r'
  {
    if repo.head.Some? && !IsBoundary(last, repo.head.value) && repo.headReadable {
      var n: nat :| StopsAt(signed, last, now, repo.log, n) && IsResultAt(signed, last, now, repo.log, n, r);
      var n': nat :| StopsAt(signed, last, now, repo.log, n') && IsResultAt(signed, last, now, repo.log, n', r');
      assert n == n';
    }
  }

  /** What the periodic task relies on when it stores the commit found. */
  lemma FoundCommitIsNews(signed: string -> bool, last: Option<CommitInfo>, now: int, repo: Repository, c: CommitInfo)
    requires IsSearchResult(signed, last, now, repo, Found(c))
    requires forall k :: 0 <= k < |repo.log| && repo.log[k].Entry? ==> repo.log[k].commit.hash != ""
    ensures signed(c.hash) && c.date <= now && c.hash != ""
    ensures last.Some? ==> c.date >= last.value.date && c.hash != last.value.hash
  {
  }

  // ---------------------------------------------------------------- what is found

  /** There is a last finished commit, and this is its hash. */
  predicate IsLast(last: Option<CommitInfo>, hash: string) {
    last.Some? && last.value.hash != "" && last.value.hash == hash
  }

  /** The log begins with `n` commits that are not the last finished one, each with a reason not to take it. */
  ghost predicate AreRejected(signed: string -> bool, last: Option<CommitInfo>, now: int, log: seq<LogItem>, n: nat) {
    && n <= |log|
    && forall k :: 0 <= k < n ==>
      && log[k].Entry? && !IsLast(last, log[k].commit.hash)
      && var c := log[k].commit;
        !signed(c.hash) || c.date > now || (last.Some? && c.date < last.value.date)
  }

  /** The commit number `n` is not the last finished one, and there is no reason not to take it. */
  predicate IsAcceptableAt(signed: string -> bool, last: Option<CommitInfo>, now: int, log: seq<LogItem>, n: nat,
                           c: CommitInfo)
  {
    && n < |log| && log[n] == Entry(c) && !IsLast(last, c.hash)
    && signed(c.hash) && c.date <= now && (last.Some? ==> last.value.date <= c.date)
  }

  /** The search looks into the log. */
  predicate IsSearched(last: Option<CommitInfo>, repo: Repository) {
    repo.head.Some? && !IsLast(last, repo.head.value) && repo.headReadable
  }

  lemma RejectedIsPassedOver(signed: string -> bool, last: Option<CommitInfo>, now: int, log: seq<LogItem>, n: nat)
    requires AreRejected(signed, last, now, log, n)
    ensures forall k :: 0 <= k < n ==> IsPassedOver(signed, last, now, log[k])
  {
  }

  /** The first acceptable commit is the one found, if only rejected ones come before it in the log. */
  lemma FoundIff(signed: string -> bool, last: Option<CommitInfo>, now: int, repo: Repository, c: CommitInfo)
    ensures IsSearchResult(signed, last, now, repo, Found(c)) <==>
      && IsSearched(last, repo)
      && (exists n: nat ::
            AreRejected(signed, last, now, repo.log, n) && IsAcceptableAt(signed, last, now, repo.log, n, c))
  {
    if n: nat :| AreRejected(signed, last, now, repo.log, n) && IsAcceptableAt(signed, last, now, repo.log, n, c) {
      RejectedIsPassedOver(signed, last, now, repo.log, n);
      assert StopsAt(signed, last, now, repo.log, n) && IsResultAt(signed, last, now, repo.log, n, Found(c));
    }
    if IsSearchResult(signed, last, now, repo, Found(c)) {
      var n: nat :| StopsAt(signed, last, now, repo.log, n) && IsResultAt(signed, last, now, repo.log, n, Found(c));
      assert AreRejected(signed, last, now, repo.log, n) && IsAcceptableAt(signed, last, now, repo.log, n, c);
    }
  }

  /**
   * Nothing new is found when the head is the last finished commit, or only rejected ones come before that or at all.
   */
  lemma NothingNewIff(signed: string -> bool, last: Option<CommitInfo>, now: int, repo: Repository)
    ensures IsSearchResult(signed, last, now, repo, NothingNew) <==>
      || (repo.head.Some? && IsLast(last, repo.head.value))
      || (IsSearched(last, repo) &&
          exists n: nat :: AreRejected(signed, last, now, repo.log, n) && EndsAt(last, repo.log, n))
  {
    if n: nat :| AreRejected(signed, last, now, repo.log, n) && EndsAt(last, repo.log, n) {
      RejectedIsPassedOver(signed, last, now, repo.log, n);
      assert StopsAt(signed, last, now, repo.log, n) && IsResultAt(signed, last, now, repo.log, n, NothingNew);
    }
    if IsSearchResult(signed, last, now, repo, NothingNew) && IsSearched(last, repo) {
      var n: nat :| StopsAt(signed, last, now, repo.log, n) && IsResultAt(signed, last, now, repo.log, n, NothingNew);
      assert AreRejected(signed, last, now, repo.log, n) && EndsAt(last, repo.log, n);
    }
  }

  /** The log ends here, or goes on with the last finished commit. */
  predicate EndsAt(last: Option<CommitInfo>, log: seq<LogItem>, n: nat) {
    n == |log| || (n < |log| && log[n].Entry? && IsLast(last, log[n].commit.hash))
  }

  /** The search fails without a head, when that cannot be read, or with the log after rejected commits only. */
  lemma FailedIff(signed: string -> bool, last: Option<CommitInfo>, now: int, repo: Repository)
    ensures IsSearchResult(signed, last, now, repo, Failed) <==>
      || repo.head.None?
      || (!IsLast(last, repo.head.value) && !repo.headReadable)
      || (IsSearched(last, repo) &&
          exists n: nat :: AreRejected(signed, last, now, repo.log, n) && BreaksAt(repo.log, n))
  {
    if n: nat :| AreRejected(signed, last, now, repo.log, n) && BreaksAt(repo.log, n) {
      RejectedIsPassedOver(signed, last, now, repo.log, n);
      assert StopsAt(signed, last, now, repo.log, n) && IsResultAt(signed, last, now, repo.log, n, Failed);
    }
    if IsSearchResult(signed, last, now, repo, Failed) && IsSearched(last, repo) {
      var n: nat :| StopsAt(signed, last, now, repo.log, n) && IsResultAt(signed, last, now, repo.log, n, Failed);
      assert AreRejected(signed, last, now, repo.log, n) && BreaksAt(repo.log, n);
    }
  }

  predicate BreaksAt(log: seq<LogItem>, n: nat) {
    n < |log| && log[n].IterationError?
  }
}
