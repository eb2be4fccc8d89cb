/**
 * The periodic task as a system of interleaved atomic steps: any number of calls race for the guard, and the one
 * that wins reads the record of the last finished commit and hands it to a worker.
 */
module Periodic {
  import opened Wrappers
  import opened CommitSearch

  const SECOND := 1_000_000_000

  /** What does not change: the poll period, and how the signature check of a hash comes out at each time. */
  datatype Setting = Setting(period: int, signed: (int, string) -> bool)

  /** Where a call, or the worker it spawned, has got to. */
  datatype Pc =
    | Called                                                              // before the compare-and-swap
    | Returned
    | Acquired                                                            // the guard is taken, the record not yet read
    | Stranded                                                            // the read failed; the guard stays taken
    | Spawned(last: Option<CommitInfo>)                                   // the worker has not read its configuration
    | Configured(last: Option<CommitInfo>)                                // before the interval check
    | Exceeded(last: Option<CommitInfo>)                                  // before the clock is read for the time stamp
    | Stamping(last: Option<CommitInfo>, time: int)                       // before the time stamp is stored
    | Stamped(last: Option<CommitInfo>)                                   // before the clone is started
    | Cloning(last: Option<CommitInfo>)
    | Searching(last: Option<CommitInfo>)
    | Processing(last: Option<CommitInfo>, commit: CommitInfo, at: int)
    | Processed(last: Option<CommitInfo>, commit: CommitInfo, at: int)    // before the status is stored
    | Storing(last: Option<CommitInfo>, commit: CommitInfo, at: int)      // before the record is stored
    | Finishing                                                           // before the guard is released

  /** A commit stored as finished, and when it was chosen. */
  datatype Finish = Finish(commit: CommitInfo, at: int)

  /**
   * The shared state. `attempts` are the clock readings stored as time stamps, `clones` the times at which the clones
   * were started, `finished` the records stored.
   */
  datatype Shared = Shared(
    guard: bool,
    record: Option<CommitInfo>,
    lastRun: int,
    now: int,
    attempts: seq<int>,
    clones: seq<int>,
    finished: seq<Finish>)

  datatype System = System(shared: Shared, threads: map<nat, Pc>)

  /** `time.Unix()`: whole seconds, rounded down. */
  function UnixSeconds(t: int): int {
    t / SECOND
  }

  predicate ExceedsInterval(g: Setting, s: Shared) {
    s.now - s.lastRun * SECOND > g.period
  }

  /** The commit may come out of a search of some repository at this time. */
  ghost predicate CanBeFound(g: Setting, last: Option<CommitInfo>, now: int, c: CommitInfo) {
    exists repo: Repository :: IsFoundIn(g, last, now, c, repo)
  }

  ghost predicate IsFoundIn(g: Setting, last: Option<CommitInfo>, now: int, c: CommitInfo, repo: Repository) {
    && (forall k :: 0 <= k < |repo.log| && repo.log[k].Entry? ==> repo.log[k].commit.hash != "")
    && IsSearchResult(hash => g.signed(now, hash), last, now, repo, Found(c))
  }

  /** One atomic step of one thread. Every storage access, clone, search and processing may also fail. */
  ghost predicate Moves(g: Setting, s: Shared, pc: Pc, s': Shared, pc': Pc) {
    match pc
    case Called => if s.guard then s' == s && pc' == Returned else s' == s.(guard := true) && pc' == Acquired
    case Returned => false
    case Acquired => s' == s && (pc' == Stranded || pc' == Spawned(s.record))
    case Stranded => false
    case Spawned(last) => s' == s && (pc' == Finishing || pc' == Configured(last))
    case Configured(last) =>
      s' == s && (pc' == Finishing || (ExceedsInterval(g, s) && pc' == Exceeded(last)))
    case Exceeded(last) => s' == s && pc' == Stamping(last, s.now)
    case Stamping(last, time) =>
      || (s' == s && pc' == Finishing)
      || (s' == s.(lastRun := UnixSeconds(time), attempts := s.attempts + [time]) && pc' == Stamped(last))
    case Stamped(last) => s' == s.(clones := s.clones + [s.now]) && pc' == Cloning(last)
    case Cloning(last) => s' == s && (pc' == Finishing || pc' == Searching(last))
    case Searching(last) =>
      s' == s &&
      (pc' == Finishing || exists c :: CanBeFound(g, last, s.now, c) && pc' == Processing(last, c, s.now))
    case Processing(last, c, at) => s' == s && (pc' == Finishing || pc' == Processed(last, c, at))
    case Processed(last, c, at) => s' == s && (pc' == Finishing || pc' == Storing(last, c, at))
    case Storing(last, c, at) =>
      || (s' == s && pc' == Finishing)
      || (s' == s.(record := Some(c), finished := s.finished + [Finish(c, at)]) && pc' == Finishing)
    case Finishing => s' == s.(guard := false) && pc' == Returned
  }

  /** A new call, a step of a thread, or time going by. */
  ghost predicate Next(g: Setting, s: System, s': System) {
    || (exists t: nat :: t !in s.threads && s' == s.(threads := s.threads[t := Called]))
    || (exists t: nat :: t in s.threads && StepOf(g, s, s', t))
    || (exists now: int :: now >= s.shared.now && s' == s.(shared := s.shared.(now := now)))
  }

  ghost predicate StepOf(g: Setting, s: System, s': System, t: nat)
    requires t in s.threads
  {
    && t in s'.threads && s'.threads == s.threads[t := s'.threads[t]]
    && Moves(g, s.shared, s.threads[t], s'.shared, s'.threads[t])
  }

  ghost predicate Init(s: System) {
    s.threads == map[] && !s.shared.guard && s.shared.attempts == [] && s.shared.clones == [] && s.shared.finished == []
  }

  /** A run of the system: any finite sequence of steps from an initial state. */
  ghost predicate IsRun(g: Setting, run: seq<System>) {
    && run != [] && Init(run[0])
    && forall k :: 0 < k < |run| ==> Next(g, run[k - 1], run[k])
  }

  // ---------------------------------------------------------------- invariant

  predicate HoldsGuard(pc: Pc) {
    !pc.Called? && !pc.Returned?
  }

  /** A worker that has not yet stored its result. */
  predicate HasSnapshot(pc: Pc) {
    HoldsGuard(pc) && !pc.Acquired? && !pc.Stranded? && !pc.Finishing?
  }

  predicate HasChosen(pc: Pc) {
    pc.Processing? || pc.Processed? || pc.Storing?
  }

  ghost predicate MutualExclusion(s: System) {
    && (forall t, u :: t in s.threads && u in s.threads && HoldsGuard(s.threads[t]) && HoldsGuard(s.threads[u]) ==>
      t == u)
    && (s.shared.guard <==> exists t :: t in s.threads && HoldsGuard(s.threads[t]))
  }

  /** The commit meets the threshold, is not from the future, and is news with respect to the record. */
  predicate IsNews(g: Setting, last: Option<CommitInfo>, c: CommitInfo, at: int) {
    && g.signed(at, c.hash) && c.date <= at && c.hash != ""
    && (last.Some? ==> c.date >= last.value.date && c.hash != last.value.hash)
  }

  /** What one thread knows about the shared state. */
  ghost predicate ThreadIsRight(g: Setting, s: Shared, pc: Pc) {
    && (HasSnapshot(pc) ==> pc.last == s.record)
    && (HasChosen(pc) ==> IsNews(g, s.record, pc.commit, pc.at) && pc.at <= s.now)
    && (pc.Exceeded? ==> ExceedsInterval(g, s))
    && (pc.Stamping? ==> pc.time - s.lastRun * SECOND > g.period && pc.time <= s.now)
    && (pc.Stamping? ==> forall k :: 0 <= k < |s.clones| ==> s.clones[k] <= pc.time)
    && (HoldsGuard(pc) ==> |s.attempts| == |s.clones| + if pc.Stamped? then 1 else 0)
  }

  predicate IsNewsAt(g: Setting, initial: Option<CommitInfo>, finished: seq<Finish>, k: nat)
    requires k < |finished|
  {
    IsNews(g, if k == 0 then initial else Some(finished[k - 1].commit), finished[k].commit, finished[k].at)
  }

  /** The records stored so far, each news with respect to the one before; the first with respect to `initial`. */
  ghost predicate IsProgress(g: Setting, initial: Option<CommitInfo>, finished: seq<Finish>) {
    forall k :: 0 <= k < |finished| ==> IsNewsAt(g, initial, finished, k)
  }

  function Latest(initial: Option<CommitInfo>, finished: seq<Finish>): Option<CommitInfo> {
    if finished == [] then initial else Some(finished[|finished| - 1].commit)
  }

  /** Of the second to which a time stamp is rounded down, at least one nanosecond is never lost. */
  function LeastGap(g: Setting): int {
    g.period - SECOND + 2
  }

  ghost predicate AreSpaced(g: Setting, attempts: seq<int>) {
    forall k :: 0 < k < |attempts| ==> attempts[k] - attempts[k - 1] >= LeastGap(g)
  }

  /**
   * Each clone is started after its own time stamp was read and before the next one is, and without a worker there is
   * none to come.
   */
  ghost predicate ClonesFollow(s: Shared) {
    && |s.clones| <= |s.attempts| && (!s.guard ==> |s.clones| == |s.attempts|)
    && (forall k :: 0 <= k < |s.clones| ==> s.attempts[k] <= s.clones[k] <= s.now)
    && (forall k :: 0 < k < |s.attempts| ==> k - 1 < |s.clones| && s.clones[k - 1] <= s.attempts[k])
    && (forall k :: 0 <= k < |s.attempts| ==> s.attempts[k] <= s.now)
  }

  /** The records stored, and the time stamps. */
  ghost predicate HistoryIsRight(g: Setting, initial: Option<CommitInfo>, s: Shared) {
    && s.record == Latest(initial, s.finished) && IsProgress(g, initial, s.finished)
    && AreSpaced(g, s.attempts)
    && (s.attempts != [] ==> s.lastRun == UnixSeconds(s.attempts[|s.attempts| - 1]))
  }

  ghost predicate Invariant(g: Setting, initial: Option<CommitInfo>, s: System) {
    && MutualExclusion(s)
    && (forall t :: t in s.threads ==> ThreadIsRight(g, s.shared, s.threads[t]))
    && HistoryIsRight(g, initial, s.shared) && ClonesFollow(s.shared)
  }

  lemma FoundIsNews(g: Setting, last: Option<CommitInfo>, now: int, c: CommitInfo)
    requires CanBeFound(g, last, now, c)
    ensures IsNews(g, last, c, now)
  {
    var repo: Repository :| IsFoundIn(g, last, now, c, repo);
    FoundCommitIsNews(hash => g.signed(now, hash), last, now, repo, c);
  }

  /** A step keeps what its own thread knows. */
  lemma MoveKeepsOwn(g: Setting, s: Shared, pc: Pc, s': Shared, pc': Pc)
    requires Moves(g, s, pc, s', pc') && ThreadIsRight(g, s, pc) && ClonesFollow(s)
    requires HoldsGuard(pc) ==> s.guard
    ensures ThreadIsRight(g, s', pc') && ClonesFollow(s')
  {
    if pc.Searching? && pc'.Processing? {
      FoundIsNews(g, pc.last, s.now, pc'.commit);
    }
  }

  /** Threads without the guard change nothing but the guard; only the holder changes anything else. */
  lemma OnlyHolderWrites(g: Setting, s: Shared, pc: Pc, s': Shared, pc': Pc)
    requires Moves(g, s, pc, s', pc')
    ensures !HoldsGuard(pc) ==> s' == s.(guard := s'.guard)
    ensures s'.now == s.now
    ensures HoldsGuard(pc') ==> s'.guard == if HoldsGuard(pc) then s.guard else true
    ensures !HoldsGuard(pc) && HoldsGuard(pc') ==> !s.guard
    ensures HoldsGuard(pc) && !HoldsGuard(pc') ==> !s'.guard
    ensures !HoldsGuard(pc) && !HoldsGuard(pc') ==> s'.guard == s.guard
  {
  }

  lemma StepKeepsExclusion(g: Setting, s: System, s': System, t: nat)
    requires MutualExclusion(s) && t in s.threads && StepOf(g, s, s', t)
    ensures MutualExclusion(s')
  {
    OnlyHolderWrites(g, s.shared, s.threads[t], s'.shared, s'.threads[t]);
    forall u | u in s'.threads && u != t ensures u in s.threads && s'.threads[u] == s.threads[u] {
    }
    if s'.shared.guard && !HoldsGuard(s'.threads[t]) {
      var u :| u in s.threads && HoldsGuard(s.threads[u]);
      assert u in s'.threads && s'.threads[u] == s.threads[u];
    }
  }

  lemma OnlyGuardChanged(g: Setting, s: Shared, s': Shared, pc: Pc)
    requires ThreadIsRight(g, s, pc) && s' == s.(guard := s'.guard)
    ensures ThreadIsRight(g, s', pc)
  {
  }

  lemma IdleIsRight(g: Setting, s: Shared, pc: Pc)
    requires !HoldsGuard(pc)
    ensures ThreadIsRight(g, s, pc)
  {
  }

  lemma StepKeepsThreads(g: Setting, initial: Option<CommitInfo>, s: System, s': System, t: nat)
    requires Invariant(g, initial, s) && t in s.threads && StepOf(g, s, s', t)
    ensures ClonesFollow(s'.shared) && forall u :: u in s'.threads ==> ThreadIsRight(g, s'.shared, s'.threads[u])
  {
    hide ThreadIsRight, Moves, ClonesFollow, IsProgress, AreSpaced;
    OnlyHolderWrites(g, s.shared, s.threads[t], s'.shared, s'.threads[t]);
    MoveKeepsOwn(g, s.shared, s.threads[t], s'.shared, s'.threads[t]);
    forall u | u in s'.threads && u != t ensures ThreadIsRight(g, s'.shared, s'.threads[u]) {
      if HoldsGuard(s.threads[t]) {
        IdleIsRight(g, s'.shared, s'.threads[u]);
      } else {
        OnlyGuardChanged(g, s.shared, s'.shared, s'.threads[u]);
      }
    }
  }

  lemma OtherMovesKeepHistory(g: Setting, s: Shared, pc: Pc, s': Shared, pc': Pc)
    requires Moves(g, s, pc, s', pc') && !pc.Storing? && !pc.Stamping?
    ensures s'.record == s.record && s'.finished == s.finished && s'.attempts == s.attempts && s'.lastRun == s.lastRun
  {
  }

  lemma StampKeepsHistory(g: Setting, initial: Option<CommitInfo>, s: Shared, pc: Pc, s': Shared, pc': Pc)
    requires Moves(g, s, pc, s', pc') && pc.Stamping? && ThreadIsRight(g, s, pc) && HistoryIsRight(g, initial, s)
    ensures HistoryIsRight(g, initial, s')
  {
    hide IsProgress;
    if s'.attempts != s.attempts {
      SpacingExtends(g, s.attempts, s.lastRun, pc.time);
    }
  }

  lemma SpacingExtends(g: Setting, attempts: seq<int>, lastRun: int, time: int)
    requires AreSpaced(g, attempts) && (attempts != [] ==> lastRun == UnixSeconds(attempts[|attempts| - 1]))
    requires time - lastRun * SECOND > g.period
    ensures AreSpaced(g, attempts + [time])
  {
  }

  lemma StoreKeepsHistory(g: Setting, initial: Option<CommitInfo>, s: Shared, pc: Pc, s': Shared, pc': Pc)
    requires Moves(g, s, pc, s', pc') && pc.Storing? && ThreadIsRight(g, s, pc) && HistoryIsRight(g, initial, s)
    ensures HistoryIsRight(g, initial, s')
  {
    hide IsProgress, AreSpaced;
    ProgressExtends(g, initial, s.finished, Finish(pc.commit, pc.at));
  }

  lemma StepKeepsHistory(g: Setting, initial: Option<CommitInfo>, s: System, s': System, t: nat)
    requires Invariant(g, initial, s) && t in s.threads && StepOf(g, s, s', t)
    ensures HistoryIsRight(g, initial, s'.shared)
  {
    hide Moves, ThreadIsRight, IsProgress, AreSpaced, ClonesFollow, MutualExclusion;
    var pc, pc' := s.threads[t], s'.threads[t];
    if pc.Storing? {
      StoreKeepsHistory(g, initial, s.shared, pc, s'.shared, pc');
    } else if pc.Stamping? {
      StampKeepsHistory(g, initial, s.shared, pc, s'.shared, pc');
    } else {
      OtherMovesKeepHistory(g, s.shared, pc, s'.shared, pc');
    }
  }

  lemma ProgressExtends(g: Setting, initial: Option<CommitInfo>, finished: seq<Finish>, next: Finish)
    requires IsProgress(g, initial, finished) && IsNews(g, Latest(initial, finished), next.commit, next.at)
    ensures IsProgress(g, initial, finished + [next])
  {
    forall k | 0 <= k < |finished| + 1 ensures IsNewsAt(g, initial, finished + [next], k) {
      if k < |finished| {
        assert IsNewsAt(g, initial, finished, k);
      }
    }
  }

  lemma StepKeepsInvariant(g: Setting, initial: Option<CommitInfo>, s: System, s': System, t: nat)
    requires Invariant(g, initial, s) && t in s.threads && StepOf(g, s, s', t)
    ensures Invariant(g, initial, s')
  {
    hide StepOf, ThreadIsRight, IsProgress, AreSpaced, ClonesFollow;
    StepKeepsExclusion(g, s, s', t);
    StepKeepsThreads(g, initial, s, s', t);
    StepKeepsHistory(g, initial, s, s', t);
  }

  lemma CallKeepsInvariant(g: Setting, initial: Option<CommitInfo>, s: System, s': System, t: nat)
    requires Invariant(g, initial, s) && t !in s.threads && s' == s.(threads := s.threads[t := Called])
    ensures Invariant(g, initial, s')
  {
    forall u | u in s.threads ensures u in s'.threads && s'.threads[u] == s.threads[u] {
    }
  }

  lemma TimeKeepsInvariant(g: Setting, initial: Option<CommitInfo>, s: System, s': System, now: int)
    requires Invariant(g, initial, s) && now >= s.shared.now && s' == s.(shared := s.shared.(now := now))
    ensures Invariant(g, initial, s')
  {
    forall t | t in s'.threads ensures ThreadIsRight(g, s'.shared, s'.threads[t]) {
      assert ThreadIsRight(g, s.shared, s.threads[t]);
    }
  }

  lemma NextKeepsInvariant(g: Setting, initial: Option<CommitInfo>, s: System, s': System)
    requires Invariant(g, initial, s) && Next(g, s, s')
    ensures Invariant(g, initial, s')
  {
    hide StepOf, Invariant;
    if t: nat :| t in s.threads && StepOf(g, s, s', t) {
      StepKeepsInvariant(g, initial, s, s', t);
    } else if t: nat :| t !in s.threads && s' == s.(threads := s.threads[t := Called]) {
      CallKeepsInvariant(g, initial, s, s', t);
    } else {
      var now: int :| now >= s.shared.now && s' == s.(shared := s.shared.(now := now));
      TimeKeepsInvariant(g, initial, s, s', now);
    }
  }

  lemma {:induction false} RunKeepsInvariant(g: Setting, run: seq<System>, k: nat)
    requires IsRun(g, run) && k < |run|
    ensures Invariant(g, run[0].shared.record, run[k])
  {
    if k > 0 {
      RunKeepsInvariant(g, run, k - 1);
      NextKeepsInvariant(g, run[0].shared.record, run[k - 1], run[k]);
    }
  }

  // ---------------------------------------------------------------- main results

  /**
   * At any time at most one thread holds the guard, and a worker still has the record it was handed as the stored one.
   */
  lemma OneWorkerNoLostUpdate(g: Setting, run: seq<System>, k: nat, t: nat, u: nat)
    requires IsRun(g, run) && k < |run| && t in run[k].threads && u in run[k].threads
    ensures HoldsGuard(run[k].threads[t]) && HoldsGuard(run[k].threads[u]) ==> t == u
    ensures HoldsGuard(run[k].threads[t]) ==> run[k].shared.guard
    ensures HasSnapshot(run[k].threads[t]) ==> run[k].threads[t].last == run[k].shared.record
  {
    RunKeepsInvariant(g, run, k);
    assert ThreadIsRight(g, run[k].shared, run[k].threads[t]);
  }

  /**
   * The stored record is always the latest commit finished. Their dates never decrease, each has a hash different from
   * the one before, and each met the threshold and was not from the future when it was chosen.
   */
  lemma RecordProgresses(g: Setting, run: seq<System>, k: nat, j: nat)
    requires IsRun(g, run) && k < |run| && j < |run[k].shared.finished|
    ensures var done := run[k].shared.finished;
      && run[k].shared.record == Some(done[|done| - 1].commit)
      && g.signed(done[j].at, done[j].commit.hash) && done[j].commit.date <= done[j].at
      && (forall i :: 0 <= i <= j ==> done[i].commit.date <= done[j].commit.date)
      && (j > 0 ==> done[j].commit.hash != done[j - 1].commit.hash)
      && (run[0].shared.record.Some? ==> run[0].shared.record.value.date <= done[j].commit.date)
  {
    RunKeepsInvariant(g, run, k);
    var done := run[k].shared.finished;
    assert IsNewsAt(g, run[0].shared.record, done, j);
    DatesAscend(g, run[0].shared.record, done, j);
  }

  lemma {:induction false} DatesAscend(g: Setting, initial: Option<CommitInfo>, finished: seq<Finish>, j: nat)
    requires IsProgress(g, initial, finished) && j < |finished|
    ensures forall i :: 0 <= i <= j ==> finished[i].commit.date <= finished[j].commit.date
    ensures initial.Some? ==> initial.value.date <= finished[j].commit.date
  {
    assert IsNewsAt(g, initial, finished, j);
    if j > 0 {
      DatesAscend(g, initial, finished, j - 1);
    }
  }

  /**
   * The record changes only when a worker that has processed a commit stores that commit; a failure leaves it alone.
   */
  lemma RecordChangesOnlyByStoring(g: Setting, run: seq<System>, k: nat)
    requires IsRun(g, run) && 0 < k < |run| && run[k].shared.record != run[k - 1].shared.record
    ensures var before, after := run[k - 1], run[k];
      exists t :: t in before.threads && before.threads[t].Storing? &&
        after.shared.record == Some(before.threads[t].commit)
  {
    assert Next(g, run[k - 1], run[k]);
    var t: nat :| t in run[k - 1].threads && StepOf(g, run[k - 1], run[k], t);
    assert run[k - 1].threads[t].Storing?;
  }

  /**
   * The clock readings of two successive attempts are more than the poll period less one second apart, by at least two
   * nanoseconds more.
   */
  lemma PollSpacing(g: Setting, run: seq<System>, k: nat, j: nat)
    requires IsRun(g, run) && k < |run| && 0 < j < |run[k].shared.attempts|
    ensures run[k].shared.attempts[j] - run[k].shared.attempts[j - 1] >= LeastGap(g)
  {
    RunKeepsInvariant(g, run, k);
  }

  /** The time that passed between reading the clock and starting the clone. */
  function Delay(s: Shared, j: nat): int
    requires j < |s.clones| && j < |s.attempts|
  {
    s.clones[j] - s.attempts[j]
  }

  /** The least distance of two clones, the earlier started with delay `d` and the later with delay `e`. */
  function LeastCloneGap(g: Setting, d: nat, e: nat): int {
    (if LeastGap(g) > d then LeastGap(g) else d) + e - d
  }

  /**
   * The clones themselves: a clone is started before the clock is read for the next, so it never comes after that one,
   * and their distance is bounded by the delays.
   */
  lemma CloneSpacing(g: Setting, run: seq<System>, k: nat, j: nat)
    requires IsRun(g, run) && k < |run| && 0 < j < |run[k].shared.clones|
    ensures var s := run[k].shared;
      && |s.clones| <= |s.attempts| && Delay(s, j - 1) >= 0 && Delay(s, j) >= 0
      && s.clones[j - 1] <= s.attempts[j] <= s.clones[j]
      && s.clones[j] - s.clones[j - 1] >= LeastCloneGap(g, Delay(s, j - 1), Delay(s, j))
  {
    RunKeepsInvariant(g, run, k);
  }

  /** Once the read of the record has failed, the guard stays taken and nothing is attempted or stored ever again. */
  lemma {:induction false} StrandedForever(g: Setting, run: seq<System>, k: nat, m: nat, t: nat)
    requires IsRun(g, run) && k <= m < |run| && t in run[k].threads && run[k].threads[t].Stranded?
    ensures t in run[m].threads && run[m].threads[t].Stranded?
    ensures run[m].shared == run[k].shared.(now := run[m].shared.now) && run[m].shared.guard
    ensures forall u :: u in run[m].threads && u != t ==> !HoldsGuard(run[m].threads[u])
  {
    hide Next, ThreadIsRight, HistoryIsRight, ClonesFollow;
    RunKeepsInvariant(g, run, m);
    assert t in run[k].threads && HoldsGuard(run[k].threads[t]);
    if m > k {
      StrandedForever(g, run, k, m - 1, t);
      StrandedStep(g, run[m - 1], run[m], t);
    }
  }

  lemma StrandedStep(g: Setting, s: System, s': System, t: nat)
    requires Next(g, s, s') && t in s.threads && s.threads[t].Stranded? && s.shared.guard
    requires forall u :: u in s.threads && u != t ==> !HoldsGuard(s.threads[u])
    ensures t in s'.threads && s'.threads[t].Stranded? && s'.shared == s.shared.(now := s'.shared.now)
  {
    if u: nat :| u in s.threads && StepOf(g, s, s', u) {
      assert u != t && !HoldsGuard(s.threads[u]);
    }
  }
}
