/** Runs of the periodic task that exist: how the guard is released or lost, and how close two clones can get. */
module Continuations {
  import opened Wrappers
  import opened CommitSearch
  import opened Periodic

  function Last(run: seq<System>): System
    requires run != []
  {
    run[|run| - 1]
  }

  function After(s: System, t: nat, shared: Shared, pc: Pc): System {
    System(shared, s.threads[t := pc])
  }

  lemma Extend(g: Setting, run: seq<System>, s': System)
    requires run != [] && IsRun(g, run) && Next(g, Last(run), s')
    ensures IsRun(g, run + [s'])
  {
    hide Next;
    var longer := run + [s'];
    forall k | 0 < k < |longer| ensures Next(g, longer[k - 1], longer[k]) {
      assert k < |run| ==> longer[k - 1] == run[k - 1] && longer[k] == run[k];
    }
  }

  lemma Step(g: Setting, run: seq<System>, t: nat, shared: Shared, pc: Pc) returns (longer: seq<System>)
    requires run != [] && IsRun(g, run) && t in Last(run).threads &&
      Moves(g, Last(run).shared, Last(run).threads[t], shared, pc)
    ensures longer == run + [After(Last(run), t, shared, pc)] && IsRun(g, longer)
  {
    hide Moves, IsRun;
    var s := Last(run);
    assert StepOf(g, s, After(s, t, shared, pc), t);
    Extend(g, run, After(s, t, shared, pc));
    longer := run + [After(s, t, shared, pc)];
  }

  /** A new call. */
  lemma Call(g: Setting, run: seq<System>, t: nat) returns (longer: seq<System>)
    requires run != [] && IsRun(g, run) && t !in Last(run).threads
    ensures longer == run + [After(Last(run), t, Last(run).shared, Called)] && IsRun(g, longer)
  {
    hide IsRun;
    var s := Last(run);
    assert After(s, t, s.shared, Called) == s.(threads := s.threads[t := Called]);
    Extend(g, run, After(s, t, s.shared, Called));
    longer := run + [After(s, t, s.shared, Called)];
  }

  lemma Wait(g: Setting, run: seq<System>, now: int) returns (longer: seq<System>)
    requires run != [] && IsRun(g, run) && now >= Last(run).shared.now
    ensures longer == run + [Last(run).(shared := Last(run).shared.(now := now))] && IsRun(g, longer)
  {
    hide IsRun;
    var s := Last(run);
    Extend(g, run, s.(shared := s.shared.(now := now)));
    longer := run + [s.(shared := s.shared.(now := now))];
  }

  // ---------------------------------------------------------------- releasing the guard

  /**
   * A worker that does not get on with its work but ends it; one that has read the clock still stores the time stamp,
   * or fails to.
   */
  function OnTheWayOut(s: Shared, pc: Pc): (Shared, Pc) {
    match pc
    case Called => (s, Returned)
    case Returned => (s, Returned)
    case Acquired => (s, Spawned(s.record))
    case Stranded => (s, Stranded)
    case Exceeded(last) => (s, Stamping(last, s.now))
    case Stamped(last) => (s.(clones := s.clones + [s.now]), Cloning(last))
    case Finishing => (s.(guard := false), Returned)
    case _ => (s, Finishing)
  }

  function StepsLeft(pc: Pc): nat {
    match pc
    case Acquired => 3
    case Exceeded(_) => 3
    case Stamped(_) => 3
    case Finishing => 1
    case _ => 2
  }

  lemma WayOut(g: Setting, s: Shared, pc: Pc)
    requires HoldsGuard(pc) && !pc.Stranded?
    ensures var (s', pc') := OnTheWayOut(s, pc);
      && Moves(g, s, pc, s', pc')
      && (if pc.Finishing? then !s'.guard else HoldsGuard(pc') && !pc'.Stranded? && StepsLeft(pc') < StepsLeft(pc))
  {
  }

  /** Whoever holds the guard, unless stranded, can still release it. */
  lemma {:induction false} GuardCanBeReleased(g: Setting, run: seq<System>, t: nat) returns (more: seq<System>)
    requires run != [] && IsRun(g, run) && t in Last(run).threads
    requires HoldsGuard(Last(run).threads[t]) && !Last(run).threads[t].Stranded?
    ensures more != [] && IsRun(g, run + more) && !Last(more).shared.guard
    decreases StepsLeft(Last(run).threads[t])
  {
    hide Moves, IsRun;
    var s := Last(run);
    WayOut(g, s.shared, s.threads[t]);
    var (shared, pc) := OnTheWayOut(s.shared, s.threads[t]);
    var longer := Step(g, run, t, shared, pc);
    more := [After(s, t, shared, pc)];
    if !s.threads[t].Finishing? {
      var rest := GuardCanBeReleased(g, longer, t);
      assert run + (more + rest) == longer + rest;
      more := more + rest;
    }
  }

  predicate IsStranded(s: System, t: nat) {
    t in s.threads && s.threads[t].Stranded?
  }

  /** Exactly when a taken guard can be released: as long as no call was stranded by a failed read of the record. */
  lemma ReleasableIff(g: Setting, run: seq<System>)
    requires run != [] && IsRun(g, run) && Last(run).shared.guard
    ensures (exists more: seq<System> :: more != [] && IsRun(g, run + more) && !Last(more).shared.guard) <==>
            !exists t :: IsStranded(Last(run), t)
  {
    hide IsRun;
    var s := Last(run);
    GuardHasHolder(g, run, |run| - 1);
    if t :| IsStranded(s, t) {
      forall more: seq<System> | more != [] && IsRun(g, run + more) ensures Last(more).shared.guard {
        assert (run + more)[|run| - 1] == s && (run + more)[|run| + |more| - 1] == Last(more);
        StrandedForever(g, run + more, |run| - 1, |run| + |more| - 1, t);
      }
    } else {
      var t: nat :| t in s.threads && HoldsGuard(s.threads[t]);
      assert !IsStranded(s, t);
      var more := GuardCanBeReleased(g, run, t);
    }
  }

  lemma GuardHasHolder(g: Setting, run: seq<System>, k: nat)
    requires IsRun(g, run) && k < |run|
    ensures run[k].shared.guard <==> exists t :: t in run[k].threads && HoldsGuard(run[k].threads[t])
  {
    RunKeepsInvariant(g, run, k);
  }

  /** With nobody at work, the guard is taken exactly when a call was stranded. */
  lemma IdleGuardIff(g: Setting, run: seq<System>, k: nat)
    requires IsRun(g, run) && k < |run|
    requires forall t :: t in run[k].threads ==>
      run[k].threads[t].Called? || run[k].threads[t].Returned? || run[k].threads[t].Stranded?
    ensures run[k].shared.guard <==> exists t :: IsStranded(run[k], t)
  {
    hide IsRun;
    GuardHasHolder(g, run, k);
    if t :| IsStranded(run[k], t) {
      assert HoldsGuard(run[k].threads[t]);
    }
    if run[k].shared.guard {
      var t: nat :| t in run[k].threads && HoldsGuard(run[k].threads[t]);
      assert IsStranded(run[k], t);
    }
  }

  /** It does happen: a call takes the guard, and its read of the record fails. */
  lemma StrandedIsReachable(g: Setting, initial: System) returns (run: seq<System>)
    requires Init(initial)
    ensures IsRun(g, run) && run[0] == initial && IsStranded(Last(run), 0) && Last(run).shared.guard
  {
    run := [initial];
    run := Call(g, run, 0);
    run := Step(g, run, 0, initial.shared.(guard := true), Acquired);
    run := Step(g, run, 0, initial.shared.(guard := true), Stranded);
  }

  // ---------------------------------------------------------------- how close two clones can get

  /** The shared state after a worker that read the clock, waited, cloned and found nothing. */
  function AfterAttempt(s: Shared, delay: nat): Shared {
    s.(lastRun := UnixSeconds(s.now), attempts := s.attempts + [s.now], clones := s.clones + [s.now + delay],
      now := s.now + delay)
  }

  lemma Attempt(g: Setting, run: seq<System>, t: nat, delay: nat) returns (longer: seq<System>)
    requires run != [] && IsRun(g, run) && t !in Last(run).threads && !Last(run).shared.guard &&
      ExceedsInterval(g, Last(run).shared)
    ensures IsRun(g, longer) && run <= longer
    ensures Last(longer) == After(Last(run), t, AfterAttempt(Last(run).shared, delay), Returned)
  {
    hide IsRun;
    longer := UpToTheStamp(g, run, t);
    var was := Last(run).shared;
    var stamped := was.(guard := true, lastRun := UnixSeconds(was.now), attempts := was.attempts + [was.now]);
    longer := Wait(g, longer, was.now + delay);
    var cloned := stamped.(now := was.now + delay, clones := was.clones + [was.now + delay]);
    longer := Step(g, longer, t, cloned, Cloning(was.record));
    longer := Step(g, longer, t, cloned, Finishing);
    longer := Step(g, longer, t, cloned.(guard := false), Returned);
  }

  lemma UpToTheStamp(g: Setting, run: seq<System>, t: nat) returns (longer: seq<System>)
    requires run != [] && IsRun(g, run) && t !in Last(run).threads && !Last(run).shared.guard &&
      ExceedsInterval(g, Last(run).shared)
    ensures IsRun(g, longer) && run <= longer
    ensures var was := Last(run).shared;
      var stamped := was.(guard := true, lastRun := UnixSeconds(was.now), attempts := was.attempts + [was.now]);
      Last(longer) == After(Last(run), t, stamped, Stamped(was.record))
  {
    hide IsRun;
    var was := Last(run).shared;
    var held := was.(guard := true);
    longer := Call(g, run, t);
    longer := Step(g, longer, t, held, Acquired);
    longer := Step(g, longer, t, held, Spawned(was.record));
    longer := Step(g, longer, t, held, Configured(was.record));
    longer := Step(g, longer, t, held, Exceeded(was.record));
    longer := Step(g, longer, t, held, Stamping(was.record, was.now));
    longer := Step(g, longer, t, held.(lastRun := UnixSeconds(was.now), attempts := was.attempts + [was.now]),
      Stamped(was.record));
  }

  lemma First(g: Setting, initial: System) returns (run: seq<System>)
    requires Init(initial)
    ensures run == [initial] && IsRun(g, run)
  {
    run := [initial];
  }

  /** A number of seconds longer than the period. */
  function SecondsBeyond(period: int): (seconds: nat)
    ensures seconds * SECOND > period
  {
    if period < 0 then 1 else period + 1
  }

  /** Two clones, started with these delays, as close as the time stamps allow. */
  ghost predicate HasGap(s: Shared, d: nat, e: nat, gap: int) {
    && |s.clones| == |s.attempts| == 2
    && Delay(s, 0) == d && Delay(s, 1) == e && s.clones[1] - s.clones[0] == gap
  }

  /** Just before the clock shows a full second, the most is lost; and the second attempt follows at once. */
  lemma CloseClones(g: Setting, d: nat, e: nat) returns (run: seq<System>)
    ensures run != [] && IsRun(g, run) && HasGap(Last(run).shared, d, e, LeastCloneGap(g, d, e))
  {
    hide IsRun;
    var seconds := SecondsBeyond(g.period);
    var early := seconds * SECOND + (SECOND - 1);
    assert UnixSeconds(early) == seconds;
    run := First(g, System(Shared(false, None, 0, early, [], [], []), map[]));
    run := Attempt(g, run, 0, d);
    run := Wait(g, run, early + if LeastGap(g) > d then LeastGap(g) else d);
    run := Attempt(g, run, 1, e);
  }

  /** The clones that a run starts with these delays are more than so far apart. */
  ghost predicate KeepsApart(g: Setting, run: seq<System>, d: nat, e: nat, distance: int) {
    forall k: nat, j: nat ::
      k < |run| && 0 < j < |run[k].shared.clones| <= |run[k].shared.attempts| &&
      Delay(run[k].shared, j - 1) == d && Delay(run[k].shared, j) == e ==>
        run[k].shared.clones[j] - run[k].shared.clones[j - 1] > distance
  }

  /** For given delays, this is exactly the distance that all runs keep. */
  lemma ClonesKeepApartIff(g: Setting, d: nat, e: nat, distance: int)
    ensures (forall run: seq<System> :: IsRun(g, run) ==> KeepsApart(g, run, d, e, distance)) <==>
            LeastCloneGap(g, d, e) > distance
  {
    hide IsRun;
    if LeastCloneGap(g, d, e) > distance {
      forall run: seq<System> | IsRun(g, run) ensures KeepsApart(g, run, d, e, distance) {
        forall k: nat, j: nat |
          k < |run| && 0 < j < |run[k].shared.clones| <= |run[k].shared.attempts| &&
          Delay(run[k].shared, j - 1) == d && Delay(run[k].shared, j) == e
          ensures run[k].shared.clones[j] - run[k].shared.clones[j - 1] > distance
        {
          CloneSpacing(g, run, k, j);
        }
      }
    } else {
      var run := CloseClones(g, d, e);
      var k, s := |run| - 1, Last(run).shared;
      assert run[k].shared == s && Delay(s, 1 - 1) == d && Delay(s, 1) == e;
      assert !(s.clones[1] - s.clones[1 - 1] > distance);
      assert !KeepsApart(g, run, d, e, distance);
    }
  }

  /**
   * Clones are always more than the poll period less one second apart exactly if the earlier one is started no more
   * than a nanosecond later after its time stamp than the later one is, or if that one is started late enough by
   * itself.
   */
  lemma ClonesKeepPeriodIff(g: Setting, d: nat, e: nat)
    ensures (forall run: seq<System> :: IsRun(g, run) ==> KeepsApart(g, run, d, e, g.period - SECOND)) <==>
            d <= e + 1 || e > g.period - SECOND
  {
    ClonesKeepApartIff(g, d, e, g.period - SECOND);
  }

  /** For every period there is a run in which a slow first worker and a prompt second one clone at the same time. */
  lemma ClonesMayCoincide(g: Setting) returns (run: seq<System>)
    ensures IsRun(g, run)
    ensures var s := Last(run).shared; |s.clones| == 2 && s.clones[1] == s.clones[0]
  {
    run := CloseClones(g, if LeastGap(g) > 0 then LeastGap(g) else 0, 0);
  }

  // ---------------------------------------------------------------- storing a commit

  /** Whatever is news can be found: at the head of a repository. */
  lemma NewsCanBeFound(g: Setting, last: Option<CommitInfo>, now: int, c: CommitInfo)
    ensures CanBeFound(g, last, now, c) <==> IsNews(g, last, c, now)
  {
    if CanBeFound(g, last, now, c) {
      FoundIsNews(g, last, now, c);
    }
    if IsNews(g, last, c, now) {
      var repo := Repository(Some(c.hash), true, [Entry(c)]);
      var signed := hash => g.signed(now, hash);
      assert AreRejected(signed, last, now, repo.log, 0) && IsAcceptableAt(signed, last, now, repo.log, 0, c);
      FoundIff(signed, last, now, repo, c);
      assert IsFoundIn(g, last, now, c, repo);
    }
  }

  /** A call that finds the guard free and the poll period over can store any commit that is news to the record. */
  lemma NewsCanBeStored(g: Setting, run: seq<System>, t: nat, c: CommitInfo) returns (longer: seq<System>)
    requires run != [] && IsRun(g, run) && t !in Last(run).threads && !Last(run).shared.guard
    requires ExceedsInterval(g, Last(run).shared) && IsNews(g, Last(run).shared.record, c, Last(run).shared.now)
    ensures IsRun(g, longer) && run <= longer && !Last(longer).shared.guard
    ensures Last(longer).shared.record == Some(c)
    ensures Last(longer).shared.finished == Last(run).shared.finished + [Finish(c, Last(run).shared.now)]
  {
    hide IsRun;
    var was := Last(run).shared;
    longer := UpToTheStamp(g, run, t);
    var cloned := Last(longer).shared.(clones := was.clones + [was.now]);
    longer := Step(g, longer, t, cloned, Cloning(was.record));
    longer := Step(g, longer, t, cloned, Searching(was.record));
    NewsCanBeFound(g, was.record, was.now, c);
    longer := Step(g, longer, t, cloned, Processing(was.record, c, was.now));
    longer := Step(g, longer, t, cloned, Processed(was.record, c, was.now));
    longer := Step(g, longer, t, cloned, Storing(was.record, c, was.now));
    var stored := cloned.(record := Some(c), finished := was.finished + [Finish(c, was.now)]);
    longer := Step(g, longer, t, stored, Finishing);
    longer := Step(g, longer, t, stored.(guard := false), Returned);
  }
}
