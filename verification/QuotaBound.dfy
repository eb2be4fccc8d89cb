/**
 * When the clone quota holds, by what its callers do: how many of them are in flight at a time, and how large a size
 * each declares.
 */
module QuotaBound {
  import opened Quota

  predicate IsInFlight(w: Writer) {
    w.Reserved? || w.Admitted? || w.Refused?
  }

  function InFlightCount(w: Writer): nat {
    if IsInFlight(w) then 1 else 0
  }

  predicate IsWithin(w: Writer, size: nat) {
    w.Rejected? || w.size <= size
  }

  /** At most `writers` calls are in flight, and none declares more than `size`. */
  ghost predicate IsModest(s: System, writers: nat, size: nat) {
    && Sum(InFlightCount, s.writers) <= writers
    && forall i :: 0 <= i < |s.writers| ==> IsWithin(s.writers[i], size)
  }

  ghost predicate AreModest(run: seq<System>, writers: nat, size: nat) {
    forall k :: 0 <= k < |run| ==> IsModest(run[k], writers, size)
  }

  // ---------------------------------------------------------------- enough room

  /** What is held beyond what is cleared is held by calls in flight. */
  lemma {:induction false} HeldIsBounded(limit: int, writers: seq<Writer>, size: nat)
    requires forall i :: 0 <= i < |writers| ==> IsWithin(writers[i], size)
    ensures Sum(Held, writers) <= Sum(ClearedBy(limit), writers) + Sum(InFlightCount, writers) * size
  {
    if writers != [] {
      var w, rest := writers[0], writers[1..];
      HeldIsBounded(limit, rest, size);
      assert Held(w) <= ClearedSize(limit, w) + InFlightCount(w) * size;
      Distributes(InFlightCount(w), Sum(InFlightCount, rest), size);
    }
  }

  lemma Distributes(a: int, b: int, c: int)
    ensures (a + b) * c == a * c + b * c
  {
  }

  lemma Multiplies(a: nat, b: nat, c: nat)
    requires a <= b
    ensures a * c <= b * c
  {
  }

  /** The next state, too, holds no more than fits. */
  lemma NextFits(limit: int, s: System, s': System, writers: nat, size: nat)
    requires Next(limit, s, s') && IsModest(s, writers, size) && IsModest(s', writers, size)
    requires Cleared(limit, s) <= limit
    ensures InFlightOrAccepted(s') <= limit + writers * size
  {
    hide Wrap, Sum, ClearedBy, IsModest;
    HeldNow(limit, s, writers, size);
    if sz: int :| InInt64(sz) && Arrives(s, s', Declared(sz)) {
      ArrivalFits(limit, s, s', Declared(sz), writers, size);
    } else {
      var i: nat :| i < |s.writers| && Moves(limit, s, s', i);
      SumUpdate(Held, s.writers, i, s'.writers[i]);
    }
  }

  lemma HeldNow(limit: int, s: System, writers: nat, size: nat)
    requires IsModest(s, writers, size)
    ensures InFlightOrAccepted(s) <= Cleared(limit, s) + writers * size
  {
    hide Sum, ClearedBy;
    HeldIsBounded(limit, s.writers, size);
    Multiplies(Sum(InFlightCount, s.writers), writers, size);
  }

  lemma ArrivalFits(limit: int, s: System, s': System, added: nat, writers: nat, size: nat)
    requires Arrives(s, s', added) && IsModest(s, writers, size) && IsModest(s', writers, size)
    ensures InFlightOrAccepted(s') <= Cleared(limit, s) + writers * size
  {
    hide Sum, ClearedBy, Wrap;
    var w := Reserved(added, Wrap(s.used + added));
    assert s'.writers[|s.writers|] == w && IsWithin(w, size);
    SumAppend(Held, s.writers, w);
    SumAppend(InFlightCount, s.writers, w);
    HeldIsBounded(limit, s.writers, size);
    Distributes(Sum(InFlightCount, s.writers), 1, size);
    Multiplies(Sum(InFlightCount, s'.writers), writers, size);
  }

  /** With enough room beyond the limit nothing ever wraps, and what is cleared stays within the limit. */
  lemma {:induction false} EnoughRoom(limit: int, run: seq<System>, k: nat, writers: nat, size: nat)
    requires IsRun(limit, run) && limit > 0 && AreModest(run, writers, size) && k < |run|
    requires limit + writers * size <= MAX_INT64
    ensures Cleared(limit, run[k]) <= limit && InFlightOrAccepted(run[k]) <= MAX_INT64
  {
    hide IsModest, ClearedBy, Wrap, Next, InFlightOrAccepted;
    if k == 0 {
      NothingHeld(limit);
    } else {
      EnoughRoom(limit, run, k - 1, writers, size);
      NextFits(limit, run[k - 1], run[k], writers, size);
      CounterIsHeld(limit, run, k);
      NextKeepsCleared(limit, run[k - 1], run[k]);
    }
  }

  lemma NothingHeld(limit: int)
    ensures Cleared(limit, System(0, [])) == 0 && InFlightOrAccepted(System(0, [])) == 0
  {
  }

  lemma EnoughRoomIsSafe(limit: int, run: seq<System>, k: nat, writers: nat, size: nat)
    requires IsRun(limit, run) && limit > 0 && AreModest(run, writers, size) && k < |run|
    requires limit + writers * size <= MAX_INT64
    ensures AcceptedTotal(run[k]) <= limit
  {
    EnoughRoom(limit, run, k, writers, size);
    SumMonotone(AcceptedSize, ClearedBy(limit), run[k].writers);
  }

  // ---------------------------------------------------------------- too little room

  function Last(run: seq<System>): System
    requires run != []
  {
    run[|run| - 1]
  }

  /** A run whose states are modest, ending with this state. */
  ghost predicate Reaches(limit: int, run: seq<System>, writers: nat, size: nat, s: System) {
    IsRun(limit, run) && AreModest(run, writers, size) && run != [] && Last(run) == s
  }

  lemma Extend(limit: int, run: seq<System>, writers: nat, size: nat, s: System, s': System)
      returns (longer: seq<System>)
    requires Reaches(limit, run, writers, size, s) && Next(limit, s, s') && IsModest(s', writers, size)
    ensures Reaches(limit, longer, writers, size, s')
  {
    hide Next, IsModest;
    longer := run + [s'];
    forall k | 0 < k < |longer| ensures Next(limit, longer[k - 1], longer[k]) {
      assert k < |run| ==> longer[k - 1] == run[k - 1] && longer[k] == run[k];
    }
    forall k | 0 <= k < |longer| ensures IsModest(longer[k], writers, size) {
      assert k < |run| ==> longer[k] == run[k];
    }
  }

  lemma ModestAppend(s: System, used: int, w: Writer, writers: nat, size: nat)
    requires IsModest(s, writers, size) && IsWithin(w, size)
    requires Sum(InFlightCount, s.writers) + InFlightCount(w) <= writers
    ensures IsModest(System(used, s.writers + [w]), writers, size)
    ensures Sum(InFlightCount, s.writers + [w]) == Sum(InFlightCount, s.writers) + InFlightCount(w)
  {
    hide Sum;
    SumAppend(InFlightCount, s.writers, w);
  }

  /** A call that is admitted and accepted, if one more may be in flight. */
  lemma Accept(limit: int, run: seq<System>, writers: nat, size: nat, s: System, added: nat)
      returns (longer: seq<System>)
    requires Reaches(limit, run, writers, size, s) && Sum(InFlightCount, s.writers) < writers
    requires added <= size && added <= MAX_INT64 && !Exceeds(limit, Wrap(s.used + added))
    ensures Reaches(limit, longer, writers, size, System(Wrap(s.used + added), s.writers + [Accepted(added)]))
    ensures Sum(InFlightCount, s.writers + [Accepted(added)]) == Sum(InFlightCount, s.writers)
    ensures Sum(AcceptedSize, s.writers + [Accepted(added)]) == Sum(AcceptedSize, s.writers) + added
  {
    hide Wrap, Sum, Next, IsModest, AreModest, IsRun;
    var used := Wrap(s.used + added);
    LastIsModest(limit, run, writers, size, s);
    var steps := Admission(limit, s, added);
    var a, b, c := steps[0], steps[1], steps[2];
    ModestAppend(s, used, Reserved(added, used), writers, size);
    ModestAppend(s, used, Admitted(added), writers, size);
    ModestAppend(s, used, Accepted(added), writers, size);
    longer := Extend(limit, run, writers, size, s, a);
    longer := Extend(limit, longer, writers, size, a, b);
    longer := Extend(limit, longer, writers, size, b, c);
    SumAppend(AcceptedSize, s.writers, Accepted(added));
  }

  lemma LastIsModest(limit: int, run: seq<System>, writers: nat, size: nat, s: System)
    requires Reaches(limit, run, writers, size, s)
    ensures IsModest(s, writers, size)
  {
  }

  /** A call that reserves its size and goes no further. */
  lemma Reserve(limit: int, run: seq<System>, writers: nat, size: nat, s: System, added: nat)
      returns (longer: seq<System>)
    requires Reaches(limit, run, writers, size, s) && Sum(InFlightCount, s.writers) < writers
    requires added <= size && added <= MAX_INT64
    ensures var used := Wrap(s.used + added);
      Reaches(limit, longer, writers, size, System(used, s.writers + [Reserved(added, used)]))
    ensures var w := Reserved(added, Wrap(s.used + added));
      && Sum(InFlightCount, s.writers + [w]) == Sum(InFlightCount, s.writers) + 1
      && Sum(AcceptedSize, s.writers + [w]) == Sum(AcceptedSize, s.writers)
  {
    hide Wrap, Sum, IsModest, AreModest, IsRun;
    var used := Wrap(s.used + added);
    LastIsModest(limit, run, writers, size, s);
    assert Declared(added) == added && InInt64(added) &&
      Arrives(s, System(used, s.writers + [Reserved(added, used)]), Declared(added));
    ModestAppend(s, used, Reserved(added, used), writers, size);
    longer := Extend(limit, run, writers, size, s, System(used, s.writers + [Reserved(added, used)]));
    SumAppend(AcceptedSize, s.writers, Reserved(added, used));
  }

  /** Calls one after the other, until `total` is accepted. */
  lemma {:induction false} FillUp(limit: int, writers: nat, size: nat, total: nat) returns (run: seq<System>, s: System)
    requires 0 < limit <= MAX_INT64 && writers > 0 && size > 0 && total <= limit
    ensures Reaches(limit, run, writers, size, s) && s.used == total
    ensures Sum(InFlightCount, s.writers) == 0 && AcceptedTotal(s) == total
    decreases total
  {
    hide Wrap, Next, AreModest;
    if total == 0 {
      s := System(0, []);
      run := [s];
      assert AreModest(run, writers, size) by {
        OneState(run, writers, size);
      }
    } else {
      var added := if size <= total then size else total;
      run, s := FillUp(limit, writers, size, total - added);
      run := Accept(limit, run, writers, size, s, added);
      s := System(Wrap(s.used + added), s.writers + [Accepted(added)]);
    }
  }

  lemma OneState(run: seq<System>, writers: nat, size: nat)
    requires run == [System(0, [])]
    ensures AreModest(run, writers, size)
  {
  }

  /** And then `more` calls of the full size that wait before their check. */
  lemma {:induction false} Crowd(limit: int, writers: nat, size: nat, more: nat) returns (run: seq<System>, s: System)
    requires 0 < limit <= MAX_INT64 && more <= writers && writers > 0 && 0 < size <= MAX_INT64
    requires limit + more * size <= MAX_INT64
    ensures Reaches(limit, run, writers, size, s) && s.used == limit + more * size
    ensures Sum(InFlightCount, s.writers) == more && AcceptedTotal(s) == limit
    decreases more
  {
    hide Wrap, Next, AreModest, Sum;
    if more == 0 {
      run, s := FillUp(limit, writers, size, limit);
    } else {
      Distributes(more - 1, 1, size);
      run, s := Crowd(limit, writers, size, more - 1);
      run := Reserve(limit, run, writers, size, s, size);
      s := System(Wrap(s.used + size), s.writers + [Reserved(size, Wrap(s.used + size))]);
    }
  }

  /** The first call too many for the counter wraps it, is admitted, and is accepted beyond the limit. */
  lemma {:induction false} TooLittleRoom(limit: int, writers: nat, size: nat, more: nat) returns (run: seq<System>)
    requires 0 < limit <= MAX_INT64 && more <= writers && size <= MAX_INT64
    requires limit + more * size > MAX_INT64
    ensures IsRun(limit, run) && AreModest(run, writers, size) && run != [] && AcceptedTotal(Last(run)) > limit
    decreases more
  {
    hide Wrap, Next, AreModest, Sum;
    assert more > 0 && size > 0 by {
      Positive(limit, more, size);
    }
    Distributes(more - 1, 1, size);
    if limit + (more - 1) * size > MAX_INT64 {
      run := TooLittleRoom(limit, writers, size, more - 1);
    } else {
      var s;
      run, s := Crowd(limit, writers, size, more - 1);
      CheckIsRightIff(limit, s.used, size);
      run := Accept(limit, run, writers, size, s, size);
    }
  }

  lemma Positive(limit: int, more: nat, size: nat)
    requires limit <= MAX_INT64 && limit + more * size > MAX_INT64
    ensures more > 0 && size > 0
  {
  }

  ghost predicate StaysWithin(limit: int, run: seq<System>) {
    forall k :: 0 <= k < |run| ==> AcceptedTotal(run[k]) <= limit
  }

  /**
   * Exactly when the quota holds: with at most so many writers in flight, each declaring at most so much, no run
   * accepts more than the limit if and only if what they declare together fits into the counter above the limit.
   */
  lemma QuotaHoldsIff(limit: int, writers: nat, size: nat)
    requires 0 < limit <= MAX_INT64 && size <= MAX_INT64
    ensures (forall run: seq<System> ::
              IsRun(limit, run) && AreModest(run, writers, size) ==> StaysWithin(limit, run)) <==>
            limit + writers * size <= MAX_INT64
  {
    hide IsRun, AreModest, AcceptedTotal;
    if limit + writers * size <= MAX_INT64 {
      forall run: seq<System>, k | IsRun(limit, run) && AreModest(run, writers, size) && 0 <= k < |run|
        ensures AcceptedTotal(run[k]) <= limit
      {
        EnoughRoomIsSafe(limit, run, k, writers, size);
      }
    } else {
      var run := TooLittleRoom(limit, writers, size, writers);
      assert !StaysWithin(limit, run);
    }
  }
}
