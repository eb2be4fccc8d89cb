/** The size limit of an in-memory clone: reserve, check, roll back, over one atomic 64-bit counter. */
module Quota {

  const MAX_INT64 := 0x7fff_ffff_ffff_ffff
  const TWO_TO_THE_64 := 0x1_0000_0000_0000_0000

  /** Two's complement addition keeps the value modulo 2^64. */
  function Wrap(n: int): (r: int)
    ensures InInt64(r)
    ensures InInt64(n) ==> r == n
  {
    (n + MAX_INT64 + 1) % TWO_TO_THE_64 - MAX_INT64 - 1
  }

  predicate InInt64(n: int) {
    -MAX_INT64 - 1 <= n <= MAX_INT64
  }

  /** Adding to a wrapped value is adding to the value. */
  lemma WrapAdds(n: int, d: int)
    ensures Wrap(Wrap(n) + d) == Wrap(n + d)
  {
    var m := n + MAX_INT64 + 1;
    assert Wrap(n) + d + MAX_INT64 + 1 == m % TWO_TO_THE_64 + d;
    ModAdds(m, d);
  }

  lemma ModAdds(m: int, d: int)
    ensures (m % TWO_TO_THE_64 + d) % TWO_TO_THE_64 == (m + d) % TWO_TO_THE_64
  {
    var q := m / TWO_TO_THE_64;
    var n := m % TWO_TO_THE_64 + d;
    assert m + d == n + q * TWO_TO_THE_64;
    var p := n / TWO_TO_THE_64;
    assert m + d == (p + q) * TWO_TO_THE_64 + n % TWO_TO_THE_64;
  }

  function Declared(sz: int): int {
    if sz < 0 then 0 else sz
  }

  predicate Exceeds(limit: int, newUsed: int) {
    limit > 0 && newUsed > limit
  }

  /** One call that is not interleaved with others: a failed one leaves no trace. */
  class LimitedStorage {
    const limit: int
    var used: int

    constructor (limit: int)
      ensures this.limit == limit && used == 0
    {
      this.limit := limit;
      used := 0;
    }

    /** `stored` is whether the wrapped storage accepts the object. */
    method RawObjectWriter(sz: int, stored: bool) returns (ok: bool)
      requires InInt64(sz) && InInt64(used)
      modifies this`used
      ensures InInt64(used)
      ensures var newUsed := Wrap(old(used) + if sz < 0 then 0 else sz);
        && (ok <==> stored && (limit > 0 ==> newUsed <= limit))
        && used == if ok then newUsed else old(used)
    {
      var size := if sz < 0 then 0 else sz;
      WrapAdds(used + size, -size);
      used := Wrap(used + size);
      var newUsed := used;
      if limit > 0 && newUsed > limit {
        used := Wrap(used - size);
        return false;
      }
      if !stored {
        used := Wrap(used - size);
        return false;
      }
      return true;
    }
  }

  // ---------------------------------------------------------------- interleaved calls

  /** A call after its reservation: what it added, and what it saw the counter become. */
  datatype Writer =
    | Reserved(size: nat, newUsed: int)     // before the check
    | Admitted(size: nat)                   // before the wrapped storage is asked
    | Refused(size: nat)                    // before the roll-back
    | Accepted(size: nat)
    | Rejected

  datatype System = System(used: int, writers: seq<Writer>)

  ghost predicate Next(limit: int, s: System, s': System) {
    || (exists sz: int :: InInt64(sz) && Arrives(s, s', Declared(sz)))
    || (exists i: nat :: i < |s.writers| && Moves(limit, s, s', i))
  }

  ghost predicate Arrives(s: System, s': System, size: nat) {
    s' == System(Wrap(s.used + size), s.writers + [Reserved(size, Wrap(s.used + size))])
  }

  ghost predicate Moves(limit: int, s: System, s': System, i: nat)
    requires i < |s.writers|
  {
    match s.writers[i]
    case Reserved(size, newUsed) =>
      s' == System(s.used, s.writers[i := if Exceeds(limit, newUsed) then Refused(size) else Admitted(size)])
    case Admitted(size) =>
      || s' == System(s.used, s.writers[i := Accepted(size)])
      || s' == System(s.used, s.writers[i := Refused(size)])
    case Refused(size) => s' == System(Wrap(s.used - size), s.writers[i := Rejected])
    case Accepted(_) => false
    case Rejected => false
  }

  ghost predicate IsRun(limit: int, run: seq<System>) {
    && run != [] && run[0] == System(0, [])
    && forall k :: 0 < k < |run| ==> Next(limit, run[k - 1], run[k])
  }

  /** What the writer still has in the counter. */
  function Held(w: Writer): nat {
    if w.Rejected? then 0 else w.size
  }

  function AcceptedSize(w: Writer): nat {
    if w.Accepted? then w.size else 0
  }

  /** What the writer holds, unless it is bound to be rolled back because of what it saw. */
  function ClearedSize(limit: int, w: Writer): nat {
    match w
    case Reserved(size, newUsed) => if Exceeds(limit, newUsed) then 0 else size
    case Admitted(size) => size
    case Accepted(size) => size
    case _ => 0
  }

  function Sum(f: Writer -> nat, writers: seq<Writer>): nat {
    if writers == [] then 0 else f(writers[0]) + Sum(f, writers[1..])
  }

  lemma {:induction false} SumAppend(f: Writer -> nat, writers: seq<Writer>, w: Writer)
    ensures Sum(f, writers + [w]) == Sum(f, writers) + f(w)
  {
    if writers == [] {
      assert [w][1..] == [];
    } else {
      assert (writers + [w])[1..] == writers[1..] + [w];
      SumAppend(f, writers[1..], w);
    }
  }

  lemma {:induction false} SumUpdate(f: Writer -> nat, writers: seq<Writer>, i: nat, w: Writer)
    requires i < |writers|
    ensures Sum(f, writers[i := w]) == Sum(f, writers) - f(writers[i]) + f(w)
  {
    if i == 0 {
      assert writers[0 := w][1..] == writers[1..];
    } else {
      assert writers[i := w][1..] == writers[1..][i - 1 := w];
      SumUpdate(f, writers[1..], i - 1, w);
    }
  }

  lemma {:induction false} SumMonotone(f: Writer -> nat, g: Writer -> nat, writers: seq<Writer>)
    requires forall w :: f(w) <= g(w)
    ensures Sum(f, writers) <= Sum(g, writers)
  {
    if writers != [] {
      SumMonotone(f, g, writers[1..]);
    }
  }

  ghost function InFlightOrAccepted(s: System): nat {
    Sum(Held, s.writers)
  }

  ghost function AcceptedTotal(s: System): nat {
    Sum(AcceptedSize, s.writers)
  }

  ghost function ClearedBy(limit: int): (f: Writer -> nat)
    ensures forall w :: f(w) == ClearedSize(limit, w)
  {
    w => ClearedSize(limit, w)
  }

  ghost function Cleared(limit: int, s: System): nat {
    Sum(ClearedBy(limit), s.writers)
  }

  /** The counter is what the writers hold, modulo 2^64, on every run. */
  lemma {:induction false} CounterIsHeld(limit: int, run: seq<System>, k: nat)
    requires IsRun(limit, run) && k < |run|
    ensures run[k].used == Wrap(InFlightOrAccepted(run[k]))
  {
    if k > 0 {
      CounterIsHeld(limit, run, k - 1);
      NextKeepsCounter(limit, run[k - 1], run[k]);
    }
  }

  lemma NextKeepsCounter(limit: int, s: System, s': System)
    requires Next(limit, s, s') && s.used == Wrap(InFlightOrAccepted(s))
    ensures s'.used == Wrap(InFlightOrAccepted(s'))
  {
    hide Wrap, Sum, Moves, Arrives;
    if sz: int :| InInt64(sz) && Arrives(s, s', Declared(sz)) {
      ArrivalKeepsCounter(s, s', Declared(sz));
    } else {
      var i: nat :| i < |s.writers| && Moves(limit, s, s', i);
      MoveKeepsCounter(limit, s, s', i);
    }
  }

  lemma ArrivalKeepsCounter(s: System, s': System, size: nat)
    requires Arrives(s, s', size) && s.used == Wrap(InFlightOrAccepted(s))
    ensures s'.used == Wrap(InFlightOrAccepted(s'))
  {
    hide Wrap, Sum;
    SumAppend(Held, s.writers, Reserved(size, Wrap(s.used + size)));
    assert InFlightOrAccepted(s') == InFlightOrAccepted(s) + size;
    WrapAdds(InFlightOrAccepted(s), size);
  }

  lemma MoveKeepsCounter(limit: int, s: System, s': System, i: nat)
    requires i < |s.writers| && Moves(limit, s, s', i) && s.used == Wrap(InFlightOrAccepted(s))
    ensures s'.used == Wrap(InFlightOrAccepted(s'))
  {
    hide Wrap, Sum, Moves;
    MoveChangesHeld(limit, s, s', i);
    SumUpdate(Held, s.writers, i, s'.writers[i]);
    var d: int := Held(s'.writers[i]) - Held(s.writers[i]);
    assert InFlightOrAccepted(s') == InFlightOrAccepted(s) + d;
    WrapAdds(InFlightOrAccepted(s), d);
  }

  lemma MoveChangesHeld(limit: int, s: System, s': System, i: nat)
    requires i < |s.writers| && Moves(limit, s, s', i) && InInt64(s.used)
    ensures |s'.writers| == |s.writers| && s'.writers == s.writers[i := s'.writers[i]]
    ensures s'.used == Wrap(s.used + (Held(s'.writers[i]) - Held(s.writers[i])))
  {
    hide Wrap;
  }

  /** No addition wraps: the sizes held at any time fit. */
  ghost predicate NeverWraps(run: seq<System>) {
    forall k :: 0 <= k < |run| ==> InFlightOrAccepted(run[k]) <= MAX_INT64
  }

  lemma NextKeepsCleared(limit: int, s: System, s': System)
    requires Next(limit, s, s') && limit > 0 && Cleared(limit, s) <= limit
    requires s'.used == InFlightOrAccepted(s')
    ensures Cleared(limit, s') <= limit
  {
    hide Wrap, Sum, ClearedBy;
    var cleared := ClearedBy(limit);
    if sz: int :| InInt64(sz) && Arrives(s, s', Declared(sz)) {
      var size: nat := Declared(sz);
      SumAppend(cleared, s.writers, Reserved(size, Wrap(s.used + size)));
      SumMonotone(cleared, Held, s'.writers);
    } else {
      var i: nat :| i < |s.writers| && Moves(limit, s, s', i);
      SumUpdate(cleared, s.writers, i, s'.writers[i]);
    }
  }

  lemma {:induction false} RunKeepsCleared(limit: int, run: seq<System>, k: nat)
    requires IsRun(limit, run) && limit > 0 && NeverWraps(run) && k < |run|
    ensures Cleared(limit, run[k]) <= limit
  {
    if k > 0 {
      RunKeepsCleared(limit, run, k - 1);
      CounterIsHeld(limit, run, k);
      NextKeepsCleared(limit, run[k - 1], run[k]);
    }
  }

  /**
   * The quota under concurrency: as long as nothing wraps, the counter is exactly what accepted writers and those in
   * flight hold, the accepted sizes never exceed the limit, and with nobody in flight the counter is their sum.
   */
  lemma QuotaHolds(limit: int, run: seq<System>, k: nat)
    requires IsRun(limit, run) && limit > 0 && NeverWraps(run) && k < |run|
    ensures run[k].used == InFlightOrAccepted(run[k])
    ensures AcceptedTotal(run[k]) <= limit
    ensures (forall w :: w in run[k].writers ==> w.Accepted? || w.Rejected?) ==> run[k].used == AcceptedTotal(run[k])
  {
    CounterIsHeld(limit, run, k);
    RunKeepsCleared(limit, run, k);
    SumMonotone(AcceptedSize, ClearedBy(limit), run[k].writers);
    if forall w :: w in run[k].writers ==> w.Accepted? || w.Rejected? {
      SettledSum(run[k].writers);
    }
  }

  lemma {:induction false} SettledSum(writers: seq<Writer>)
    requires forall w :: w in writers ==> w.Accepted? || w.Rejected?
    ensures Sum(Held, writers) == Sum(AcceptedSize, writers)
  {
    if writers != [] {
      SettledSum(writers[1..]);
      assert writers[0] in writers;
    }
  }

  // ---------------------------------------------------------------- where it fails

  /** The check comes out as it would on unbounded integers exactly when the addition does not wrap. */
  lemma CheckIsRightIff(limit: int, used: int, size: int)
    requires 0 < limit <= MAX_INT64 && 0 <= used <= MAX_INT64 && 0 <= size <= MAX_INT64
    ensures (Exceeds(limit, Wrap(used + size)) <==> Exceeds(limit, used + size)) <==> used + size <= MAX_INT64
  {
    if used + size > MAX_INT64 {
      assert Wrap(used + size) == used + size - TWO_TO_THE_64;
    }
  }

  /** With a limit of ten bytes, an object of five and then one of the largest size are both accepted. */
  lemma WrappedCounterAdmitsTooMuch() returns (run: seq<System>)
    ensures IsRun(10, run) && AcceptedTotal(run[|run| - 1]) > 10
  {
    hide Next, Wrap, Sum;
    var huge := MAX_INT64;
    var s0 := System(0, []);
    var first := Admission(10, s0, 5);
    var s1 := first[2];
    HugeIsAdmitted();
    var second := Admission(10, s1, huge);
    run := [s0, first[0], first[1], s1, second[0], second[1], second[2]];
    TwoAccepted(5, huge);
  }

  lemma HugeIsAdmitted()
    ensures !Exceeds(10, Wrap(5 + MAX_INT64))
  {
    CheckIsRightIff(10, 5, MAX_INT64);
  }

  lemma TwoAccepted(a: nat, b: nat)
    ensures Sum(AcceptedSize, [] + [Accepted(a)] + [Accepted(b)]) == a + b
  {
    SumAppend(AcceptedSize, [], Accepted(a));
    SumAppend(AcceptedSize, [] + [Accepted(a)], Accepted(b));
  }

  /** The three steps of a call that is admitted and accepted. */
  lemma Admission(limit: int, s: System, size: nat) returns (steps: seq<System>)
    requires size <= MAX_INT64 && !Exceeds(limit, Wrap(s.used + size))
    ensures var used := Wrap(s.used + size);
      steps == [System(used, s.writers + [Reserved(size, used)]), System(used, s.writers + [Admitted(size)]),
                System(used, s.writers + [Accepted(size)])]
    ensures Next(limit, s, steps[0]) && Next(limit, steps[0], steps[1]) && Next(limit, steps[1], steps[2])
  {
    hide Wrap;
    var n, used := |s.writers|, Wrap(s.used + size);
    var a := System(used, s.writers + [Reserved(size, used)]);
    var b := System(used, s.writers + [Admitted(size)]);
    var c := System(used, s.writers + [Accepted(size)]);
    assert b.writers == a.writers[n := Admitted(size)] && c.writers == b.writers[n := Accepted(size)];
    assert InInt64(size) && Arrives(s, a, Declared(size));
    assert Moves(limit, a, b, n) && Moves(limit, b, c, n);
    steps := [a, b, c];
  }
}
