/**
 What a run of TimerHeap::checkTimeout does to a table of timers, as functions of the
 table and the time alone: how often each timer fires, and what becomes of it.
 */
module TimerRuns {
  import opened Arithmetic
  import opened Timestamps

  datatype Entry = Entry(due: Timestamp, timeout: int, calls: int) {
    /** The period that is added after each firing, narrowed to int by Timer::getTimeout. */
    function Period(): int {
      NarrowToInt(timeout)
    }

    predicate IsDue(now: Timestamp) {
      !now.MillisecondLess(due)
    }

    /** Does not fire for ever at that time: it is not due, or has a limited number of calls,
        or a period of at least a millisecond. */
    predicate Finite(now: Timestamp) {
      now.Valid() && due.Valid() && (IsDue(now) ==> calls > 0 || Period() >= 1)
    }
  }

  type Table = map<int, Entry>
  datatype Firing = Firing(id: int, due: Timestamp)

  /** How often a timer fires until none of its due times is left. */
  function DueTimes(e: Entry, now: Timestamp): nat
    requires e.Finite(now)
  {
    LessComparesMoments(now, e.due);
    if !e.IsDue(now) then 0
    else if e.Period() <= 0 then e.calls
    else
      var n := (now.Ms() - e.due.Ms()) / e.Period() + 1;
      if 0 < e.calls < n then e.calls else n
  }

  /** The timer after n firings. */
  function Advanced(e: Entry, n: nat): Entry {
    Entry(e.due.Plus(n * e.Period()), e.timeout, if e.calls > 0 then e.calls - n else e.calls)
  }

  predicate UsedUp(e: Entry, n: nat) {
    e.calls > 0 && n == e.calls
  }

  /** The table after the timer id fired once. */
  function AfterFiring(m: Table, id: int): Table
    requires id in m
  {
    if m[id].calls == 1 then m - {id} else m[id := Advanced(m[id], 1)]
  }

  /** The table after everything due was fired. */
  ghost function AfterTimeouts(m: Table, now: Timestamp): Table
    requires forall id | id in m :: m[id].Finite(now)
  {
    map id | id in m && !UsedUp(m[id], DueTimes(m[id], now)) :: Advanced(m[id], DueTimes(m[id], now))
  }

  /** How often id fired. */
  function Times(log: seq<Firing>, id: int): nat {
    if log == [] then 0
    else Times(log[..|log| - 1], id) + (if log[|log| - 1].id == id then 1 else 0)
  }

  /** No firing is earlier than the one before. */
  ghost predicate InOrder(log: seq<Firing>) {
    forall i, j {:trigger log[i], log[j]} | 0 <= i < j < |log| :: log[i].due.Ns() <= log[j].due.Ns()
  }

  lemma OrderGoesOn(log: seq<Firing>, f: Firing)
    requires InOrder(log) && (log != [] ==> log[|log| - 1].due.Ns() <= f.due.Ns())
    ensures InOrder(log + [f])
  {
  }

  // ---------- The invariant of a run ----------

  /** The timer id of the table m0 is where the firings logged so far have brought it. */
  ghost predicate IdReached(m0: Table, m: Table, log: seq<Firing>, now: Timestamp, id: int)
    requires id in m0 && m0[id].Finite(now)
  {
    var n := Times(log, id);
    && n <= DueTimes(m0[id], now)
    && (id in m <==> !UsedUp(m0[id], n))
    && (id in m ==> m[id] == Advanced(m0[id], n))
  }

  /** The i-th firing is of a timer of m0, at the due time that timer had reached. */
  ghost predicate FiringOk(m0: Table, log: seq<Firing>, i: int)
    requires 0 <= i < |log|
  {
    && log[i].id in m0
    && log[i].due == m0[log[i].id].due.Plus(Times(log[..i], log[i].id) * m0[log[i].id].Period())
  }

  ghost predicate Reached(m0: Table, m: Table, log: seq<Firing>, now: Timestamp)
    requires forall id | id in m0 :: m0[id].Finite(now)
  {
    && m.Keys <= m0.Keys
    && (forall id {:trigger IdReached(m0, m, log, now, id)} | id in m0 :: IdReached(m0, m, log, now, id))
    && (forall i {:trigger FiringOk(m0, log, i)} | 0 <= i < |log| :: FiringOk(m0, log, i))
  }

  lemma PlusNothing(t: Timestamp)
    requires t.Valid()
    ensures t.Plus(0) == t
  {
    PlusMoves(t, 0);
    NsDetermines(t, t.Plus(0));
  }

  lemma NothingFiredYet(m0: Table, now: Timestamp)
    requires forall id | id in m0 :: m0[id].Finite(now)
    ensures Reached(m0, m0, [], now)
  {
    forall id | id in m0 ensures IdReached(m0, m0, [], now, id) {
      PlusNothing(m0[id].due);
    }
  }

  /** A timer that is still due after n firings has not fired as often as it will. */
  lemma StillDue(e: Entry, now: Timestamp, n: nat)
    requires e.Finite(now) && now.Valid() && !UsedUp(e, n) && n <= DueTimes(e, now)
    ensures Advanced(e, n).due.Valid()
    ensures Advanced(e, n).IsDue(now) <==> n < DueTimes(e, now)
  {
    var p := e.Period();
    PlusMoves(e.due, n * p);
    var a := Advanced(e, n);
    LessComparesMoments(now, e.due);
    LessComparesMoments(now, a.due);
    assert a.due.Ms() == e.due.Ms() + n * p;
    if e.IsDue(now) {
      if p <= 0 {
        NoIncrease(n, p);
      } else {
        DivisionCounts(now.Ms() - e.due.Ms(), p, n);
      }
    }
  }

  lemma NoIncrease(n: nat, p: int)
    requires p <= 0
    ensures n * p <= 0
  {
  }

  lemma DivisionCounts(d: int, p: int, n: nat)
    requires d >= 0 && p >= 1
    ensures n * p <= d <==> n < d / p + 1
  {
    var q := d / p;
    assert d == q * p + d % p;
    if n <= q {
      assert n * p <= q * p;
    } else {
      assert n * p >= (q + 1) * p;
    }
  }

  /** A timer's moments follow each other at its period. It fires once for each that is
      reached, in whole milliseconds, as far as its calls last. */
  lemma DueTimesAreMoments(e: Entry, now: Timestamp, k: nat)
    requires e.Finite(now)
    ensures k < DueTimes(e, now) <==>
              (e.calls <= 0 || k < e.calls) && e.due.Ms() <= now.Ms() && e.due.Ms() + k * e.Period() <= now.Ms()
  {
    LessComparesMoments(now, e.due);
    if e.IsDue(now) {
      if e.Period() <= 0 {
        NoIncrease(k, e.Period());
      } else {
        DivisionCounts(now.Ms() - e.due.Ms(), e.Period(), k);
      }
    }
  }

  /** What is left of a timer: nothing once it has used up its calls, otherwise its next
      moment and the calls it still has. */
  lemma LeftOfTimer(m: Table, now: Timestamp, id: int)
    requires (forall k | k in m :: m[k].Finite(now)) && id in m
    ensures var e, r, n := m[id], AfterTimeouts(m, now), DueTimes(m[id], now);
            (id !in r <==> e.calls > 0 && n == e.calls)
            && (id in r ==> r[id].due.Ms() == e.due.Ms() + n * e.Period() && r[id].timeout == e.timeout
                            && r[id].calls == e.calls - (if e.calls > 0 then n else 0))
  {
    PlusMoves(m[id].due, DueTimes(m[id], now) * m[id].Period());
  }

  lemma TimesAppended(log: seq<Firing>, f: Firing, id: int)
    ensures Times(log + [f], id) == Times(log, id) + (if f.id == id then 1 else 0)
  {
    assert (log + [f])[..|log|] == log;
  }

  lemma AdvancedOnce(e: Entry, n: nat)
    requires e.due.Valid() && !UsedUp(e, n) && (e.calls > 0 ==> n < e.calls)
    ensures Advanced(Advanced(e, n), 1) == Advanced(e, n + 1)
  {
    PlusAddsUp(e.due, n * e.Period(), e.Period());
    assert n * e.Period() + e.Period() == (n + 1) * e.Period();
  }

  lemma IdFired(m0: Table, m: Table, log: seq<Firing>, now: Timestamp, id: int, other: int)
    requires now.Valid() && (forall k | k in m0 :: m0[k].Finite(now))
    requires Reached(m0, m, log, now) && id in m && m[id].IsDue(now) && other in m0
    ensures IdReached(m0, AfterFiring(m, id), log + [Firing(id, m[id].due)], now, other)
  {
    var f := Firing(id, m[id].due);
    TimesAppended(log, f, other);
    assert IdReached(m0, m, log, now, other);
    if other == id {
      var n := Times(log, id);
      StillDue(m0[id], now, n);
      AdvancedOnce(m0[id], n);
    }
  }

  /** Firing a due timer keeps the run on its way. */
  lemma FiredOnce(m0: Table, m: Table, log: seq<Firing>, now: Timestamp, id: int)
    requires now.Valid() && (forall k | k in m0 :: m0[k].Finite(now))
    requires Reached(m0, m, log, now) && id in m && m[id].IsDue(now)
    ensures Reached(m0, AfterFiring(m, id), log + [Firing(id, m[id].due)], now)
  {
    var f := Firing(id, m[id].due);
    var m', log' := AfterFiring(m, id), log + [f];
    forall k | k in m0 ensures IdReached(m0, m', log', now, k) {
      IdFired(m0, m, log, now, id, k);
    }
    forall i | 0 <= i < |log'| ensures FiringOk(m0, log', i) {
      assert log'[..i] == log[..i];
      if i < |log| {
        assert FiringOk(m0, log, i);
      } else {
        assert log'[..i] == log;
        assert IdReached(m0, m, log, now, id);
      }
    }
  }

  /** When nothing is due any more, every timer fired exactly as often as it had to. */
  lemma RunIsOver(m0: Table, m: Table, log: seq<Firing>, now: Timestamp)
    requires now.Valid() && (forall k | k in m0 :: m0[k].Finite(now))
    requires Reached(m0, m, log, now)
    requires forall k | k in m :: !m[k].IsDue(now)
    ensures forall id | id in m0 :: Times(log, id) == DueTimes(m0[id], now)
    ensures m == AfterTimeouts(m0, now)
  {
    forall id | id in m0
      ensures Times(log, id) == DueTimes(m0[id], now)
      ensures id in m <==> !UsedUp(m0[id], DueTimes(m0[id], now))
      ensures id in m ==> m[id] == Advanced(m0[id], DueTimes(m0[id], now))
    {
      assert IdReached(m0, m, log, now, id);
      if id in m {
        StillDue(m0[id], now, Times(log, id));
      }
    }
    var end := AfterTimeouts(m0, now);
    forall id ensures id in m <==> id in end {
      assert id in m ==> id in m.Keys;
    }
    assert forall id | id in m :: id in m0 && m[id] == end[id];
  }

  // ---------- The run ends ----------

  lemma {:induction false} ListIds(s: set<int>) returns (ids: seq<int>)
    ensures forall k :: k in ids <==> k in s
    ensures forall i, j | 0 <= i < j < |ids| :: ids[i] != ids[j]
  {
    if k :| k in s {
      var rest := ListIds(s - {k});
      ids := rest + [k];
    } else {
      ids := [];
    }
  }

  /** How many firings are still to come. */
  ghost function Left(ids: seq<int>, m0: Table, log: seq<Firing>, now: Timestamp): int
    requires forall k | k in ids :: k in m0 && m0[k].Finite(now)
  {
    if ids == [] then 0
    else
      var k := ids[|ids| - 1];
      Left(ids[..|ids| - 1], m0, log, now) + DueTimes(m0[k], now) - Times(log, k)
  }

  lemma {:induction false} LeftUnchanged(ids: seq<int>, m0: Table, log: seq<Firing>, now: Timestamp, f: Firing)
    requires forall k | k in ids :: k in m0 && m0[k].Finite(now)
    requires f.id !in ids
    ensures Left(ids, m0, log + [f], now) == Left(ids, m0, log, now)
  {
    if ids != [] {
      var k := ids[|ids| - 1];
      TimesAppended(log, f, k);
      LeftUnchanged(ids[..|ids| - 1], m0, log, now, f);
    }
  }

  /** Every firing brings the end nearer by one. */
  lemma {:induction false} LeftDecreases(ids: seq<int>, m0: Table, log: seq<Firing>, now: Timestamp, f: Firing)
    requires forall k | k in ids :: k in m0 && m0[k].Finite(now)
    requires f.id in ids && forall i, j | 0 <= i < j < |ids| :: ids[i] != ids[j]
    ensures Left(ids, m0, log + [f], now) == Left(ids, m0, log, now) - 1
  {
    var last := |ids| - 1;
    var k := ids[last];
    TimesAppended(log, f, k);
    if k == f.id {
      LeftUnchanged(ids[..last], m0, log, now, f);
    } else {
      LeftDecreases(ids[..last], m0, log, now, f);
    }
  }

  lemma {:induction false} LeftIsNotNegative(ids: seq<int>, m0: Table, m: Table, log: seq<Firing>, now: Timestamp)
    requires forall k | k in m0 :: m0[k].Finite(now)
    requires forall k | k in ids :: k in m0
    requires Reached(m0, m, log, now)
    ensures Left(ids, m0, log, now) >= 0
  {
    if ids != [] {
      var k := ids[|ids| - 1];
      assert IdReached(m0, m, log, now, k);
      LeftIsNotNegative(ids[..|ids| - 1], m0, m, log, now);
    }
  }

  /** A firing of a due timer keeps the run on its way and brings its end nearer. */
  lemma FiringIsProgress(m0: Table, m: Table, log: seq<Firing>, now: Timestamp, id: int, ids: seq<int>)
    requires now.Valid() && (forall k | k in m0 :: m0[k].Finite(now))
    requires Reached(m0, m, log, now) && id in m && m[id].IsDue(now)
    requires (forall k :: k in ids <==> k in m0) && forall i, j | 0 <= i < j < |ids| :: ids[i] != ids[j]
    ensures var next := log + [Firing(id, m[id].due)];
            Reached(m0, AfterFiring(m, id), next, now) && 0 <= Left(ids, m0, next, now) < Left(ids, m0, log, now)
  {
    var f := Firing(id, m[id].due);
    FiredOnce(m0, m, log, now, id);
    LeftDecreases(ids, m0, log, now, f);
    LeftIsNotNegative(ids, m0, AfterFiring(m, id), log + [f], now);
  }
}
