/** The ids that timers get over any run of calls. */
module TimerIds {
  import opened Timestamps
  import opened TimerRuns

  const INT64_MAX := 0x7fff_ffff_ffff_ffff

  /** A timer heap as its callers see it: the id given last, and the timers by id. */
  datatype Timers = Timers(lastId: int, table: Table)

  datatype Call =
    | Add(now: Timestamp, timeoutMs: int, callTimes: int)
    | Remove(id: int)
    | Check(now: Timestamp)

  function NextId(last: int): (id: int) { if last == INT64_MAX then 1 else last + 1 }

  /** A timer added, and the id the caller gets. */
  function Added(s: Timers, now: Timestamp, timeoutMs: int, callTimes: int): (r: (Timers, int))
  {
    var id := NextId(s.lastId);
    var delay := if timeoutMs < 0 then 0 else timeoutMs;
    if id in s.table then (Timers(id, s.table), -1)
    else (Timers(id, s.table[id := Entry(now.Plus(delay), delay, callTimes)]), id)
  }

  ghost predicate Enabled(s: Timers, call: Call)
  {
    match call
    case Add(now, timeoutMs, callTimes) => now.Valid()
    case Remove(id) => true
    case Check(now) => now.Valid() && forall id | id in s.table :: s.table[id].Finite(now)
  }

  ghost function Apply(s: Timers, call: Call): (r: Timers)
    requires Enabled(s, call)
  {
    match call
    case Add(now, timeoutMs, callTimes) => Added(s, now, timeoutMs, callTimes).0
    case Remove(id) => s.(table := s.table - {id})
    case Check(now) => s.(table := AfterTimeouts(s.table, now))
  }

  ghost predicate IsRun(s: Timers, calls: seq<Call>)
    decreases |calls|
  {
    calls == [] || (Enabled(s, calls[0]) && IsRun(Apply(s, calls[0]), calls[1..]))
  }

  ghost function After(s: Timers, calls: seq<Call>): (r: Timers)
    requires IsRun(s, calls)
    decreases |calls|
  {
    if calls == [] then s else After(Apply(s, calls[0]), calls[1..])
  }

  /** How many timers the calls add. */
  function Adds(calls: seq<Call>): (n: nat)
  {
    if calls == [] then 0 else (if calls[0].Add? then 1 else 0) + Adds(calls[1..])
  }

  /** What the adding calls return, in their order. */
  ghost function Ids(s: Timers, calls: seq<Call>): (ids: seq<int>)
    requires IsRun(s, calls)
    decreases |calls|
  {
    if calls == [] then []
    else
      var first :=
        match calls[0]
        case Add(now, timeoutMs, callTimes) => [Added(s, now, timeoutMs, callTimes).1]
        case _ => [];
      first + Ids(Apply(s, calls[0]), calls[1..])
  }

  const NoTimers := Timers(0, map[])

  /** The ids in use were given already, and the counter has not come round. */
  ghost predicate Fresh(s: Timers)
  {
    0 <= s.lastId <= INT64_MAX && forall id | id in s.table :: 1 <= id <= s.lastId
  }

  lemma CallKeepsFresh(s: Timers, call: Call)
    requires Fresh(s) && Enabled(s, call) && (call.Add? ==> s.lastId < INT64_MAX)
    ensures Fresh(Apply(s, call))
    ensures Apply(s, call).lastId == s.lastId + (if call.Add? then 1 else 0)
    ensures call.Add? ==> Added(s, call.now, call.timeoutMs, call.callTimes).1 == s.lastId + 1
  {
  }

  lemma {:induction false} IdsCountUp(s: Timers, calls: seq<Call>)
    requires Fresh(s) && IsRun(s, calls) && s.lastId + Adds(calls) <= INT64_MAX
    ensures |Ids(s, calls)| == Adds(calls)
    ensures forall i :: 0 <= i < Adds(calls) ==> Ids(s, calls)[i] == s.lastId + 1 + i
    decreases |calls|
  {
    if calls != [] {
      CallKeepsFresh(s, calls[0]);
      IdsCountUp(Apply(s, calls[0]), calls[1..]);
    }
  }

  /** Fewer than 2^63 timers added to a new heap are all added, whatever is removed or
      fires in between, and their ids are 1, 2, 3 and so on. */
  lemma EveryTimerIsAdded(calls: seq<Call>)
    requires IsRun(NoTimers, calls) && Adds(calls) < 0x8000_0000_0000_0000
    ensures |Ids(NoTimers, calls)| == Adds(calls)
    ensures forall i :: 0 <= i < Adds(calls) ==> Ids(NoTimers, calls)[i] == i + 1
  {
    IdsCountUp(NoTimers, calls);
  }

  /** A timer that was added is due from the asked delay on, in whole milliseconds. */
  lemma DueAfterDelay(s: Timers, now: Timestamp, timeoutMs: int, callTimes: int, later: Timestamp)
    requires now.Valid() && later.Valid()
    ensures var (r, id) := Added(s, now, timeoutMs, callTimes);
            id != -1 ==>
              id in r.table && r.table[id].calls == callTimes
              && (r.table[id].IsDue(later) <==> later.Ms() >= now.Ms() + (if timeoutMs > 0 then timeoutMs else 0))
  {
    var delay := if timeoutMs < 0 then 0 else timeoutMs;
    PlusMoves(now, delay);
    LessComparesMoments(later, now.Plus(delay));
  }

  /** The id that the n-th addition to a new heap tries, n counted from 1. */
  function Tried(n: nat): (id: int)
    requires n > 0
  {
    (n - 1) % 0x7fff_ffff_ffff_ffff + 1
  }

  lemma TriedNext(n: nat)
    ensures NextId(if n == 0 then 0 else Tried(n)) == Tried(n + 1)
  {
  }

  lemma {:induction false} CounterAfter(s: Timers, calls: seq<Call>, n: nat)
    requires IsRun(s, calls) && s.lastId == if n == 0 then 0 else Tried(n)
    ensures var m := n + Adds(calls);
            After(s, calls).lastId == if m == 0 then 0 else Tried(m)
    decreases |calls|
  {
    if calls != [] {
      TriedNext(n);
      CounterAfter(Apply(s, calls[0]), calls[1..], if calls[0].Add? then n + 1 else n);
    }
  }

  /** An addition fails exactly if the id it tries is in use, and so only once the counter
      has come round. */
  lemma AddFailsOnlyAfterWrap(calls: seq<Call>, now: Timestamp, timeoutMs: int, callTimes: int)
    requires IsRun(NoTimers, calls)
    ensures var s := After(NoTimers, calls);
            var id := Added(s, now, timeoutMs, callTimes).1;
            (id == -1 <==> Tried(Adds(calls) + 1) in s.table)
            && (id != -1 ==> id == Tried(Adds(calls) + 1))
            && (id == -1 ==> Adds(calls) >= 0x7fff_ffff_ffff_ffff)
  {
    CounterAfter(NoTimers, calls, 0);
    TriedNext(Adds(calls));
    if Adds(calls) < 0x7fff_ffff_ffff_ffff {
      FreshAfter(NoTimers, calls);
    }
  }

  lemma {:induction false} FreshAfter(s: Timers, calls: seq<Call>)
    requires Fresh(s) && IsRun(s, calls) && s.lastId + Adds(calls) <= INT64_MAX
    ensures Fresh(After(s, calls)) && After(s, calls).lastId == s.lastId + Adds(calls)
    decreases |calls|
  {
    if calls != [] {
      CallKeepsFresh(s, calls[0]);
      FreshAfter(Apply(s, calls[0]), calls[1..]);
    }
  }
}
