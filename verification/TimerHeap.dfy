/**
 The timer heap of src/brickred/timer_heap.cc: a binary heap of timers in a vector whose
 slot 0 stays empty, a position in every timer, and a map from ids to timers. A callback
 is an entry in a log of firings: callbacks do not touch the heap here.
 */
module TimerHeaps {
  import opened Timestamps
  import opened HeapOrder
  import opened TimerIds
  import opened TimerRuns
  import opened Arithmetic

  class Timer {
    const id: int
    const timeout: int
    var timestamp: Timestamp
    var callTimes: int
    var heapPos: int

    constructor (timerId: int, due: Timestamp, period: int, calls: int)
      ensures id == timerId && timestamp == due && timeout == period && callTimes == calls && heapPos == -1
    {
      id, timestamp, timeout, callTimes, heapPos := timerId, due, period, calls, -1;
    }
  }

  ghost function Moments(h: seq<Timer?>): (keys: seq<int>)
    reads h`timestamp
    ensures |keys| == |h|
    ensures forall i {:trigger keys[i]} {:trigger h[i]} | 0 <= i < |h| :: keys[i] == if h[i] == null then 0 else h[i].timestamp.Ns()
  {
    if h == [] then [] else
      var last := |h| - 1;
      Moments(h[..last]) + [if h[last] == null then 0 else h[last].timestamp.Ns()]
  }

  class TimerHeap {
    var lastId: int
    var timers: map<int, Timer>
    var heap: seq<Timer?>
    /** The timers in the heap. */
    ghost var members: set<Timer>

    ghost predicate SlotOk(i: int)
      requires 0 <= i < |heap|
      reads `heap, `members, members`heapPos
    {
      heap[i] in members && heap[i].heapPos == i
    }

    ghost predicate PosOk(t: Timer)
      reads `heap, t`heapPos
    {
      1 <= t.heapPos < |heap| && heap[t.heapPos] == t
    }

    /** Every member is in exactly one slot, the one it knows of. */
    ghost predicate Placed()
      reads `heap, `members, members`heapPos
    {
      && |heap| >= 1 && heap[0] == null
      && (forall i {:trigger SlotOk(i)} | 1 <= i < |heap| :: SlotOk(i))
      && (forall t {:trigger PosOk(t)} | t in members :: PosOk(t))
    }

    ghost predicate Timed()
      reads `members, members`timestamp
    {
      forall t {:trigger t.timestamp} | t in members :: t.timestamp.Valid()
    }

    /** The moments in the heap, slot by slot. */
    ghost function Keys(): (keys: seq<int>)
      reads `heap, heap`timestamp
    {
      Moments(heap)
    }

    /** Swaps the timers in two slots, positions included. */
    method SwapSlots(i: int, j: int)
      requires Placed() && 1 <= i < |heap| && 1 <= j < |heap| && i != j
      modifies `heap, members`heapPos
      ensures Placed() && heap == Swapped(old(heap), i, j) && Keys() == Swapped(old(Keys()), i, j)
    {
      assert SlotOk(i) && SlotOk(j);
      SetPositions(heap[i], heap[j], j, i);
      heap := heap[i := heap[j]][j := heap[i]];
      forall k | 1 <= k < |heap| ensures SlotOk(k) {
        assert old(SlotOk(k));
      }
      forall t | t in members ensures PosOk(t) {
        assert old(PosOk(t));
      }
    }

    method SetPositions(a: Timer, b: Timer, i: int, j: int)
      requires a != b
      modifies a`heapPos, b`heapPos
      ensures a.heapPos == i && b.heapPos == j
    {
      a.heapPos := i;
      b.heapPos := j;
    }

    /** What the heap operations keep: positions, heap order, normalized timestamps. */
    ghost predicate HeapOk()
      reads `heap, `members, members`heapPos, members`timestamp, heap`timestamp
    {
      Placed() && IsHeap(Keys()) && Timed()
    }

    /** Moves the timer in slot start up until its parent is not later. */
    method MinHeapShiftUp(start: int)
      requires Placed() && Timed() && HeapBelow(Keys(), start)
      modifies `heap, members`heapPos
      ensures HeapOk()
    {
      var cur := start;
      while true
        invariant Placed() && HeapBelow(Keys(), cur)
        decreases cur
      {
        var parent := cur / 2;
        if parent == 0 {
          UpDone(Keys(), cur);
          break;
        }
        var earlier := Earlier(cur, parent);
        if earlier {
          MoveUp(Keys(), cur);
          SwapSlots(cur, parent);
          cur := parent;
        } else {
          UpDone(Keys(), cur);
          break;
        }
      }
    }

    /** Compares the timers in two slots. */
    method Earlier(i: int, j: int) returns (earlier: bool)
      requires Placed() && Timed() && 1 <= i < |heap| && 1 <= j < |heap|
      ensures earlier <==> Keys()[i] < Keys()[j]
    {
      assert SlotOk(i) && SlotOk(j);
      LessComparesMoments(heap[i].timestamp, heap[j].timestamp);
      earlier := heap[i].timestamp.Less(heap[j].timestamp);
    }

    /** The slot of the earlier child of cur. */
    method EarlierChild(cur: int) returns (child: int)
      requires Placed() && Timed() && 1 <= cur && cur * 2 < |heap|
      ensures child == cur * 2 || child == cur * 2 + 1
      ensures child < |heap| && Keys()[child] <= Keys()[cur * 2]
      ensures cur * 2 + 1 < |heap| ==> Keys()[child] <= Keys()[cur * 2 + 1]
    {
      child := cur * 2;
      if child + 1 < |heap| {
        var earlier := Earlier(child + 1, child);
        if earlier {
          child := child + 1;
        }
      }
    }

    /** One step down, if a child is earlier than the timer in slot cur. */
    method ShiftDownStep(cur: int) returns (next: int, done: bool)
      requires Placed() && Timed() && HeapAbove(Keys(), cur)
      modifies `heap, members`heapPos
      ensures Placed() && |heap| == old(|heap|)
      ensures if done then IsHeap(Keys()) else HeapAbove(Keys(), next) && cur < next
    {
      if cur * 2 >= |heap| {
        DownDone(Keys(), cur);
        return cur, true;
      }
      var child := EarlierChild(cur);
      var earlier := Earlier(child, cur);
      if earlier {
        MoveDown(Keys(), cur, child);
        SwapSlots(cur, child);
        return child, false;
      } else {
        DownDone(Keys(), cur);
        return cur, true;
      }
    }

    /** Moves the timer in slot start down until no child is earlier. */
    method MinHeapShiftDown(start: int)
      requires Placed() && Timed() && HeapAbove(Keys(), start)
      modifies `heap, members`heapPos
      ensures HeapOk()
    {
      var cur, done := start, false;
      while !done
        invariant Placed() && |heap| == old(|heap|)
        invariant if done then IsHeap(Keys()) else HeapAbove(Keys(), cur)
        decreases !done, |heap| - cur
      {
        cur, done := ShiftDownStep(cur);
      }
    }

    /** Puts t in a new last slot. */
    method AppendSlot(t: Timer)
      requires Placed() && t !in members
      modifies `heap, `members, t`heapPos
      ensures Placed() && members == old(members) + {t} && heap == old(heap) + [t]
      ensures Keys() == old(Keys()) + [t.timestamp.Ns()] && |old(heap)| == t.heapPos
    {
      var cur := |heap|;
      heap := heap + [t];
      t.heapPos := cur;
      members := members + {t};
      forall k | 1 <= k < |heap| ensures SlotOk(k) {
        assert k != cur ==> old(SlotOk(k));
      }
      forall u | u in members ensures PosOk(u) {
        assert u != t ==> old(PosOk(u));
      }
    }

    /** t joins the heap. */
    method MinHeapInsert(t: Timer)
      requires HeapOk() && t !in members && t.timestamp.Valid()
      modifies `heap, `members, members`heapPos, t`heapPos
      ensures HeapOk() && members == old(members) + {t}
    {
      AppendedKey(Keys(), t.timestamp.Ns());
      AppendSlot(t);
      MinHeapShiftUp(|heap| - 1);
    }

    static lemma MomentsTaken(slots: seq<Timer?>, cur: int)
      requires 1 <= cur < |slots|
      ensures var n := |slots| - 1;
              Moments(if cur < n then slots[..n][cur := slots[n]] else slots[..n]) == Without(Moments(slots), cur)
    {
    }

    /** Moves the last timer to the slot of t, and drops the last slot. */
    method TakeSlot(t: Timer)
      requires Placed() && t in members
      modifies `heap, `members, members`heapPos
      ensures Placed() && members == old(members) - {t}
      ensures var cur, n := old(t.heapPos), |old(heap)| - 1;
        && 1 <= cur <= n
        && heap == if cur < n then old(heap)[..n][cur := old(heap)[n]] else old(heap)[..n]
    {
      assert PosOk(t) && SlotOk(|heap| - 1);
      var cur := t.heapPos;
      var last := heap[|heap| - 1];
      MovePosition(t, last, cur);
      heap := heap[cur := last];
      heap := heap[..|heap| - 1];
      members := members - {t};
      forall k | 1 <= k < |heap| ensures SlotOk(k) {
        assert old(SlotOk(k));
      }
      forall u | u in members ensures PosOk(u) {
        assert old(PosOk(u));
      }
    }

    /** t is told that it is in no slot, and then last that it is in slot i; they may be the same timer. */
    method MovePosition(t: Timer, last: Timer, i: int)
      modifies t`heapPos, last`heapPos
      ensures last.heapPos == i && (t != last ==> t.heapPos == -1)
    {
      t.heapPos := -1;
      last.heapPos := i;
    }

    /** t leaves the heap; the slot it had may now hold a timer out of place. */
    method LeaveSlot(t: Timer) returns (cur: int)
      requires HeapOk() && t in members
      modifies `heap, `members, members`heapPos
      ensures Placed() && Timed() && members == old(members) - {t} && 1 <= cur
      ensures if cur >= |heap| then HeapOk()
              else if cur >= 2 && Keys()[cur] < Keys()[cur / 2] then HeapBelow(Keys(), cur)
              else HeapAbove(Keys(), cur)
    {
      assert PosOk(t);
      cur := t.heapPos;
      KeyLeft(Keys(), cur);
      TakeSlot(t);
      MomentsTaken(old(heap), cur);
      assert Moments(old(heap)) == old(Keys());
    }

    /** t leaves the heap, from whatever slot. */
    method MinHeapErase(t: Timer)
      requires HeapOk() && t in members
      modifies `heap, `members, members`heapPos
      ensures HeapOk() && members == old(members) - {t}
    {
      var cur := LeaveSlot(t);
      if cur >= |heap| {
        return;
      }
      Settle(cur);
    }

    /** The timer that was moved into slot cur finds its place, up or down. */
    method Settle(cur: int)
      requires Placed() && Timed() && 1 <= cur < |heap|
      requires if cur >= 2 && Keys()[cur] < Keys()[cur / 2] then HeapBelow(Keys(), cur) else HeapAbove(Keys(), cur)
      modifies `heap, members`heapPos
      ensures HeapOk()
    {
      var parent := cur / 2;
      var up := false;
      if parent > 0 {
        up := Earlier(cur, parent);
      }
      if up {
        MinHeapShiftUp(cur);
      } else {
        MinHeapShiftDown(cur);
      }
    }

    /** The earliest timer, or null when there is none. */
    method MinHeapTop() returns (t: Timer?)
      requires HeapOk()
      ensures t == null <==> members == {}
      ensures t != null ==> t in members && forall u | u in members :: t.timestamp.Ns() <= u.timestamp.Ns()
    {
      if u :| u in members {
        assert PosOk(u);
      }
      if |heap| <= 1 {
        return null;
      }
      t := heap[1];
      assert SlotOk(1);
      forall u | u in members ensures t.timestamp.Ns() <= u.timestamp.Ns() {
        assert PosOk(u);
        TopIsLeast(Keys(), u.heapPos);
      }
    }

    // ---------- The table of timers ----------

    ghost predicate IdOk(id: int)
      reads `timers, `members
    {
      id in timers ==> timers[id] in members && timers[id].id == id
    }

    ghost predicate MemberOk(t: Timer)
      reads `timers
    {
      t.id in timers && timers[t.id] == t
    }

    /** The heap is in order, and its members are exactly the values of the id map. */
    ghost predicate Valid()
      reads this, members, heap
    {
      && HeapOk() && 0 <= lastId <= INT64_MAX
      && (forall id {:trigger IdOk(id)} | id in timers :: IdOk(id))
      && (forall t {:trigger MemberOk(t)} | t in members :: MemberOk(t))
    }

    ghost function EntryOf(t: Timer): Entry
      reads t
    {
      Entry(t.timestamp, t.timeout, t.callTimes)
    }

    /** What the timers amount to, by id. */
    ghost function Entries(): (m: Table)
      reads `timers, timers.Values
      ensures m.Keys == timers.Keys
    {
      map id | id in timers :: EntryOf(timers[id])
    }

    /** The heap as its callers see it. */
    ghost function View(): (s: Timers)
      reads `lastId, `timers, timers.Values
    {
      Timers(lastId, Entries())
    }

    constructor ()
      ensures Valid() && View() == NoTimers && fresh(members)
    {
      lastId, timers, heap, members := 0, map[], [null], {};
    }

    /** A new timer joins the map and the heap. */
    method Enter(timer: Timer)
      requires Valid() && timer.id !in timers && timer !in members && timer.timestamp.Valid()
      modifies `timers, `heap, `members, members`heapPos, timer`heapPos
      ensures Valid() && timers == old(timers)[timer.id := timer]
    {
      timers := timers[timer.id := timer];
      MinHeapInsert(timer);
      forall k | k in timers ensures IdOk(k) {
        assert k != timer.id ==> old(IdOk(k));
      }
      forall t | t in members ensures MemberOk(t) {
        assert t != timer ==> old(MemberOk(t));
      }
    }

    /** A timer leaves the heap and the map. */
    method Leave(timer: Timer)
      requires Valid() && timer in members
      modifies `timers, `heap, `members, members`heapPos
      ensures Valid() && timers == old(timers) - {timer.id} && members == old(members) - {timer}
    {
      assert MemberOk(timer);
      MinHeapErase(timer);
      timers := timers - {timer.id};
      forall k | k in timers ensures IdOk(k) {
        assert old(IdOk(k));
      }
      forall t | t in members ensures MemberOk(t) {
        assert old(MemberOk(t));
      }
    }

    /** Reserves the next id. */
    method NewTimer(now: Timestamp, timeout: int, callTimes: int) returns (timer: Timer)
      requires now.Valid()
      modifies `lastId
      ensures lastId == NextId(old(lastId)) && fresh(timer) && timer.id == lastId
      ensures timer.timestamp.Valid() && EntryOf(timer) == Entry(now.Plus(timeout), timeout, callTimes)
    {
      lastId := NextId(lastId);
      PlusMoves(now, timeout);
      timer := new Timer(lastId, now.Plus(timeout), timeout, callTimes);
    }

    /**
     Adds a timer, due after the given delay. When the ids wrapped around to one still in
     use, nothing is added and -1 is returned.
     */
    method AddTimer(now: Timestamp, timeoutMs: int, callTimes: int) returns (id: int)
      requires Valid() && now.Valid()
      modifies this, members`heapPos
      ensures Valid() && (View(), id) == Added(old(View()), now, timeoutMs, callTimes)
      ensures old(lastId) < INT64_MAX && (forall k | k in old(timers) :: k <= old(lastId)) ==>
                id > old(lastId) && id !in old(timers) && |Entries()| == |old(Entries())| + 1
                && (forall k | k in timers :: k <= lastId)
      ensures if lastId in old(timers) then id == -1 && Entries() == old(Entries())
              else
                var delay := if timeoutMs < 0 then 0 else timeoutMs;
                && id == lastId
                && Entries() == old(Entries())[id := Entry(now.Plus(delay), delay, callTimes)]
    {
      var timeout := if timeoutMs < 0 then 0 else timeoutMs;
      var timer := NewTimer(now, timeout, callTimes);
      if lastId in timers {
        assert Entries() == old(Entries());
        return -1;
      }
      id := lastId;
      Enter(timer);
      forall k | k in timers ensures Entries()[k] == old(Entries())[id := EntryOf(timer)][k] {
        assert k != id ==> old(IdOk(k));
      }
      assert Entries() == old(Entries())[id := EntryOf(timer)];
    }

    /** Removes a timer wherever it is in the heap; an unknown id changes nothing. */
    method RemoveTimer(id: int)
      requires Valid()
      modifies this, members`heapPos
      ensures Valid() && Entries() == old(Entries()) - {id} && lastId == old(lastId)
    {
      if id !in timers {
        return;
      }
      assert IdOk(id);
      Leave(timers[id]);
      forall k | k in timers ensures Entries()[k] == (old(Entries()) - {id})[k] {
        assert old(IdOk(k));
      }
    }

    /** The timer moves on by its period: out of the heap, and in again at the later time. */
    method Postpone(timer: Timer)
      requires Valid() && timer in members && timer.callTimes != 1
      modifies `heap, `members, members`heapPos, timer`timestamp, timer`callTimes
      ensures Valid() && members == old(members) && EntryOf(timer) == Advanced(old(EntryOf(timer)), 1)
    {
      assert MemberOk(timer);
      MinHeapErase(timer);
      MoveOn(timer);
      MinHeapInsert(timer);
      assert members == old(members);
      forall k | k in timers ensures IdOk(k) {
        assert old(IdOk(k));
      }
      forall t | t in members ensures MemberOk(t) {
        assert old(MemberOk(t));
      }
    }

    /** A timer that is out of the heap gets its next due time; the heap does not care. */
    method MoveOn(timer: Timer)
      requires HeapOk() && timer !in members
      requires timer.callTimes != 1 && timer.timestamp.Valid()
      modifies timer`timestamp, timer`callTimes
      ensures timer.timestamp.Valid() && EntryOf(timer) == Advanced(old(EntryOf(timer)), 1)
      ensures HeapOk()
    {
      forall i | 0 <= i < |heap| ensures heap[i] != timer {
        assert i > 0 ==> SlotOk(i);
      }
      if timer.callTimes > 0 {
        timer.callTimes := timer.callTimes - 1;
      }
      PlusMoves(timer.timestamp, NarrowToInt(timer.timeout));
      timer.timestamp := timer.timestamp.Plus(NarrowToInt(timer.timeout));
      assert Keys() == old(Keys());
    }

    /** Fires a timer: it is gone after its last call, and moves on otherwise. */
    method Fire(timer: Timer)
      requires Valid() && timer in members
      modifies `timers, `heap, `members, members
      ensures Valid() && members <= old(members)
      ensures timer.id in old(Entries()) && Entries() == AfterFiring(old(Entries()), timer.id)
      ensures forall u {:trigger u.timestamp} | u in members ::
        u.timestamp == if u == timer then old(timer.timestamp).Plus(NarrowToInt(timer.timeout)) else old(u.timestamp)
    {
      assert MemberOk(timer);
      if timer.callTimes == 1 {
        Leave(timer);
      } else {
        Postpone(timer);
      }
      forall k | k in timers ensures k in old(Entries()) && Entries()[k] == AfterFiring(old(Entries()), timer.id)[k] {
        assert old(IdOk(k));
      }
    }

    /**
     Milliseconds until the next timer is due, or -1 when there is none: waiting less than
     that makes no timer due, and waiting that long makes one due.
     */
    method GetNextTimeoutMillisecond(now: Timestamp) returns (ms: int)
      requires Valid() && now.Valid()
      ensures ms >= -1 && (ms == -1 <==> Entries() == map[])
      ensures ms >= 0 ==> forall d: nat :: AnyDue(now.Plus(d)) <==> d >= ms
    {
      forall id | id in timers ensures members != {} {
        assert IdOk(id);
      }
      var timer := MinHeapTop();
      if timer == null {
        assert timers.Keys == {};
        return -1;
      }
      assert MemberOk(timer);
      LessComparesMoments(timer.timestamp, now);
      LessComparesMoments(now, timer.timestamp);
      DistanceIsDifference(now, timer.timestamp);
      if timer.timestamp.Less(now) {
        ms := 0;
      } else {
        ms := now.DistanceMillisecond(timer.timestamp);
      }
      forall d: nat ensures AnyDue(now.Plus(d)) <==> d >= ms {
        PlusMoves(now, d);
        AnyDueIfTopIs(timer, now.Plus(d));
      }
    }

    /** Some timer is due. */
    ghost predicate AnyDue(now: Timestamp)
      reads `timers, timers.Values
    {
      exists id :: id in timers && EntryOf(timers[id]).IsDue(now)
    }

    /** It is enough to look at the earliest timer. */
    lemma AnyDueIfTopIs(top: Timer, now: Timestamp)
      requires Valid() && now.Valid() && top in members
      requires forall u | u in members :: top.timestamp.Ns() <= u.timestamp.Ns()
      ensures AnyDue(now) <==> top.timestamp.Ms() <= now.Ms()
    {
      assert MemberOk(top);
      LessComparesMoments(now, top.timestamp);
      forall id | id in timers && EntryOf(timers[id]).IsDue(now) ensures top.timestamp.Ms() <= now.Ms() {
        assert IdOk(id);
        LessComparesMoments(now, timers[id].timestamp);
        LessComparesMoments(top.timestamp, timers[id].timestamp);
      }
    }

    // ---------- Firing everything that is due ----------

    /** The earliest timer, if it is due. */
    method TopIfDue(now: Timestamp) returns (t: Timer?)
      requires Valid() && now.Valid()
      ensures if t == null then !AnyDue(now) else IsDueTop(t, now) && AnyDue(now)
    {
      if id :| id in timers {
        assert IdOk(id);
      }
      t := MinHeapTop();
      if t != null {
        assert MemberOk(t);
        AnyDueIfTopIs(t, now);
        LessComparesMoments(now, t.timestamp);
        if now.MillisecondLess(t.timestamp) {
          t := null;
        }
      }
    }

    /** No timer is earlier than the given moment. */
    ghost predicate NotBefore(ns: int)
      reads `members, members`timestamp
    {
      forall u {:trigger u.timestamp} | u in members :: ns <= u.timestamp.Ns()
    }

    /** Fires the earliest timer. It does not get earlier by that unless its period is negative. */
    method FireEarliest(timer: Timer)
      requires Valid() && timer in members
      requires forall u | u in members :: timer.timestamp.Ns() <= u.timestamp.Ns()
      modifies `timers, `heap, `members, members
      ensures Valid() && members <= old(members)
      ensures timer.id in old(Entries()) && Entries() == AfterFiring(old(Entries()), timer.id)
      ensures NarrowToInt(timer.timeout) >= 0 ==> NotBefore(old(timer.timestamp.Ns()))
    {
      PlusMoves(timer.timestamp, NarrowToInt(timer.timeout));
      Fire(timer);
    }

    /** What is known in the middle of CheckTimeout, m0 being the table at its start. */
    ghost predicate OnTheWay(m0: Table, log: seq<Firing>, now: Timestamp)
      reads this, members, heap, timers.Values
      requires forall id | id in m0 :: m0[id].Finite(now)
    {
      && Valid() && Reached(m0, Entries(), log, now)
      && ((forall id | id in m0 :: m0[id].Period() >= 0) ==> InOrder(log) && (log != [] ==> NotBefore(log[|log| - 1].due.Ns())))
    }

    /** The timer is the earliest one, and due. */
    ghost predicate IsDueTop(timer: Timer, now: Timestamp)
      reads this, members
    {
      && timer in members && timer.id in timers && timers[timer.id] == timer && EntryOf(timer).IsDue(now)
      && forall u | u in members :: timer.timestamp.Ns() <= u.timestamp.Ns()
    }

    method FireAndLog(timer: Timer, now: Timestamp, ghost m0: Table, ghost ids: seq<int>, before: seq<Firing>)
      returns (log: seq<Firing>)
      requires now.Valid() && (forall id | id in m0 :: m0[id].Finite(now)) && OnTheWay(m0, before, now)
      requires forall id :: id in ids <==> id in m0
      requires forall i, j | 0 <= i < j < |ids| :: ids[i] != ids[j]
      requires IsDueTop(timer, now)
      modifies `timers, `heap, `members, members
      ensures OnTheWay(m0, log, now) && members <= old(members) && log != []
      ensures 0 <= Left(ids, m0, log, now) < Left(ids, m0, before, now)
    {
      var firing := Firing(timer.id, timer.timestamp);
      FiringIsProgress(m0, Entries(), before, now, timer.id, ids);
      assert IdReached(m0, Entries(), before, now, timer.id);
      if InOrder(before) && (before != [] ==> before[|before| - 1].due.Ns() <= firing.due.Ns()) {
        OrderGoesOn(before, firing);
      }
      FireEarliest(timer);
      log := before + [firing];
    }

    method FireAndLook(timer: Timer, now: Timestamp, ghost m0: Table, ghost ids: seq<int>, before: seq<Firing>)
      returns (log: seq<Firing>, next: Timer?)
      requires now.Valid() && (forall id | id in m0 :: m0[id].Finite(now)) && OnTheWay(m0, before, now)
      requires forall id :: id in ids <==> id in m0
      requires forall i, j | 0 <= i < j < |ids| :: ids[i] != ids[j]
      requires IsDueTop(timer, now)
      modifies `timers, `heap, `members, members
      ensures OnTheWay(m0, log, now) && members <= old(members) && log != []
      ensures if next == null then !AnyDue(now) else IsDueTop(next, now)
      ensures 0 <= Left(ids, m0, log, now) < Left(ids, m0, before, now)
    {
      log := FireAndLog(timer, now, m0, ids, before);
      assert OnTheWay(m0, log, now);
      next := TopIfDue(now);
      assert OnTheWay(m0, log, now);
    }

    /**
     Fires every timer that is due at `now`, the earliest first, as often as it is due. A
     timer that is due must stop being due some time. When no period is negative the firings are in
     order of time.
     */
    method CheckTimeout(now: Timestamp) returns (log: seq<Firing>)
      requires Valid() && now.Valid()
      requires forall id | id in Entries() :: Entries()[id].Finite(now)
      modifies `timers, `heap, `members, members
      ensures Valid() && !AnyDue(now) && (log == [] <==> !old(AnyDue(now)))
      ensures Entries() == AfterTimeouts(old(Entries()), now)
      ensures forall id | id in old(Entries()) :: Times(log, id) == DueTimes(old(Entries())[id], now)
      ensures forall i {:trigger FiringOk(old(Entries()), log, i)} | 0 <= i < |log| :: FiringOk(old(Entries()), log, i)
      ensures (forall id | id in old(Entries()) :: old(Entries())[id].Period() >= 0) ==> InOrder(log)
    {
      ghost var m0 := Entries();
      ghost var ids := ListIds(m0.Keys);
      NothingFiredYet(m0, now);
      log := FireAllDue(now, m0, ids);
      assert forall id | id in Entries() :: EntryOf(timers[id]) == Entries()[id];
      RunIsOver(m0, Entries(), log, now);
    }

    method FireAllDue(now: Timestamp, ghost m0: Table, ghost ids: seq<int>) returns (log: seq<Firing>)
      requires now.Valid() && (forall id | id in m0 :: m0[id].Finite(now)) && OnTheWay(m0, [], now)
      requires forall id :: id in ids <==> id in m0
      requires forall i, j | 0 <= i < j < |ids| :: ids[i] != ids[j]
      modifies `timers, `heap, `members, members
      ensures OnTheWay(m0, log, now) && !AnyDue(now)
      ensures log == [] <==> !old(AnyDue(now))
    {
      log := [];
      var timer := TopIfDue(now);
      while timer != null
        invariant OnTheWay(m0, log, now) && members <= old(members)
        invariant if timer == null then !AnyDue(now) else IsDueTop(timer, now)
        invariant if log == [] then (timer != null <==> old(AnyDue(now))) else old(AnyDue(now))
        decreases Left(ids, m0, log, now)
      {
        log, timer := FireAndLook(timer, now, m0, ids, log);
      }
    }
  }
}
