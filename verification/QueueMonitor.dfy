/** The concurrent queue as a monitor: what its threads do between one acquisition
    of the mutex and its release, in any order a scheduler likes. */
module QueueMonitor {

  import opened Options

  /** A thread inside a wait: asleep, or woken and on its way back to the mutex. */
  datatype Phase<T> = Pushing(item: T, woken: bool) | Popping(woken: bool)

  /** pushed and popped are the histories of all items ever accepted and handed out. */
  datatype Monitor<T> = Monitor(
    queue: seq<T>,
    maxSize: nat,
    waiting: map<nat, Phase<T>>,
    pushed: seq<T>,
    popped: seq<T>
  )

  ghost function Start<T>(maxSize: nat): (m: Monitor<T>) { Monitor([], maxSize, map[], [], []) }

  ghost predicate Full<T>(m: Monitor<T>) { m.maxSize != 0 && |m.queue| >= m.maxSize }

  ghost function AsleepPoppers<T>(m: Monitor<T>): (s: set<nat>)
  {
    set t | t in m.waiting && m.waiting[t].Popping? && !m.waiting[t].woken
  }

  ghost function WokenPoppers<T>(m: Monitor<T>): (s: set<nat>)
  {
    set t | t in m.waiting && m.waiting[t].Popping? && m.waiting[t].woken
  }

  ghost function AsleepPushers<T>(m: Monitor<T>): (s: set<nat>)
  {
    set t | t in m.waiting && m.waiting[t].Pushing? && !m.waiting[t].woken
  }

  ghost function WokenPushers<T>(m: Monitor<T>): (s: set<nat>)
  {
    set t | t in m.waiting && m.waiting[t].Pushing? && m.waiting[t].woken
  }

  // ---------- Steps ----------

  /** Wakes one sleeper, whichever the system chooses; without sleepers nothing happens. */
  ghost function NotifyPopper<T>(m: Monitor<T>, chosen: nat): (r: Monitor<T>)
  {
    if chosen in AsleepPoppers(m) then m.(waiting := m.waiting[chosen := Popping(true)]) else m
  }

  ghost function NotifyPusher<T>(m: Monitor<T>, chosen: nat): (r: Monitor<T>)
  {
    if chosen in AsleepPushers(m) then
      m.(waiting := m.waiting[chosen := Pushing(m.waiting[chosen].item, true)])
    else m
  }

  ghost function Enqueue<T>(m: Monitor<T>, item: T, chosen: nat): (r: Monitor<T>)
  {
    NotifyPopper(m.(queue := m.queue + [item], pushed := m.pushed + [item]), chosen)
  }

  ghost function Dequeue<T>(m: Monitor<T>, chosen: nat): (r: Monitor<T>)
    requires m.queue != []
  {
    NotifyPusher(m.(queue := m.queue[1..], popped := m.popped + [m.queue[0]]), chosen)
  }

  /** The test at the head of the waiting loop, and what follows it. */
  ghost function TestAndPush<T>(m: Monitor<T>, t: nat, item: T, chosen: nat): (r: Monitor<T>)
  {
    if Full(m) then m.(waiting := m.waiting[t := Pushing(item, false)]) else Enqueue(m, item, chosen)
  }

  ghost function TestAndPop<T>(m: Monitor<T>, t: nat, chosen: nat): (r: Monitor<T>)
  {
    if m.queue == [] then m.(waiting := m.waiting[t := Popping(false)]) else Dequeue(m, chosen)
  }

  /** What a thread can do while it holds the mutex. A waiting thread may also be
      woken by nobody. */
  datatype Step<T> =
    | Push(t: nat, item: T, chosen: nat)
    | ResumePush(t: nat, chosen: nat)
    | PushIfNotFull(item: T, chosen: nat)
    | Pop(t: nat, chosen: nat)
    | ResumePop(t: nat, chosen: nat)
    | PopIfNotEmpty(chosen: nat)
    | WakeSpuriously(t: nat)

  /** Who may step; and the system wakes a sleeper if there is one to be woken. */
  ghost predicate Enabled<T>(m: Monitor<T>, step: Step<T>)
  {
    match step
    case Push(t, item, chosen) => t !in m.waiting && MayChoose(AsleepPoppers(m), chosen)
    case ResumePush(t, chosen) => t in WokenPushers(m) && MayChoose(AsleepPoppers(m), chosen)
    case PushIfNotFull(item, chosen) => MayChoose(AsleepPoppers(m), chosen)
    case Pop(t, chosen) => t !in m.waiting && MayChoose(AsleepPushers(m), chosen)
    case ResumePop(t, chosen) => t in WokenPoppers(m) && MayChoose(AsleepPushers(m), chosen)
    case PopIfNotEmpty(chosen) => MayChoose(AsleepPushers(m), chosen)
    case WakeSpuriously(t) => t in AsleepPoppers(m) || t in AsleepPushers(m)
  }

  ghost predicate MayChoose(sleepers: set<nat>, chosen: nat) { chosen in sleepers || sleepers == {} }

  ghost function Woken<T>(p: Phase<T>): (q: Phase<T>) { p.(woken := true) }

  ghost function Apply<T>(m: Monitor<T>, step: Step<T>): (r: Monitor<T>)
    requires Enabled(m, step)
  {
    match step
    case Push(t, item, chosen) => TestAndPush(m, t, item, chosen)
    case ResumePush(t, chosen) =>
      TestAndPush(m.(waiting := m.waiting - {t}), t, m.waiting[t].item, chosen)
    case PushIfNotFull(item, chosen) => if Full(m) then m else Enqueue(m, item, chosen)
    case Pop(t, chosen) => TestAndPop(m, t, chosen)
    case ResumePop(t, chosen) => TestAndPop(m.(waiting := m.waiting - {t}), t, chosen)
    case PopIfNotEmpty(chosen) => if m.queue == [] then m else Dequeue(m, chosen)
    case WakeSpuriously(t) => m.(waiting := m.waiting[t := Woken(m.waiting[t])])
  }

  // ---------- What every step keeps ----------

  /** First in, first out: handed out, then still queued, is all that was accepted. */
  ghost predicate Fifo<T>(m: Monitor<T>) { m.popped + m.queue == m.pushed }

  ghost predicate Bounded<T>(m: Monitor<T>) { m.maxSize != 0 ==> |m.queue| <= m.maxSize }

  /** While a consumer sleeps, every queued item has a woken consumer coming for it. */
  ghost predicate ItemsAreSeen<T>(m: Monitor<T>)
  {
    AsleepPoppers(m) != {} ==> |m.queue| <= |WokenPoppers(m)|
  }

  /** While a producer sleeps, every free slot has a woken producer coming for it. */
  ghost predicate SlotsAreSeen<T>(m: Monitor<T>)
  {
    AsleepPushers(m) != {} ==> m.maxSize != 0 && m.maxSize - |m.queue| <= |WokenPushers(m)|
  }

  ghost predicate Inv<T>(m: Monitor<T>)
  {
    Fifo(m) && Bounded(m) && ItemsAreSeen(m) && SlotsAreSeen(m)
  }

  lemma NotifyPopperSets<T>(m: Monitor<T>, chosen: nat)
    requires MayChoose(AsleepPoppers(m), chosen)
    ensures var r := NotifyPopper(m, chosen);
            AsleepPoppers(r) == AsleepPoppers(m) - {chosen}
            && (AsleepPoppers(m) != {} ==> |WokenPoppers(r)| == |WokenPoppers(m)| + 1)
            && AsleepPushers(r) == AsleepPushers(m) && WokenPushers(r) == WokenPushers(m)
  {
    if chosen in AsleepPoppers(m) {
      assert WokenPoppers(NotifyPopper(m, chosen)) == WokenPoppers(m) + {chosen};
    }
  }

  lemma NotifyPusherSets<T>(m: Monitor<T>, chosen: nat)
    requires MayChoose(AsleepPushers(m), chosen)
    ensures var r := NotifyPusher(m, chosen);
            AsleepPushers(r) == AsleepPushers(m) - {chosen}
            && (AsleepPushers(m) != {} ==> |WokenPushers(r)| == |WokenPushers(m)| + 1)
            && AsleepPoppers(r) == AsleepPoppers(m) && WokenPoppers(r) == WokenPoppers(m)
  {
    if chosen in AsleepPushers(m) {
      assert WokenPushers(NotifyPusher(m, chosen)) == WokenPushers(m) + {chosen};
    }
  }

  /** An item goes in: wanted says by how much the woken producers may have run short. */
  lemma EnqueueKeeps<T>(m: Monitor<T>, item: T, chosen: nat)
    requires Fifo(m) && Bounded(m) && ItemsAreSeen(m) && !Full(m)
    requires AsleepPushers(m) != {} ==> m.maxSize != 0 && m.maxSize - |m.queue| <= |WokenPushers(m)| + 1
    requires MayChoose(AsleepPoppers(m), chosen)
    ensures Inv(Enqueue(m, item, chosen))
  {
    var n := m.(queue := m.queue + [item], pushed := m.pushed + [item]);
    assert AsleepPoppers(n) == AsleepPoppers(m) && WokenPoppers(n) == WokenPoppers(m);
    assert AsleepPushers(n) == AsleepPushers(m) && WokenPushers(n) == WokenPushers(m);
    assert m.popped + (m.queue + [item]) == m.popped + m.queue + [item];
    NotifyPopperSets(n, chosen);
  }

  lemma DequeueKeeps<T>(m: Monitor<T>, chosen: nat)
    requires Fifo(m) && Bounded(m) && SlotsAreSeen(m) && m.queue != []
    requires AsleepPoppers(m) != {} ==> |m.queue| <= |WokenPoppers(m)| + 1
    requires MayChoose(AsleepPushers(m), chosen)
    ensures Inv(Dequeue(m, chosen))
  {
    var n := m.(queue := m.queue[1..], popped := m.popped + [m.queue[0]]);
    assert AsleepPoppers(n) == AsleepPoppers(m) && WokenPoppers(n) == WokenPoppers(m);
    assert AsleepPushers(n) == AsleepPushers(m) && WokenPushers(n) == WokenPushers(m);
    assert m.popped + [m.queue[0]] + m.queue[1..] == m.popped + m.queue;
    NotifyPusherSets(n, chosen);
  }

  /** A woken thread leaves the waiting ones. */
  lemma LeaveSets<T>(m: Monitor<T>, t: nat)
    requires t in WokenPushers(m) || t in WokenPoppers(m)
    ensures var n := m.(waiting := m.waiting - {t});
            AsleepPoppers(n) == AsleepPoppers(m) && AsleepPushers(n) == AsleepPushers(m)
            && WokenPoppers(n) == WokenPoppers(m) - {t} && WokenPushers(n) == WokenPushers(m) - {t}
  {
  }

  lemma SleepSets<T>(m: Monitor<T>, t: nat, p: Phase<T>)
    requires t !in m.waiting && !p.woken
    ensures var n := m.(waiting := m.waiting[t := p]);
            WokenPoppers(n) == WokenPoppers(m) && WokenPushers(n) == WokenPushers(m)
            && AsleepPoppers(n) == (if p.Popping? then AsleepPoppers(m) + {t} else AsleepPoppers(m))
            && AsleepPushers(n) == (if p.Pushing? then AsleepPushers(m) + {t} else AsleepPushers(m))
  {
  }

  lemma TestAndPushKeeps<T>(m: Monitor<T>, t: nat, item: T, chosen: nat)
    requires Fifo(m) && Bounded(m) && ItemsAreSeen(m) && t !in m.waiting
    requires AsleepPushers(m) != {} ==> m.maxSize != 0 && m.maxSize - |m.queue| <= |WokenPushers(m)| + 1
    requires MayChoose(AsleepPoppers(m), chosen)
    ensures Inv(TestAndPush(m, t, item, chosen))
  {
    if Full(m) {
      SleepSets(m, t, Pushing(item, false));
    } else {
      EnqueueKeeps(m, item, chosen);
    }
  }

  lemma TestAndPopKeeps<T>(m: Monitor<T>, t: nat, chosen: nat)
    requires Fifo(m) && Bounded(m) && SlotsAreSeen(m) && t !in m.waiting
    requires AsleepPoppers(m) != {} ==> |m.queue| <= |WokenPoppers(m)| + 1
    requires MayChoose(AsleepPushers(m), chosen)
    ensures Inv(TestAndPop(m, t, chosen))
  {
    if m.queue == [] {
      SleepSets(m, t, Popping(false));
    } else {
      DequeueKeeps(m, chosen);
    }
  }

  lemma WakeKeeps<T>(m: Monitor<T>, t: nat)
    requires Inv(m) && Enabled(m, WakeSpuriously(t))
    ensures Inv(Apply(m, WakeSpuriously(t)))
  {
    var n := Apply(m, WakeSpuriously(t));
    if t in AsleepPoppers(m) {
      assert AsleepPoppers(n) == AsleepPoppers(m) - {t} && WokenPoppers(n) == WokenPoppers(m) + {t};
      assert AsleepPushers(n) == AsleepPushers(m) && WokenPushers(n) == WokenPushers(m);
    } else {
      assert AsleepPushers(n) == AsleepPushers(m) - {t} && WokenPushers(n) == WokenPushers(m) + {t};
      assert AsleepPoppers(n) == AsleepPoppers(m) && WokenPoppers(n) == WokenPoppers(m);
    }
  }

  lemma StepKeepsInv<T>(m: Monitor<T>, step: Step<T>)
    requires Inv(m) && Enabled(m, step)
    ensures Inv(Apply(m, step))
  {
    match step {
      case Push(t, item, chosen) => TestAndPushKeeps(m, t, item, chosen);
      case ResumePush(t, chosen) =>
        LeaveSets(m, t);
        TestAndPushKeeps(m.(waiting := m.waiting - {t}), t, m.waiting[t].item, chosen);
      case PushIfNotFull(item, chosen) => if !Full(m) { EnqueueKeeps(m, item, chosen); }
      case Pop(t, chosen) => TestAndPopKeeps(m, t, chosen);
      case ResumePop(t, chosen) =>
        LeaveSets(m, t);
        TestAndPopKeeps(m.(waiting := m.waiting - {t}), t, chosen);
      case PopIfNotEmpty(chosen) => if m.queue != [] { DequeueKeeps(m, chosen); }
      case WakeSpuriously(t) => WakeKeeps(m, t);
    }
  }

  // ---------- Every run ----------

  ghost predicate IsRun<T>(m: Monitor<T>, steps: seq<Step<T>>)
    decreases |steps|
  {
    steps == [] || (Enabled(m, steps[0]) && IsRun(Apply(m, steps[0]), steps[1..]))
  }

  ghost function After<T>(m: Monitor<T>, steps: seq<Step<T>>): (r: Monitor<T>)
    requires IsRun(m, steps)
    decreases |steps|
  {
    if steps == [] then m else After(Apply(m, steps[0]), steps[1..])
  }

  /** Any number of threads, any scheduling: first in first out, within the bound,
      and no wakeup lost. */
  lemma {:induction false} EveryRunKeepsInv<T>(m: Monitor<T>, steps: seq<Step<T>>)
    requires Inv(m) && IsRun(m, steps)
    ensures Inv(After(m, steps))
    decreases |steps|
  {
    if steps != [] {
      StepKeepsInv(m, steps[0]);
      EveryRunKeepsInv(Apply(m, steps[0]), steps[1..]);
    }
  }

  lemma EveryQueueIsSafe<T>(maxSize: nat, steps: seq<Step<T>>)
    requires IsRun(Start(maxSize), steps)
    ensures Inv(After(Start(maxSize), steps))
  {
    EveryRunKeepsInv(Start(maxSize), steps);
  }

  // ---------- Every thread pushes its own item ----------

  /** A thread that waits to push after a step asked for it by that step, or was waiting
      before it with the same item; and nobody but the stepping thread stops waiting. */
  lemma StepKeepsItems<T>(m: Monitor<T>, step: Step<T>, t: nat)
    requires Enabled(m, step)
    ensures var r := Apply(m, step);
            t in r.waiting && r.waiting[t].Pushing? ==>
              if step.Push? && step.t == t then r.waiting[t].item == step.item
              else t in m.waiting && m.waiting[t].Pushing? && r.waiting[t].item == m.waiting[t].item
    ensures t in m.waiting && !(step.ResumePush? && step.t == t) && !(step.ResumePop? && step.t == t) ==>
              t in Apply(m, step).waiting && Apply(m, step).waiting[t].Pushing? == m.waiting[t].Pushing?
  {
  }

  /** The item of the last call of Push by t. */
  ghost function Asked<T>(steps: seq<Step<T>>, t: nat): (item: Option<T>)
    decreases |steps|
  {
    if steps == [] then None
    else
      var last := steps[|steps| - 1];
      if last.Push? && last.t == t then Some(last.item) else Asked(steps[..|steps| - 1], t)
  }

  lemma {:induction false} RunInParts<T>(m: Monitor<T>, steps: seq<Step<T>>, last: Step<T>)
    requires IsRun(m, steps + [last])
    ensures IsRun(m, steps) && Enabled(After(m, steps), last)
    ensures After(m, steps + [last]) == Apply(After(m, steps), last)
    decreases |steps|
  {
    if steps == [] {
      assert (steps + [last])[0] == last && (steps + [last])[1..] == [];
    } else {
      assert (steps + [last])[0] == steps[0] && (steps + [last])[1..] == steps[1..] + [last];
      RunInParts(Apply(m, steps[0]), steps[1..], last);
    }
  }

  /** Over any run, a thread waiting to push holds the item it called Push with. */
  lemma {:induction false} WaitersHoldTheirItems<T>(maxSize: nat, steps: seq<Step<T>>, t: nat)
    requires IsRun(Start(maxSize), steps)
    ensures var m := After(Start(maxSize), steps);
            t in m.waiting && m.waiting[t].Pushing? ==> Asked(steps, t) == Some(m.waiting[t].item)
    decreases |steps|
  {
    if steps != [] {
      var before, last := steps[..|steps| - 1], steps[|steps| - 1];
      assert steps == before + [last];
      RunInParts(Start(maxSize), before, last);
      WaitersHoldTheirItems(maxSize, before, t);
      StepKeepsItems(After(Start(maxSize), before), last, t);
    }
  }

  /** The item that a step may put into the queue, as the callers gave it. */
  ghost function Offered<T>(steps: seq<Step<T>>, step: Step<T>): (item: Option<T>)
  {
    match step
    case Push(t, item, chosen) => Some(item)
    case PushIfNotFull(item, chosen) => Some(item)
    case ResumePush(t, chosen) => Asked(steps, t)
    case _ => None
  }

  /** Over any run, a step accepts exactly the item its thread called Push with, and it
      does so exactly if it has one and the queue is not full. */
  lemma EveryoneIsServed<T>(maxSize: nat, steps: seq<Step<T>>, step: Step<T>)
    requires IsRun(Start(maxSize), steps) && Enabled(After(Start(maxSize), steps), step)
    ensures step.ResumePush? ==> Asked(steps, step.t).Some?
    ensures var m := After(Start(maxSize), steps);
            var offered := Offered(steps, step);
            Apply(m, step).pushed == if offered.Some? && !Full(m) then m.pushed + [offered.value] else m.pushed
    ensures var m := After(Start(maxSize), steps);
            var taking := step.Pop? || step.ResumePop? || step.PopIfNotEmpty?;
            Apply(m, step).popped == if taking && m.queue != [] then m.popped + [m.queue[0]] else m.popped
  {
    if step.ResumePush? {
      WaitersHoldTheirItems(maxSize, steps, step.t);
    }
  }

  /** A call that has to wait, and whatever others do meanwhile: the thread's return
      appends the item of the call. */
  lemma {:induction false} BlockedItemIsPushed<T>(m: Monitor<T>, t: nat, item: T, steps: seq<Step<T>>, chosen: nat)
    requires t in m.waiting && m.waiting[t].Pushing? && m.waiting[t].item == item
    requires IsRun(m, steps) && (forall i :: 0 <= i < |steps| ==> !steps[i].ResumePush? || steps[i].t != t)
    ensures var n := After(m, steps);
            t in n.waiting && n.waiting[t].Pushing? && n.waiting[t].item == item
            && (Enabled(n, ResumePush(t, chosen)) ==>
                  var r := Apply(n, ResumePush(t, chosen));
                  if t in r.waiting then r.pushed == n.pushed && r.waiting[t] == Pushing(item, false)
                  else r.pushed == n.pushed + [item])
    decreases |steps|
  {
    if steps != [] {
      StepKeepsItems(m, steps[0], t);
      BlockedItemIsPushed(Apply(m, steps[0]), t, item, steps[1..], chosen);
    }
  }

  /** With nobody woken, a consumer sleeps only on an empty queue and a producer
      only on a full one; so not both. */
  lemma NobodySleepsForNothing<T>(m: Monitor<T>)
    requires Inv(m) && WokenPoppers(m) == {} && WokenPushers(m) == {}
    ensures AsleepPoppers(m) != {} ==> m.queue == []
    ensures AsleepPushers(m) != {} ==> Full(m)
    ensures AsleepPoppers(m) == {} || AsleepPushers(m) == {}
  {
  }

  /** A consumer waiting beside a queued item means that some consumer can take it now. */
  lemma WaitingConsumerIsServed<T>(m: Monitor<T>) returns (t: nat, chosen: nat)
    requires Inv(m) && m.queue != [] && AsleepPoppers(m) != {}
    ensures Enabled(m, ResumePop(t, chosen))
    ensures var r := Apply(m, ResumePop(t, chosen));
            r.popped == m.popped + [m.queue[0]] && t !in r.waiting
  {
    assert WokenPoppers(m) != {};
    t :| t in WokenPoppers(m);
    chosen := Chosen(AsleepPushers(m));
  }

  lemma Chosen(s: set<nat>) returns (chosen: nat)
    ensures MayChoose(s, chosen)
  {
    chosen := 0;
    if c :| c in s {
      chosen := c;
    }
  }

  /** And a producer waiting beside a free slot that some producer can fill it. */
  lemma WaitingProducerIsServed<T>(m: Monitor<T>) returns (t: nat, chosen: nat)
    requires Inv(m) && !Full(m) && AsleepPushers(m) != {}
    ensures Enabled(m, ResumePush(t, chosen))
    ensures var r := Apply(m, ResumePush(t, chosen));
            r.pushed == m.pushed + [m.waiting[t].item] && t !in r.waiting
  {
    assert WokenPushers(m) != {};
    t :| t in WokenPushers(m);
    chosen := Chosen(AsleepPoppers(m));
  }

  // ---------- The queue object ----------

  /** The shared object: each method is one stretch of code under the mutex. Blocking
      calls come in two, the call itself and the return from a wait. */
  class ConcurrentQueue<T> {
    const maxSize: nat
    var queue: seq<T>
    var waiting: map<nat, Phase<T>>
    ghost var pushed: seq<T>
    ghost var popped: seq<T>

    ghost function View(): (m: Monitor<T>)
      reads this
    {
      Monitor(queue, maxSize, waiting, pushed, popped)
    }

    constructor (maxSize: nat)
      ensures View() == Start(maxSize) && Inv(View())
    {
      this.maxSize := maxSize;
      queue := [];
      waiting := map[];
      pushed := [];
      popped := [];
    }

    predicate FullNoLock()
      reads this
      ensures FullNoLock() == Full(View())
    {
      if maxSize == 0 then false else |queue| >= maxSize
    }

    method NotifyOneNotEmpty(chosen: nat)
      modifies this`waiting
      ensures View() == NotifyPopper(old(View()), chosen)
    {
      if chosen in waiting && waiting[chosen].Popping? && !waiting[chosen].woken {
        waiting := waiting[chosen := Popping(true)];
      }
    }

    method NotifyOneNotFull(chosen: nat)
      modifies this`waiting
      ensures View() == NotifyPusher(old(View()), chosen)
    {
      if chosen in waiting && waiting[chosen].Pushing? && !waiting[chosen].woken {
        waiting := waiting[chosen := Pushing(waiting[chosen].item, true)];
      }
    }

    method Push(t: nat, item: T, chosen: nat) returns (done: bool)
      requires Inv(View()) && Enabled(View(), Step.Push(t, item, chosen))
      modifies this
      ensures View() == Apply(old(View()), Step.Push(t, item, chosen)) && Inv(View())
      ensures done <==> t !in waiting
      ensures done <==> !old(FullNoLock())
      ensures done ==> pushed == old(pushed) + [item]
      ensures !done ==> queue == old(queue) && pushed == old(pushed) && waiting == old(waiting)[t := Pushing(item, false)]
    {
      StepKeepsInv(View(), Step.Push(t, item, chosen));
      if FullNoLock() {
        waiting := waiting[t := Pushing(item, false)];
        return false;
      }
      queue := queue + [item];
      pushed := pushed + [item];
      NotifyOneNotEmpty(chosen);
      done := true;
    }

    method ResumePush(t: nat, chosen: nat) returns (done: bool)
      requires Inv(View()) && Enabled(View(), Step.ResumePush(t, chosen))
      modifies this
      ensures View() == Apply(old(View()), Step.ResumePush(t, chosen)) && Inv(View())
      ensures done <==> t !in waiting
      ensures done <==> !old(FullNoLock())
      ensures done ==> pushed == old(pushed) + [old(waiting)[t].item]
      ensures !done ==> queue == old(queue) && pushed == old(pushed)
                        && waiting == old(waiting)[t := Pushing(old(waiting)[t].item, false)]
    {
      StepKeepsInv(View(), Step.ResumePush(t, chosen));
      var item := waiting[t].item;
      waiting := waiting - {t};
      if FullNoLock() {
        waiting := waiting[t := Pushing(item, false)];
        return false;
      }
      queue := queue + [item];
      pushed := pushed + [item];
      NotifyOneNotEmpty(chosen);
      done := true;
    }

    method PushIfNotFull(item: T, chosen: nat) returns (done: bool)
      requires Inv(View()) && Enabled(View(), Step.PushIfNotFull(item, chosen))
      modifies this
      ensures View() == Apply(old(View()), Step.PushIfNotFull(item, chosen)) && Inv(View())
      ensures done <==> !old(FullNoLock())
      ensures pushed == if done then old(pushed) + [item] else old(pushed)
    {
      StepKeepsInv(View(), Step.PushIfNotFull(item, chosen));
      if FullNoLock() {
        return false;
      }
      queue := queue + [item];
      pushed := pushed + [item];
      NotifyOneNotEmpty(chosen);
      done := true;
    }

    method Pop(t: nat, chosen: nat) returns (front: Option<T>)
      requires Inv(View()) && Enabled(View(), Step.Pop(t, chosen))
      modifies this
      ensures View() == Apply(old(View()), Step.Pop(t, chosen)) && Inv(View())
      ensures front.None? <==> t in waiting
      ensures front == if old(queue) == [] then None else Some(old(queue)[0])
      ensures front.Some? ==> popped == old(popped) + [front.value]
    {
      StepKeepsInv(View(), Step.Pop(t, chosen));
      if queue == [] {
        waiting := waiting[t := Popping(false)];
        return None;
      }
      front := Some(queue[0]);
      queue, popped := queue[1..], popped + [queue[0]];
      NotifyOneNotFull(chosen);
    }

    method ResumePop(t: nat, chosen: nat) returns (front: Option<T>)
      requires Inv(View()) && Enabled(View(), Step.ResumePop(t, chosen))
      modifies this
      ensures View() == Apply(old(View()), Step.ResumePop(t, chosen)) && Inv(View())
      ensures front.None? <==> t in waiting
      ensures front == if old(queue) == [] then None else Some(old(queue)[0])
      ensures front.Some? ==> popped == old(popped) + [front.value]
    {
      StepKeepsInv(View(), Step.ResumePop(t, chosen));
      waiting := waiting - {t};
      if queue == [] {
        waiting := waiting[t := Popping(false)];
        return None;
      }
      front := Some(queue[0]);
      queue, popped := queue[1..], popped + [queue[0]];
      NotifyOneNotFull(chosen);
    }

    method PopIfNotEmpty(chosen: nat) returns (front: Option<T>)
      requires Inv(View()) && Enabled(View(), Step.PopIfNotEmpty(chosen))
      modifies this
      ensures View() == Apply(old(View()), Step.PopIfNotEmpty(chosen)) && Inv(View())
      ensures front == if old(queue) == [] then None else Some(old(queue)[0])
      ensures popped == if front.Some? then old(popped) + [front.value] else old(popped)
    {
      StepKeepsInv(View(), Step.PopIfNotEmpty(chosen));
      if queue == [] {
        return None;
      }
      front := Some(queue[0]);
      queue, popped := queue[1..], popped + [queue[0]];
      NotifyOneNotFull(chosen);
    }
  }
}
