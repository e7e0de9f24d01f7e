/** A cycle of two waiting tasks that the deadlock check of kernel/mutex.c never sees, in a run from
    start-up. */
module Crossing {
  import opened Wrappers
  import opened TaskLists
  import opened Placement
  import opened Scheduler
  import opened Events
  import opened MutexCalls

  /** Three boot tasks of priorities 4, 6 and 5, with the numbers 2, 3 and 4. The first takes mutex 0 and
      the third mutex 1; the second asks for 0 and is recorded; the third asks for 0 and is not, as its
      priority is lower; and then the first asks for 1. */
  function BootTasks(): seq<(nat, nat)> {
    [(4, 0), (6, 0), (5, 0)]
  }

  function CrossedEvents(): (events: seq<Event>)
    ensures |events| == 12
  {
    [MakeMutex, MakeMutex, SwitchTo(2), Acquire(0), SwitchTo(4), Acquire(1)]
    + [SwitchTo(3), Acquire(0), SwitchTo(4), Acquire(0), SwitchTo(2), Acquire(1)]
  }

  /** The tasks `u`, `v` and `t` have these numbers and priorities, and can run. */
  ghost predicate Cast(a: Snapshot, u: TaskCtrl, v: TaskCtrl, t: TaskCtrl) {
    && Well(a) && |a.tasks| == 5 && a.tasks[2] == u && a.tasks[3] == v && a.tasks[4] == t
    && u in a.runnable && v in a.runnable && t in a.runnable
    && u.priority == 4 && v.priority == 6 && t.priority == 5 && u.period == v.period == t.period == 0
  }

  /** The mutexes have the numbers 0 and 1. */
  ghost predicate Locks(a: Snapshot, m: Mutex, w: Mutex) {
    && |a.locks| == 2 && a.locks[0] == m && a.locks[1] == w && m != w && m in a.holder && w in a.holder
  }

  /** A run goes on past a state whose event does not stop the kernel. */
  lemma GoesOn(trace: seq<Snapshot>, events: seq<Event>, stop: Option<Panic>, k: nat)
    requires IsRun(trace, events, stop) && k < |trace| && k < |events|
    requires Well(trace[k]) && forall why :: !Stops(trace[k], events[k], why)
    ensures k + 1 < |trace| && Well(trace[k + 1]) && Effect(trace[k], events[k], trace[k + 1])
  {
    hide Effect, Stops, Well, Safe;
    assert k + 1 < |trace|;
    assert Follows(trace, events, k) && Safe(trace[k + 1]);
    assert Well(trace[k + 1]) by {
      SafeIsWell(trace[k + 1]);
    }
  }

  lemma SafeIsWell(a: Snapshot)
    requires Safe(a)
    ensures Well(a)
  {
  }

  // ----- one call after a switch -----

  /** A switch to a task that can run, and its acquire of a mutex: what it comes to, and what it leaves. */
  lemma SwitchedAcquire(trace: seq<Snapshot>, events: seq<Event>, stop: Option<Panic>, k: nat, i: nat, j: nat)
    requires IsRun(trace, events, stop) && k < |trace| && k + 1 < |events| && Well(trace[k])
    requires events[k] == SwitchTo(i) && events[k + 1] == Acquire(j)
    requires i < |trace[k].tasks| && trace[k].tasks[i] in trace[k].runnable && j < |trace[k].locks|
    requires !OutcomeIn(trace[k].(curr := trace[k].tasks[i]), trace[k].locks[j]).Stopped?
    ensures k + 2 < |trace| && Well(trace[k + 2]) && Well(trace[k + 1]) && trace[k + 1] == trace[k].(curr := trace[k].tasks[i])
    ensures trace[k + 2] == AfterAcquire(trace[k + 1], trace[k].locks[j])
  {
    hide Well, AfterAcquire, OutcomeIn, IsRun;
    WellParts(trace[k]);
    GoesOn(trace, events, stop, k);
    assert trace[k + 1] == trace[k].(curr := trace[k].tasks[i]);
    GoesOn(trace, events, stop, k + 1);
  }

  lemma WellParts(a: Snapshot)
    requires Well(a)
    ensures forall m :: m in a.locks ==> m in a.holder && m in a.waiter
    ensures forall t :: t in a.runnable ==> t in a.held && t in a.waits
  {
  }

  /** A free mutex is taken by a task with an empty table. */
  lemma TakesFree(a: Snapshot, t: TaskCtrl, m: Mutex)
    requires Well(a) && a.curr == t && t in a.runnable && m in a.holder && a.holder[m] == null && HasNothing(a, t)
    ensures OutcomeIn(a, m) == Acquired
    ensures var b := AfterAcquire(a, m);
            && b == a.(holder := a.holder[m := t], waits := a.waits[t := null], held := b.held)
            && b.held.Keys == a.held.Keys && (forall x :: x in a.held && x != t ==> b.held[x] == a.held[x])
  {
    assert a.held[t][0] in a.held[t];
  }

  /** A mutex whose holder waits for nothing is refused to another task, and the holder runs if it can
      and is not above it. */
  lemma RefusedTo(a: Snapshot, t: TaskCtrl, m: Mutex, u: TaskCtrl)
    requires Well(a) && a.curr == t && t in a.runnable && u in a.runnable && u != t && u.priority <= t.priority
    requires m in a.holder && a.holder[m] == u && u in a.waits && a.waits[u] == null
    ensures OutcomeIn(a, m) == Refused
    ensures var recorded := a.waiter[m] == null || a.waiter[m].priority < t.priority;
            AfterAcquire(a, m) ==
              if recorded then a.(curr := u, waiter := a.waiter[m := t], waits := a.waits[t := m]) else a.(curr := u)
  {
  }

  // ----- the run -----

  ghost predicate Start(a: Snapshot, u: TaskCtrl, v: TaskCtrl, t: TaskCtrl) {
    Cast(a, u, v, t) && a.locks == [] && a.holder == map[] && a.waiter == map[] && HasNothing(a, u) && HasNothing(a, v) && HasNothing(a, t)
  }

  /** The mutexes are there; the first `n` of them have been taken, by `u` and by `t`; the first is waited
      for by `v` if `waited`; and `t` waits for nothing. */
  ghost predicate Taken(a: Snapshot, u: TaskCtrl, v: TaskCtrl, t: TaskCtrl, m: Mutex, w: Mutex, n: nat, waited: bool) {
    && Cast(a, u, v, t) && Locks(a, m, w)
    && a.holder[m] == (if n >= 1 then u else null) && a.holder[w] == (if n >= 2 then t else null)
    && a.waiter[m] == (if waited then v else null) && a.waiter[w] == null
    && u in a.waits && a.waits[u] == null && t in a.waits && a.waits[t] == null
    && (n < 1 ==> HasNothing(a, u)) && (n < 2 ==> HasNothing(a, t))
  }

  /** Between the two. */
  ghost predicate OneMade(a: Snapshot, u: TaskCtrl, v: TaskCtrl, t: TaskCtrl, m: Mutex) {
    && Cast(a, u, v, t) && a.locks == [m] && a.holder == map[m := null] && a.waiter == map[m := null]
    && HasNothing(a, u) && HasNothing(a, v) && HasNothing(a, t)
  }

  lemma MakesFirst(a: Snapshot, b: Snapshot, u: TaskCtrl, v: TaskCtrl, t: TaskCtrl)
    requires Start(a, u, v, t) && Makes(a, b) && Well(b)
    ensures |b.locks| == 1 && OneMade(b, u, v, t, b.locks[0])
  {
    hide Well;
  }

  lemma MakesSecond(a: Snapshot, b: Snapshot, u: TaskCtrl, v: TaskCtrl, t: TaskCtrl, m: Mutex)
    requires OneMade(a, u, v, t, m) && Makes(a, b) && Well(b)
    ensures |b.locks| == 2 && Taken(b, u, v, t, m, b.locks[1], 0, false)
  {
    hide Well;
  }

  lemma MakesOne(trace: seq<Snapshot>, events: seq<Event>, stop: Option<Panic>, k: nat)
    requires IsRun(trace, events, stop) && k < |trace| && k < |events| && Well(trace[k]) && events[k] == MakeMutex
    ensures k + 1 < |trace| && Well(trace[k + 1]) && Makes(trace[k], trace[k + 1])
  {
    hide IsRun, Well, Makes;
    GoesOn(trace, events, stop, k);
  }

  lemma HasStart(trace: seq<Snapshot>, events: seq<Event>, stop: Option<Panic>)
    requires IsRun(trace, events, stop)
    ensures |trace| >= 1
  {
    hide Well, Safe, Effect, Stops;
  }

  lemma FirstAndLast()
    ensures CrossedEvents()[0] == MakeMutex && CrossedEvents()[1] == MakeMutex
    ensures CrossedEvents()[10] == SwitchTo(2) && CrossedEvents()[11] == Acquire(1)
  {
  }

  lemma StartIsWell(a: Snapshot, u: TaskCtrl, v: TaskCtrl, t: TaskCtrl)
    requires Start(a, u, v, t)
    ensures Well(a)
  {
  }

  lemma MakeBoth(trace: seq<Snapshot>, stop: Option<Panic>, u: TaskCtrl, v: TaskCtrl, t: TaskCtrl)
    returns (m: Mutex, w: Mutex)
    requires IsRun(trace, CrossedEvents(), stop) && Start(trace[0], u, v, t)
    ensures 2 < |trace| && Taken(trace[2], u, v, t, m, w, 0, false)
  {
    hide *;
    var events := CrossedEvents();
    HasStart(trace, events, stop);
    FirstAndLast();
    StartIsWell(trace[0], u, v, t);
    MakesOne(trace, events, stop, 0);
    MakesFirst(trace[0], trace[1], u, v, t);
    m := trace[1].locks[0];
    MakesOne(trace, events, stop, 1);
    MakesSecond(trace[1], trace[2], u, v, t, m);
    w := trace[2].locks[1];
  }

  lemma TakeFirst(trace: seq<Snapshot>, stop: Option<Panic>, u: TaskCtrl, v: TaskCtrl, t: TaskCtrl, m: Mutex, w: Mutex)
    requires IsRun(trace, CrossedEvents(), stop) && 2 < |trace| && Taken(trace[2], u, v, t, m, w, 0, false)
    ensures 4 < |trace| && Taken(trace[4], u, v, t, m, w, 1, false)
  {
    hide IsRun, Well, AfterAcquire, OutcomeIn;
    SwitchIsWell(trace[2], 2);
    TakesFree(trace[2].(curr := u), u, m);
    SwitchedAcquire(trace, CrossedEvents(), stop, 2, 2, 0);
  }

  lemma TakeSecond(trace: seq<Snapshot>, stop: Option<Panic>, u: TaskCtrl, v: TaskCtrl, t: TaskCtrl, m: Mutex, w: Mutex)
    requires IsRun(trace, CrossedEvents(), stop) && 4 < |trace| && Taken(trace[4], u, v, t, m, w, 1, false)
    ensures 6 < |trace| && Taken(trace[6], u, v, t, m, w, 2, false)
  {
    hide IsRun, Well, AfterAcquire, OutcomeIn;
    SwitchIsWell(trace[4], 4);
    TakesFree(trace[4].(curr := t), t, w);
    SwitchedAcquire(trace, CrossedEvents(), stop, 4, 4, 1);
  }

  lemma SwitchIsWell(a: Snapshot, i: nat)
    requires Well(a) && i < |a.tasks| && a.tasks[i] in a.runnable && a.tasks[i].period == 0
    ensures Well(a.(curr := a.tasks[i]))
  {
  }

  lemma RefuseTwo(trace: seq<Snapshot>, stop: Option<Panic>, u: TaskCtrl, v: TaskCtrl, t: TaskCtrl, m: Mutex, w: Mutex)
    requires IsRun(trace, CrossedEvents(), stop) && 6 < |trace| && Taken(trace[6], u, v, t, m, w, 2, false)
    ensures 10 < |trace| && Taken(trace[10], u, v, t, m, w, 2, true)
    ensures trace[9].curr == t && Well(trace[9]) && m in trace[9].holder && OutcomeIn(trace[9], m) == Refused
  {
    var events := CrossedEvents();
    hide IsRun, Well, AfterAcquire, OutcomeIn;
    SwitchIsWell(trace[6], 3);
    RefusedTo(trace[6].(curr := v), v, m, u);
    SwitchedAcquire(trace, events, stop, 6, 3, 0);
    SwitchIsWell(trace[8], 4);
    RefusedTo(trace[8].(curr := t), t, m, u);
    SwitchedAcquire(trace, events, stop, 8, 4, 0);
  }

  /** The last call. */
  lemma RefuseLast(trace: seq<Snapshot>, stop: Option<Panic>, u: TaskCtrl, v: TaskCtrl, t: TaskCtrl, m: Mutex, w: Mutex)
    requires IsRun(trace, CrossedEvents(), stop) && 10 < |trace| && Taken(trace[10], u, v, t, m, w, 2, true)
    ensures stop.None? && |trace| == 13
    ensures trace[11].curr == u && Well(trace[11]) && w in trace[11].holder && OutcomeIn(trace[11], w) == Refused
    ensures Locks(trace[12], m, w) && trace[12].holder[m] == u && trace[12].holder[w] == t && AwaitsIn(trace[12], u, t)
  {
    var events := CrossedEvents();
    hide IsRun, Well, AfterAcquire, OutcomeIn, AwaitsIn, HasNothing, CrossedEvents;
    FirstAndLast();
    SwitchIsWell(trace[10], 2);
    var a := trace[10].(curr := u);
    LastRefusal(a, u, w, t);
    SwitchedAcquire(trace, events, stop, 10, 2, 1);
    RunOver(trace, events, stop);
  }

  lemma LastRefusal(a: Snapshot, u: TaskCtrl, w: Mutex, t: TaskCtrl)
    requires Well(a) && a.curr == u && u != t && w in a.holder && a.holder[w] == t && a.waiter[w] == null
    requires t in a.waits && a.waits[t] == null
    ensures OutcomeIn(a, w) == Refused
    ensures var b := AfterAcquire(a, w);
            b.locks == a.locks && b.holder == a.holder && u in b.waits && b.waits[u] == w && AwaitsIn(b, u, t)
  {
  }

  lemma RunOver(trace: seq<Snapshot>, events: seq<Event>, stop: Option<Panic>)
    requires IsRun(trace, events, stop) && |trace| > |events|
    ensures stop.None? && |trace| == |events| + 1
  {
  }

  lemma Opening(a: Snapshot, kernelPeriod: nat)
    requires Safe(a) && AreTasks(a.tasks, [(10, kernelPeriod), (0, 0)] + BootTasks())
    requires a.registered == (set t | t in a.tasks) && Untried(a)
    ensures |a.tasks| == 5 && Start(a, a.tasks[2], a.tasks[3], a.tasks[4])
  {
  }

  /** However it starts, the run goes through all its events. At its end each of two tasks has been
      refused the mutex that the other holds, and nothing has stopped the kernel. */
  lemma UndetectedCycle(trace: seq<Snapshot>, stop: Option<Panic>, kernelPeriod: nat)
    requires IsRun(trace, CrossedEvents(), stop)
    requires AreTasks(trace[0].tasks, [(10, kernelPeriod), (0, 0)] + BootTasks())
    requires trace[0].registered == (set t | t in trace[0].tasks) && Untried(trace[0])
    ensures stop.None? && |trace| == 13 && Undetected(trace)
  {
    assert Safe(trace[0]);
    hide IsRun, Safe, Start, Taken, OutcomeIn;
    Opening(trace[0], kernelPeriod);
    var u, v, t := trace[0].tasks[2], trace[0].tasks[3], trace[0].tasks[4];
    var m, w := MakeBoth(trace, stop, u, v, t);
    TakeFirst(trace, stop, u, v, t, m, w);
    TakeSecond(trace, stop, u, v, t, m, w);
    RefuseTwo(trace, stop, u, v, t, m, w);
    RefuseLast(trace, stop, u, v, t, m, w);
  }

  /** The task refused by the tenth event and the one refused by the last each hold what the other asked
      for. */
  ghost predicate Undetected(trace: seq<Snapshot>) {
    && |trace| == 13 && Well(trace[9]) && Well(trace[11])
    && var b, t, u := trace[12], trace[9].curr, trace[11].curr;
       && |b.locks| == 2 && b.locks[0] in trace[9].holder && b.locks[1] in trace[11].holder && t != u
       && OutcomeIn(trace[9], b.locks[0]) == Refused && OutcomeIn(trace[11], b.locks[1]) == Refused
       && b.locks[0] in b.holder && b.holder[b.locks[0]] == u && b.locks[1] in b.holder && b.holder[b.locks[1]] == t
  }

  /** There is such a run. */
  method CrossedRun(kernelPeriod: nat) returns (system: System, stop: Option<Panic>, ghost trace: seq<Snapshot>)
    ensures IsRun(trace, CrossedEvents(), stop) && stop.None? && Undetected(trace)
    ensures system.Valid() && system.kernel.taskSwitching
  {
    hide IsRun, System.Valid, Undetected;
    system, stop, trace := BootAndRun(kernelPeriod, BootTasks(), CrossedEvents());
    UndetectedCycle(trace, stop, kernelPeriod);
  }
}
