/** What ticks, service calls and the kernel task do to the scheduler and the mutexes, on snapshots of
    their state. */
module Events {
  import opened Wrappers
  import opened TaskLists
  import opened Placement
  import opened Scheduler

  // ----- the table of held mutexes -----

  ghost predicate NoDuplicates(h: seq<Mutex?>) {
    forall i, j :: 0 <= i < j < |h| && h[i] != null ==> h[i] != h[j]
  }

  /** The first place that holds `x`, or the end. */
  function FirstOf(h: seq<Mutex?>, x: Mutex?): (i: nat)
    ensures i <= |h| && (i < |h| ==> h[i] == x) && forall j :: 0 <= j < i ==> h[j] != x
  {
    if h == [] || h[0] == x then 0 else 1 + FirstOf(h[1..], x)
  }

  lemma FirstIs(h: seq<Mutex?>, x: Mutex?, i: nat)
    requires i < |h| && h[i] == x && forall j :: 0 <= j < i ==> h[j] != x
    ensures FirstOf(h, x) == i
  {
  }

  lemma InsertKeeps(h: seq<Mutex?>, m: Mutex)
    requires null in h && NoDuplicates(h) && m !in h
    ensures var r := h[FirstOf(h, null) := m];
            NoDuplicates(r) && m in r && forall x: Mutex :: x in r <==> x in h || x == m
  {
    var k := FirstOf(h, null);
    var r := h[k := m];
    assert r[k] == m;
    forall x: Mutex | x in h ensures x in r {
      var j :| 0 <= j < |h| && h[j] == x;
      assert r[j] == x;
    }
  }

  lemma RemoveKeeps(h: seq<Mutex?>, m: Mutex)
    requires m in h && NoDuplicates(h)
    ensures var r := h[FirstOf(h, m) := null];
            NoDuplicates(r) && m !in r && forall x: Mutex :: x in r <==> x in h && x != m
  {
    var k := FirstOf(h, m);
    var r := h[k := null];
    forall x: Mutex | x in h && x != m ensures x in r {
      var j :| 0 <= j < |h| && h[j] == x;
      assert r[j] == x;
    }
  }

  // ----- events -----

  /** What can happen to the system: ticks, calls of the current task, and steps of the kernel task.
      Tasks and mutexes are numbered in the order in which they were made. */
  datatype Event =
    | TickEvent
    | Yield
    | SwitchTo(task: nat)
    | Register(priority: nat, period: nat)
    | EndRun
    | AbortRun
    | MakeMutex
    | Acquire(mutex: nat)
    | Release(mutex: nat)
    | ReapStep

  /** Why the kernel stops. */
  datatype Panic = DoubleAcquire | Deadlock | TooManyHeld | HeldByUnset

  datatype Outcome = Acquired | Refused | Stopped(panic: Panic)

  // ----- snapshots -----

  /** The state of the lists, of the tasks and of the mutexes. Tasks and mutexes are also there in the
      order in which they were made; the first two tasks are the kernel task and the sleep task. */
  datatype Snapshot = Snapshot(
    curr: TaskCtrl?,
    runnable: seq<TaskCtrl>, periodic: seq<TaskCtrl>, freed: seq<TaskCtrl>,
    registered: set<TaskCtrl>, terminated: set<TaskCtrl>, total: int,
    ticks: map<TaskCtrl, nat>, held: map<TaskCtrl, seq<Mutex?>>, waits: map<TaskCtrl, Mutex?>,
    holder: map<Mutex, TaskCtrl?>, waiter: map<Mutex, TaskCtrl?>,
    reaped: TaskCtrl?, reapIndex: nat,
    tasks: seq<TaskCtrl>, locks: seq<Mutex>)

  /** The parts fit together: there is a current task and a sleep task, both runnable, and all that is
      named is known. */
  ghost predicate Well(a: Snapshot) {
    && a.curr != null && a.curr in a.runnable && (forall t :: t in a.runnable ==> t in a.registered)
    && |a.tasks| >= 2 && a.tasks[1] in a.runnable && (forall t :: t in a.tasks ==> t in a.registered)
    && a.ticks.Keys == a.registered && a.held.Keys == a.registered && a.waits.Keys == a.registered
    && a.holder.Keys == a.waiter.Keys && (forall m :: m in a.locks ==> m in a.holder)
    && (forall m :: m in a.holder && a.holder[m] != null ==> a.holder[m] in a.registered)
    && (forall t :: t in a.waits && a.waits[t] != null ==> a.waits[t] in a.holder)
    && (a.curr.period > 0 ==> a.curr in a.periodic)
    && (a.reaped != null ==> a.reaped in a.registered && a.reapIndex <= HELD_MUTEXES_MAX == |a.held[a.reaped]|)
    && (a.reaped != null && a.reapIndex < HELD_MUTEXES_MAX && a.held[a.reaped][a.reapIndex] != null ==>
          a.held[a.reaped][a.reapIndex] in a.holder)
  }

  // ----- what every run keeps -----

  /** The task is recorded as waiting for a mutex that the other holds. */
  ghost predicate AwaitsIn(a: Snapshot, t: TaskCtrl, u: TaskCtrl) {
    t in a.waits && a.waits[t] != null && a.waits[t] in a.holder && a.holder[a.waits[t]] == u
  }

  /** The current task is runnable; no task is on a list twice; ended tasks are on neither list and the
      total is that of the others; a mutex is in the table of a task that has not ended exactly when that
      task holds it; and no two tasks are each recorded as waiting for a mutex that the other holds. */
  ghost predicate Safe(a: Snapshot) {
    && Well(a) && Distinct(a.runnable) && Distinct(a.periodic) && Distinct(a.freed)
    && Consistent(a.runnable, a.periodic, a.freed, a.registered, a.terminated, a.total)
    && (forall t, m :: t in a.registered - a.terminated && m in a.holder ==> (m in a.held[t] <==> a.holder[m] == t))
    && (forall t, u :: t in a.registered && u in a.registered && AwaitsIn(a, t, u) ==> !AwaitsIn(a, u, t))
  }

  // ----- switching -----

  /** The first runnable task runs and is placed again. */
  function Yielded(a: Snapshot): Snapshot {
    if a.runnable == [] then a else a.(curr := a.runnable[0], runnable := Turn(a.runnable))
  }

  /** A switch to a task, if it is runnable. */
  function SwitchedTo(a: Snapshot, t: TaskCtrl): Snapshot {
    if t in a.runnable then a.(curr := t) else a
  }

  // ----- ticks -----

  function DueIn(ticks: map<TaskCtrl, nat>): set<TaskCtrl> {
    set t | t in ticks && ticks[t] == 0
  }

  function TickedAll(ticks: map<TaskCtrl, nat>, periodic: seq<TaskCtrl>): map<TaskCtrl, nat> {
    map t | t in ticks :: if t in periodic then Ticked(ticks[t], t.period) else ticks[t]
  }

  /** Every periodic task counts down or starts over; those that are due are made runnable. */
  function AfterTick(a: Snapshot): Snapshot {
    a.(runnable := Woken(a.runnable, a.periodic, DueIn(a.ticks)), ticks := TickedAll(a.ticks, a.periodic))
  }

  // ----- tasks -----

  /** A new task of that priority and period is there, runnable, and on the periodic list if it has a
      period; it holds nothing and waits for nothing. */
  ghost predicate Registers(a: Snapshot, priority: nat, period: nat, b: Snapshot) {
    && |b.tasks| == |a.tasks| + 1
    && var t := b.tasks[|a.tasks|];
       && t !in a.registered && t.priority == priority && t.period == period
       && b == a.(runnable := Placed(a.runnable, t),
                  periodic := if period > 0 then Placed(a.periodic, t) else a.periodic,
                  registered := a.registered + {t}, total := a.total + 1,
                  ticks := a.ticks[t := period], held := a.held[t := seq(HELD_MUTEXES_MAX, _ => null)],
                  waits := a.waits[t := null], tasks := a.tasks + [t])
  }

  /** The current task leaves the runnable list, and the first of the rest runs. If it is through for
      good, it leaves the periodic list, has ended, and is queued to be freed. */
  function Departed(a: Snapshot, forGood: bool): Snapshot
    requires a.curr != null && a.curr in a.runnable && (a.curr.period > 0 ==> a.curr in a.periodic)
  {
    var t := a.curr;
    var b := Yielded(a.(runnable := Without(a.runnable, t)));
    if !forGood then b
    else b.(periodic := if t.period > 0 then Without(a.periodic, t) else a.periodic,
            freed := [t] + a.freed, terminated := a.terminated + {t}, total := a.total - 1)
  }

  // ----- mutexes -----

  /** A new mutex is there, free and waited for by nobody. */
  ghost predicate Makes(a: Snapshot, b: Snapshot) {
    && |b.locks| == |a.locks| + 1
    && var m := b.locks[|a.locks|];
       && m !in a.holder
       && b == a.(holder := a.holder[m := null], waiter := a.waiter[m := null], locks := a.locks + [m])
  }

  /** What an acquire of `m` by the current task comes to. */
  function OutcomeIn(a: Snapshot, m: Mutex): Outcome
    requires a.curr != null && a.curr in a.held && m in a.holder
  {
    var h := a.holder[m];
    if h == null then if null in a.held[a.curr] then Acquired else Stopped(TooManyHeld)
    else if h == a.curr then Stopped(DoubleAcquire)
    else if h in a.waits && a.waits[h] != null && a.waits[h] in a.held[a.curr] then Stopped(Deadlock)
    else Refused
  }

  /** An acquire stops the kernel for a cycle of two exactly when the holder is recorded as waiting for a
      mutex of the current task. */
  lemma DetectedIffRecorded(a: Snapshot, m: Mutex)
    requires Safe(a) && m in a.holder && a.holder[m] != null && a.holder[m] != a.curr
    ensures OutcomeIn(a, m) == Stopped(Deadlock) <==> AwaitsIn(a, a.holder[m], a.curr)
  {
    assert a.curr in a.registered - a.terminated;
  }

  /** What each outcome means: a free mutex is taken if one of the current task's places is empty, and
      otherwise stops the kernel; one that is held stops it when the caller holds it, or when the holder is
      recorded as waiting for a mutex of the caller's, and is refused otherwise. */
  lemma OutcomeIs(a: Snapshot, m: Mutex)
    requires Safe(a) && m in a.holder
    ensures var o, h, places := OutcomeIn(a, m), a.holder[m], a.held[a.curr];
            && (o == Acquired <==> h == null && null in places)
            && (o == Stopped(TooManyHeld) <==> h == null && null !in places)
            && (o == Stopped(DoubleAcquire) <==> h == a.curr)
            && (o == Stopped(Deadlock) <==> h != null && h != a.curr && AwaitsIn(a, h, a.curr))
            && (o == Refused <==> h != null && h != a.curr && !AwaitsIn(a, h, a.curr))
  {
    assert a.curr in a.registered - a.terminated;
  }

  /** The mutex is the current task's. */
  function Took(a: Snapshot, m: Mutex): Snapshot
    requires a.curr != null && a.curr in a.held
  {
    var t := a.curr;
    var k := FirstOf(a.held[t], null);
    a.(holder := a.holder[m := t], waits := a.waits[t := null],
       held := a.held[t := if k < |a.held[t]| then a.held[t][k := m] else a.held[t]])
  }

  /** The current task is recorded as waiting for the mutex, unless a task of at least its priority is. */
  function Queued(a: Snapshot, m: Mutex): Snapshot
    requires a.curr != null && m in a.waiter
  {
    if a.waiter[m] == null || a.waiter[m].priority < a.curr.priority then
      a.(waiter := a.waiter[m := a.curr], waits := a.waits[a.curr := m])
    else a
  }

  /** The holder runs, if it can and is not above the current task; otherwise the first runnable task. */
  function GaveWayTo(a: Snapshot, holder: TaskCtrl): Snapshot
    requires a.curr != null
  {
    if holder in a.runnable && holder.priority <= a.curr.priority then a.(curr := holder) else Yielded(a)
  }

  /** An acquire that does not stop the kernel. */
  function AfterAcquire(a: Snapshot, m: Mutex): Snapshot
    requires Well(a) && m in a.holder
  {
    match OutcomeIn(a, m)
    case Acquired => Took(a, m)
    case Refused => GaveWayTo(Queued(a, m), a.holder[m])
    case Stopped(_) => a
  }

  /** A waiter of at least the current task's priority is taken off, and runs if it is runnable. */
  function WokeWaiter(a: Snapshot, m: Mutex): Snapshot
    requires a.curr != null && m in a.waiter
  {
    var w := a.waiter[m];
    if w != null && w.priority >= a.curr.priority then SwitchedTo(a.(waiter := a.waiter[m := null]), w) else a
  }

  /** The mutex is nobody's, and in the current task's table no more. */
  function Freed(a: Snapshot, m: Mutex): Snapshot
    requires a.curr != null && a.curr in a.held
  {
    var t := a.curr;
    var k := FirstOf(a.held[t], m);
    a.(holder := a.holder[m := null], held := a.held[t := if k < |a.held[t]| then a.held[t][k := null] else a.held[t]])
  }

  /** A release by the current task; only the holder is one to release. */
  function AfterRelease(a: Snapshot, m: Mutex): Snapshot
    requires Well(a) && m in a.holder
  {
    if a.holder[m] != a.curr then a else WokeWaiter(Freed(a, m), m)
  }

  // ----- the kernel task -----

  /** The next step of the kernel task, when it is the one that runs: it takes the task that has waited
      longest to be freed, releases the mutexes in its table one by one, and frees it. */
  function AfterReap(a: Snapshot): Snapshot
    requires Well(a)
  {
    if a.curr != a.tasks[0] then a
    else if a.reaped == null then
      if a.freed == [] then a
      else a.(reaped := a.freed[|a.freed| - 1], reapIndex := 0, freed := a.freed[..|a.freed| - 1])
    else if a.reapIndex < HELD_MUTEXES_MAX then
      var m := a.held[a.reaped][a.reapIndex];
      var b := a.(reapIndex := a.reapIndex + 1);
      if m == null then b else WokeWaiter(b.(holder := a.holder[m := null]), m)
    else a.(reaped := null)
  }

  // ----- one event -----

  /** The event takes one state to the other. Those that name no task or mutex, or would end the sleep
      task, do nothing. */
  ghost predicate Effect(a: Snapshot, e: Event, b: Snapshot)
    requires Well(a)
  {
    match e
    case TickEvent => b == AfterTick(a)
    case Yield => b == Yielded(a)
    case SwitchTo(i) => b == if i < |a.tasks| then SwitchedTo(a, a.tasks[i]) else a
    case Register(priority, period) => Registers(a, priority, period, b)
    case EndRun => b == if a.curr == a.tasks[1] then a else Departed(a, a.curr.period == 0)
    case AbortRun => b == if a.curr == a.tasks[1] then a else Departed(a, true)
    case MakeMutex => Makes(a, b)
    case Acquire(i) => if i < |a.locks| then !OutcomeIn(a, a.locks[i]).Stopped? && b == AfterAcquire(a, a.locks[i]) else b == a
    case Release(i) => b == if i < |a.locks| then AfterRelease(a, a.locks[i]) else a
    case ReapStep => b == AfterReap(a)
  }

  /** The event stops the kernel: it is an acquire, and this is what the acquire comes to. */
  ghost predicate Stops(a: Snapshot, e: Event, why: Panic)
    requires Well(a)
  {
    e.Acquire? && e.mutex < |a.locks| && OutcomeIn(a, a.locks[e.mutex]) == Stopped(why)
  }

  /** A run of these events: every state but the first follows from the one before. */
  ghost predicate Follows(trace: seq<Snapshot>, events: seq<Event>, i: nat)
    requires i + 1 < |trace| && i < |events|
  {
    Well(trace[i]) && Effect(trace[i], events[i], trace[i + 1])
  }

  /** A run of the events, up to the first that stops the kernel if one does; all states are safe. */
  ghost predicate IsRun(trace: seq<Snapshot>, events: seq<Event>, stop: Option<Panic>) {
    && 1 <= |trace| <= |events| + 1
    && (forall i {:trigger Follows(trace, events, i)} :: 0 <= i < |trace| - 1 ==> Follows(trace, events, i))
    && (forall i {:trigger trace[i]} :: 0 <= i < |trace| ==> Safe(trace[i]))
    && (if stop.None? then |trace| == |events| + 1
        else |trace| <= |events| && Stops(trace[|trace| - 1], events[|trace| - 1], stop.value))
  }

  /** The task's table is empty, and it waits for nothing. */
  ghost predicate HasNothing(a: Snapshot, t: TaskCtrl) {
    && t in a.held && |a.held[t]| == HELD_MUTEXES_MAX && (forall x :: x in a.held[t] ==> x == null)
    && t in a.waits && a.waits[t] == null
  }

  /** A run ends before its time only at an acquire: of a free mutex by a task without an empty place for
      it, of a mutex by its holder, or of a mutex whose holder is recorded as waiting for one of the
      caller's. */
  lemma StoppedBy(trace: seq<Snapshot>, events: seq<Event>, stop: Option<Panic>)
    requires IsRun(trace, events, stop) && stop.Some?
    ensures var a, e := trace[|trace| - 1], events[|trace| - 1];
            && Safe(a) && e.Acquire? && e.mutex < |a.locks|
            && var m := a.locks[e.mutex];
               match stop.value
               case TooManyHeld => a.holder[m] == null && null !in a.held[a.curr]
               case DoubleAcquire => a.holder[m] == a.curr
               case Deadlock => a.holder[m] != null && a.holder[m] != a.curr && AwaitsIn(a, a.holder[m], a.curr)
               case HeldByUnset => false
  {
    var a, e := trace[|trace| - 1], events[|trace| - 1];
    assert Safe(a);
    OutcomeIs(a, a.locks[e.mutex]);
  }

  /** And it does end at such an acquire: an event that is followed by another state is none. */
  lemma NotStopped(trace: seq<Snapshot>, events: seq<Event>, stop: Option<Panic>, i: nat)
    requires IsRun(trace, events, stop) && i + 1 < |trace| && events[i].Acquire? && events[i].mutex < |trace[i].locks|
    ensures var a := trace[i];
            && Safe(a)
            && var h := a.holder[a.locks[events[i].mutex]];
               if h == null then null in a.held[a.curr] else h != a.curr && !AwaitsIn(a, h, a.curr)
  {
    assert Safe(trace[i]) && Follows(trace, events, i);
    hide IsRun, AfterAcquire;
    OutcomeIs(trace[i], trace[i].locks[events[i].mutex]);
  }

  /** No task has ended, there are no mutexes, and nothing is held or waited for. */
  ghost predicate Untried(a: Snapshot) {
    && a.terminated == {} && a.holder == map[] && a.waiter == map[] && a.locks == []
    && forall t :: t in a.registered ==> HasNothing(a, t)
  }

  // ----- effects told by what has become of the fields -----

  /** What an acquire that is not refused leaves. */
  lemma TookIs(a: Snapshot, m: Mutex, b: Snapshot)
    requires Well(a) && m in a.holder && OutcomeIn(a, m) == Acquired
    requires b == a.(holder := a.holder[m := a.curr], waiter := a.waiter[m := a.waiter[m]],
                     waits := a.waits[a.curr := null],
                     held := a.held[a.curr := a.held[a.curr][FirstOf(a.held[a.curr], null) := m]])
    ensures b == AfterAcquire(a, m)
  {
    assert a.waiter[m := a.waiter[m]] == a.waiter;
  }

  /** What a refused one leaves. */
  lemma RefusedIs(a: Snapshot, m: Mutex, b: Snapshot)
    requires Well(a) && m in a.holder && OutcomeIn(a, m) == Refused
    requires var h, recorded := a.holder[m], a.waiter[m] == null || a.waiter[m].priority < a.curr.priority;
             && a.runnable != [] && b.holder == a.holder[m := h] && b.held == a.held[a.curr := a.held[a.curr]]
             && b.waiter == a.waiter[m := if recorded then a.curr else a.waiter[m]]
             && b.waits == a.waits[a.curr := if recorded then m else a.waits[a.curr]]
             && b.curr == (if h in a.runnable && h.priority <= a.curr.priority then h else a.runnable[0])
             && b.runnable == (if h in a.runnable && h.priority <= a.curr.priority then a.runnable else Turn(a.runnable))
             && b == a.(curr := b.curr, runnable := b.runnable, holder := b.holder, waiter := b.waiter, waits := b.waits, held := b.held)
    ensures b == AfterAcquire(a, m)
  {
    hide Turn, OutcomeIn;
    assert b.holder == a.holder && b.held == a.held;
    assert a.waiter[m := a.waiter[m]] == a.waiter && a.waits[a.curr := a.waits[a.curr]] == a.waits;
  }

  /** Whom a release lets run. */
  function NextAfter(a: Snapshot, m: Mutex): TaskCtrl?
    requires a.curr != null && m in a.waiter
  {
    var w := a.waiter[m];
    if w != null && w.priority >= a.curr.priority && w in a.runnable then w else a.curr
  }

  function WaiterAfter(a: Snapshot, m: Mutex): TaskCtrl?
    requires a.curr != null && m in a.waiter
  {
    var w := a.waiter[m];
    if w != null && w.priority >= a.curr.priority then null else w
  }

  lemma ReleasedIs(a: Snapshot, m: Mutex, b: Snapshot)
    requires Well(a) && m in a.holder && a.holder[m] == a.curr && m in a.held[a.curr]
    requires b == a.(curr := NextAfter(a, m), holder := a.holder[m := null], waiter := a.waiter[m := WaiterAfter(a, m)],
                     held := a.held[a.curr := a.held[a.curr][FirstOf(a.held[a.curr], m) := null]])
    ensures b == AfterRelease(a, m)
  {
    assert a.waiter[m := a.waiter[m]] == a.waiter;
  }

  lemma IdleReap(a: Snapshot)
    requires Well(a) && (a.curr != a.tasks[0] || (a.reaped == null && a.freed == []))
    ensures AfterReap(a) == a
  {
  }

  lemma NoneReapedIs(a: Snapshot)
    requires Well(a) && a.curr == a.tasks[0] && a.reaped != null && a.reapIndex < HELD_MUTEXES_MAX
    requires a.held[a.reaped][a.reapIndex] == null
    ensures AfterReap(a) == a.(reapIndex := a.reapIndex + 1)
  {
  }

  lemma ReapedIs(a: Snapshot, m: Mutex, b: Snapshot)
    requires Well(a) && a.curr == a.tasks[0] && a.reaped != null && a.reapIndex < HELD_MUTEXES_MAX
    requires m == a.held[a.reaped][a.reapIndex] && m in a.holder
    requires b == a.(curr := NextAfter(a, m), holder := a.holder[m := null], waiter := a.waiter[m := WaiterAfter(a, m)],
                     reapIndex := a.reapIndex + 1)
    ensures b == AfterReap(a)
  {
    assert a.waiter[m := a.waiter[m]] == a.waiter;
  }
}
