/** The mutex service calls of kernel/mutex.c over the scheduler, and the release of abandoned mutexes
    by the kernel task. Every call is one atomic step of the current task. */
module MutexCalls {
  import opened Wrappers
  import opened TaskLists
  import opened Placement
  import opened Scheduler
  import opened Events

  // ----- the table of held mutexes -----

  /** `held_mutexes_insert`, when there is room. */
  method HeldMutexesInsert(t: TaskCtrl, m: Mutex) returns (room: bool)
    modifies t`held
    ensures room == (null in old(t.held))
    ensures t.held == if room then old(t.held)[FirstOf(old(t.held), null) := m] else old(t.held)
  {
    var i := 0;
    while i < |t.held|
      invariant i <= |t.held| && t.held == old(t.held)
      invariant forall j :: 0 <= j < i ==> t.held[j] != null
    {
      if t.held[i] == null {
        FirstIs(t.held, null, i);
        t.held := t.held[i := m];
        return true;
      }
      i := i + 1;
    }
    return false;
  }

  /** `held_mutexes_remove`. */
  method HeldMutexesRemove(t: TaskCtrl, m: Mutex)
    modifies t`held
    ensures t.held == if m in old(t.held) then old(t.held)[FirstOf(old(t.held), m) := null] else old(t.held)
  {
    var i := 0;
    while i < |t.held|
      invariant i <= |t.held| && t.held == old(t.held)
      invariant forall j :: 0 <= j < i ==> t.held[j] != m
    {
      if t.held[i] == m {
        FirstIs(t.held, m, i);
        t.held := t.held[i := null];
        return;
      }
      i := i + 1;
    }
  }

  /** `task_compare` of two tasks there are. */
  function TaskCompare(t: TaskCtrl, u: TaskCtrl): int {
    if t.priority > u.priority then 1 else if u.priority > t.priority then -1 else 0
  }

  class System {
    const kernel: Kernel
    /** The task that frees what has ended. */
    const cleaner: TaskCtrl
    ghost var mutexes: set<Mutex>
    /** What the kernel task is cleaning up after, and how far it has come. */
    var reaped: TaskCtrl?
    var reapIndex: nat

    constructor (k: Kernel, cleaner: TaskCtrl)
      requires k.Valid() && k.Untouched()
      ensures kernel == k && this.cleaner == cleaner && mutexes == {} && reaped == null && Valid()
    {
      kernel := k;
      this.cleaner := cleaner;
      mutexes := {};
      reaped := null;
      reapIndex := 0;
    }

    // ----- the invariant -----

    /** The part of a task's table that still counts: none of it once the kernel task has been there. */
    ghost function Table(t: TaskCtrl): seq<Mutex?>
      reads this`reaped, this`reapIndex, kernel`freed, kernel`terminated, t`held
    {
      if t !in kernel.terminated || t in kernel.freed then t.held
      else if t == reaped && reapIndex <= |t.held| then t.held[reapIndex..]
      else []
    }

    /** A mutex is locked iff some task is recorded as its holder, and then it is in that task's table. */
    ghost predicate LocksOk()
      reads this`mutexes, this`reaped, this`reapIndex, mutexes`lock, mutexes`heldBy
      reads kernel`registered, kernel`freed, kernel`terminated, kernel.registered`held
    {
      forall m :: m in mutexes ==>
        (m.lock <==> m.heldBy != null) && (m.heldBy != null ==> m.heldBy in kernel.registered && m in Table(m.heldBy))
    }

    /** What is in a task's table is held by that task. */
    ghost predicate TablesOk()
      reads this`mutexes, this`reaped, this`reapIndex, mutexes`heldBy
      reads kernel`registered, kernel`freed, kernel`terminated, kernel.registered`held
    {
      && (forall t :: t in kernel.registered ==> |t.held| == HELD_MUTEXES_MAX && NoDuplicates(t.held))
      && (forall t, m: Mutex :: t in kernel.registered && m in Table(t) ==> m in mutexes && m.heldBy == t)
    }

    /** The task is recorded as waiting for a mutex the other holds. */
    ghost predicate Awaits(t: TaskCtrl, u: TaskCtrl)
      reads t`waiting, this`mutexes, mutexes`heldBy
    {
      t.waiting != null && t.waiting in mutexes && t.waiting.heldBy == u
    }

    /** No two tasks are each recorded as waiting for a mutex that the other holds. */
    ghost predicate NoDeadlock()
      reads this`mutexes, kernel`registered, kernel.registered`waiting, mutexes`heldBy
    {
      && (forall t :: t in kernel.registered && t.waiting != null ==> t.waiting in mutexes)
      && (forall t, u :: t in kernel.registered && u in kernel.registered && Awaits(t, u) ==> !Awaits(u, t))
    }

    ghost predicate WaitersOk()
      reads this`mutexes, mutexes`waiting, kernel`registered
    {
      forall m :: m in mutexes && m.waiting != null ==> m.waiting in kernel.registered
    }

    ghost predicate ReapingOk()
      reads this`reaped, this`reapIndex, kernel`terminated, kernel`freed
    {
      reaped != null ==> reaped in kernel.terminated && reaped !in kernel.freed && reapIndex <= HELD_MUTEXES_MAX
    }

    /** A task that was aborted has ended. */
    ghost predicate AbortedOk()
      reads kernel`registered, kernel`terminated, kernel.registered`aborted
    {
      forall t :: t in kernel.registered && t.aborted ==> t in kernel.terminated
    }

    ghost predicate Valid()
      reads this, kernel, kernel.links, kernel.registered, mutexes
    {
      kernel.Valid() && LocksOk() && TablesOk() && NoDeadlock() && WaitersOk() && ReapingOk() && AbortedOk()
    }

    /** A live task holds exactly the mutexes in its table, and a mutex is locked exactly when some task
        holds it. */
    lemma HeldIffInTable(t: TaskCtrl, m: Mutex)
      requires Valid() && t in kernel.Live() && m in mutexes
      ensures m in t.held <==> m.heldBy == t
      ensures m.lock <==> m.heldBy != null
    {
      assert Table(t) == t.held;
    }

    /** What an ended task held when the kernel task has been there is held no more. */
    lemma DeadHoldNothing(t: TaskCtrl, m: Mutex)
      requires Valid() && t in kernel.terminated && t !in kernel.freed && t != reaped && m in mutexes
      ensures m.heldBy != t
    {
      assert Table(t) == [];
    }

    /** The current task, which is alive. */
    ghost predicate Current(t: TaskCtrl?)
      reads kernel
    {
      t != null && t == kernel.currTask && t in kernel.Live()
    }

    /** Before a task waits for `m`, its holder is checked: a second acquire by the holder and a cycle
        of two stop the kernel. */
    method DeadlockCheck(m: Mutex, curr: TaskCtrl) returns (o: Outcome)
      requires m.heldBy != null
      ensures o == if m.heldBy == curr then Stopped(DoubleAcquire)
                   else if m.heldBy.waiting != null && m.heldBy.waiting in curr.held then Stopped(Deadlock)
                   else Refused
    {
      var task := m.heldBy;
      if task == curr {
        return Stopped(DoubleAcquire);
      }
      if task.waiting != null {
        var i := 0;
        while i < |curr.held|
          invariant i <= |curr.held| && forall j :: 0 <= j < i ==> curr.held[j] != task.waiting
        {
          if curr.held[i] == task.waiting {
            return Stopped(Deadlock);
          }
          i := i + 1;
        }
      }
      return Refused;
    }

    /** What `get_lock` comes to. */
    ghost function LockOutcome(m: Mutex, curr: TaskCtrl): Outcome
      reads m, m.heldBy, curr
    {
      if !m.lock then if null in curr.held then Acquired else Stopped(TooManyHeld)
      else if m.heldBy == null then Stopped(HeldByUnset)
      else if m.heldBy == curr then Stopped(DoubleAcquire)
      else if m.heldBy.waiting != null && m.heldBy.waiting in curr.held then Stopped(Deadlock)
      else Refused
    }

    /** `get_lock`. */
    method GetLock(m: Mutex, curr: TaskCtrl) returns (o: Outcome)
      requires Valid() && Current(curr) && m in mutexes
      modifies m, curr`held, curr`waiting
      ensures o == old(LockOutcome(m, curr)) && o != Stopped(HeldByUnset)
      ensures o == Acquired <==> old(!m.lock && null in curr.held)
      ensures o == Stopped(TooManyHeld) <==> old(!m.lock && null !in curr.held)
      ensures o == Stopped(DoubleAcquire) <==> old(m.lock && m.heldBy == curr)
      ensures o == Stopped(Deadlock) <==>
              old(m.lock && m.heldBy != null && m.heldBy != curr && m.heldBy.waiting != null && m.heldBy.waiting in curr.held)
      ensures o == Refused <==>
              old(m.lock && m.heldBy != null && m.heldBy != curr && (m.heldBy.waiting == null || m.heldBy.waiting !in curr.held))
      ensures !o.Stopped? ==> Valid()
      ensures o.Acquired? ==>
                && m.lock && m.heldBy == curr && curr.waiting == null && m.waiting == old(m.waiting)
                && curr.held == old(curr.held)[FirstOf(old(curr.held), null) := m]
      ensures o.Refused? ==>
                && m.lock && m.heldBy == old(m.heldBy) && m.heldBy != null && curr.held == old(curr.held)
                && if old(m.waiting) == null || old(m.waiting).priority < curr.priority then
                     m.waiting == curr && curr.waiting == m
                   else
                     m.waiting == old(m.waiting) && curr.waiting == old(curr.waiting)
    {
      hide Valid;
      LockedIsHeld(m);
      if !m.lock {
        o := TakeLock(m, curr);
      } else {
        if m.heldBy != null {
          o := DeadlockCheck(m, curr);
          if o.Refused? {
            if m.waiting != null {
              if TaskCompare(m.waiting, curr) < 0 {
                Wait(m, curr);
              }
            } else {
              Wait(m, curr);
            }
          }
        } else {
          assert false;
          o := Stopped(HeldByUnset);
        }
      }
    }

    lemma LockedIsHeld(m: Mutex)
      requires Valid() && m in mutexes
      ensures m.lock <==> m.heldBy != null
    {
    }

    /** The current task becomes the holder of a free mutex, if there is room in its table. */
    method RecordHolder(m: Mutex, curr: TaskCtrl) returns (room: bool)
      requires Valid() && Current(curr) && m in mutexes && !m.lock
      modifies m`lock, m`heldBy, curr`held
      ensures m.lock && m.heldBy == curr && room == (null in old(curr.held))
      ensures room ==> LocksOk() && TablesOk() && curr.held == old(curr.held)[FirstOf(old(curr.held), null) := m]
    {
      hide NoDeadlock, WaitersOk, ReapingOk, AbortedOk, Kernel.Valid, NoDuplicates, Table;
      FreeIsNowhere(m, curr);
      room := Entable(m, curr);
      if room {
        assert LocksOk() by {
          forall x | x in mutexes && x.heldBy != null ensures x.heldBy in kernel.registered && x in Table(x.heldBy) {
            assert x != m ==> x in old(Table(x.heldBy));
          }
        }
        assert TablesOk() by {
          forall t, x: Mutex | t in kernel.registered && x in Table(t) ensures x in mutexes && x.heldBy == t {
            assert x != m ==> x in old(Table(t));
          }
        }
      }
    }

    /** What that does to the tables. */
    method Entable(m: Mutex, curr: TaskCtrl) returns (room: bool)
      requires Valid() && Current(curr) && m in mutexes && !m.lock
      modifies m`lock, m`heldBy, curr`held
      ensures m.lock && m.heldBy == curr && room == (null in old(curr.held))
      ensures forall t :: t in kernel.registered && t != curr ==> Table(t) == old(Table(t))
      ensures room ==>
                && curr.held == old(curr.held)[FirstOf(old(curr.held), null) := m]
                && Table(curr) == curr.held && |curr.held| == HELD_MUTEXES_MAX && NoDuplicates(curr.held)
                && forall x: Mutex :: x in Table(curr) <==> x in old(Table(curr)) || x == m
    {
      hide LocksOk, NoDeadlock, WaitersOk, ReapingOk, AbortedOk, Kernel.Valid, NoDuplicates;
      FreeIsNowhere(m, curr);
      HeldOnce(m, curr);
      m.lock := true;
      m.heldBy := curr;
      room := HeldMutexesInsert(curr, m);
      if room {
        InsertKeeps(old(curr.held), m);
      }
    }

    /** The successful half. */
    method TakeLock(m: Mutex, curr: TaskCtrl) returns (o: Outcome)
      requires Valid() && Current(curr) && m in mutexes && !m.lock
      modifies m`lock, m`heldBy, curr`held, curr`waiting
      ensures o == if null in old(curr.held) then Acquired else Stopped(TooManyHeld)
      ensures o.Acquired? ==>
                && Valid() && m.lock && m.heldBy == curr && curr.waiting == null
                && curr.held == old(curr.held)[FirstOf(old(curr.held), null) := m]
    {
      hide LocksOk, TablesOk, WaitersOk, ReapingOk, Kernel.Valid;
      var room := RecordHolder(m, curr);
      if room {
        curr.waiting := null;
        o := Acquired;
        forall t, u | t in kernel.registered && u in kernel.registered && Awaits(t, u) ensures !Awaits(u, t) {
          if u != curr {
            assert old(Awaits(t, u));
          }
        }
      } else {
        o := Stopped(TooManyHeld);
      }
    }

    lemma FreeIsNowhere(m: Mutex, curr: TaskCtrl)
      requires Valid() && Current(curr) && m in mutexes && !m.lock
      ensures m.heldBy == null && Table(curr) == curr.held && curr in kernel.registered
      ensures forall t :: t in kernel.registered ==> m !in Table(t)
    {
    }

    /** The task is recorded as waiting for the mutex. */
    method Wait(m: Mutex, curr: TaskCtrl)
      requires Valid() && Current(curr) && m in mutexes && m.heldBy != null && m.heldBy != curr
      requires m.heldBy.waiting == null || m.heldBy.waiting !in curr.held
      modifies m`waiting, curr`waiting
      ensures Valid() && m.waiting == curr && curr.waiting == m
    {
      hide LocksOk, TablesOk, ReapingOk, Kernel.Valid;
      HolderIsFree(m, curr);
      m.waiting := curr;
      curr.waiting := m;
      forall t, u | t in kernel.registered && u in kernel.registered && Awaits(t, u) ensures !Awaits(u, t) {
        if t == curr {
          assert u == m.heldBy && !old(Awaits(u, curr));
        } else if u == curr {
          assert old(Awaits(t, curr));
        } else {
          assert old(Awaits(t, u));
        }
      }
    }

    /** What the holder waits for, if anything, is not held by the current task. */
    lemma HolderIsFree(m: Mutex, curr: TaskCtrl)
      requires Valid() && Current(curr) && m in mutexes && m.heldBy != null
      requires m.heldBy.waiting == null || m.heldBy.waiting !in curr.held
      ensures curr in kernel.registered && m.heldBy in kernel.registered && !Awaits(m.heldBy, curr)
    {
    }

    /** `svc_acquire`. A task that does not get the mutex lets the holder run, if that is runnable and of
        no higher priority, and otherwise yields. */
    method SvcAcquire(m: Mutex, curr: TaskCtrl) returns (o: Outcome)
      requires Valid() && kernel.taskSwitching && Current(curr) && m in mutexes
      modifies m, curr`held, curr`waiting
      modifies kernel`currTask, kernel`runnable, kernel`taskSwitching, kernel.links`next, kernel.links`prev, kernel.registered`running
      ensures o == old(LockOutcome(m, curr)) && o != Stopped(HeldByUnset)
      ensures o == Acquired <==> old(!m.lock && null in curr.held)
      ensures o == Stopped(TooManyHeld) <==> old(!m.lock && null !in curr.held)
      ensures o == Stopped(DoubleAcquire) <==> old(m.lock && m.heldBy == curr)
      ensures o == Stopped(Deadlock) <==>
              old(m.lock && m.heldBy != null && m.heldBy != curr && m.heldBy.waiting != null && m.heldBy.waiting in curr.held)
      ensures o == Refused <==>
              old(m.lock && m.heldBy != null && m.heldBy != curr && (m.heldBy.waiting == null || m.heldBy.waiting !in curr.held))
      ensures !o.Stopped? ==> Valid() && kernel.taskSwitching
      ensures o.Acquired? ==>
                && m.lock && m.heldBy == curr && curr.waiting == null && m.waiting == old(m.waiting)
                && curr.held == old(curr.held)[FirstOf(old(curr.held), null) := m]
                && kernel.currTask == curr && kernel.runnable == old(kernel.runnable)
      ensures o.Refused? ==>
                && m.lock && m.heldBy == old(m.heldBy) && m.heldBy != null && curr.held == old(curr.held)
                && (if old(m.waiting) == null || old(m.waiting).priority < curr.priority then
                      m.waiting == curr && curr.waiting == m
                    else
                      m.waiting == old(m.waiting) && curr.waiting == old(curr.waiting))
                && GaveWay(m.heldBy, curr)
                && (m.heldBy in old(kernel.runnable) && m.heldBy.priority <= curr.priority ==> kernel.currTask == m.heldBy)
                && (m.heldBy !in old(kernel.runnable) || m.heldBy.priority > curr.priority ==>
                      old(kernel.runnable) != [] && kernel.currTask == old(kernel.runnable)[0])
    {
      hide Valid, LockOutcome;
      o := GetLock(m, curr);
      if o.Refused? {
        GiveWay(m.heldBy, curr);
      }
    }

    /** Two tasks each acquire what the other holds: `t` first, which lets `u` run, and then `u`. The cycle
        is detected by the second call exactly when the first recorded `t` as waiting, which it does not
        when a task of at least that priority waits already, or when an older record of `t` names a mutex
        of `u`. Otherwise both are refused, and the kernel goes on. */
    method CrossedAcquire(m: Mutex, w: Mutex, t: TaskCtrl, u: TaskCtrl) returns (o1: Outcome, o2: Outcome)
      requires Valid() && kernel.taskSwitching && Current(t) && m in mutexes && w in mutexes
      requires m.heldBy == u && w.heldBy == t && u != t && u in kernel.runnable && u.priority <= t.priority
      modifies m, w, t`held, t`waiting, u`held, u`waiting
      modifies kernel`currTask, kernel`runnable, kernel`taskSwitching, kernel.links`next, kernel.links`prev, kernel.registered`running
      ensures o1 == if old(u.waiting) != null && old(u.waiting) in old(t.held) then Stopped(Deadlock) else Refused
      ensures o1.Refused? ==>
                var recorded := old(m.waiting) == null || old(m.waiting).priority < t.priority;
                o2 == if recorded || (old(t.waiting) != null && old(t.waiting) in old(u.held)) then Stopped(Deadlock) else Refused
      ensures o1.Refused? && o2.Refused? ==> Valid() && kernel.taskSwitching && m.heldBy == u && w.heldBy == t
    {
      hide LocksOk, TablesOk, NoDeadlock, WaitersOk, ReapingOk, AbortedOk, Kernel.ListsOk;
      Holding(m, u);
      Holding(w, t);
      hide Kernel.Valid;
      o1 := SvcAcquire(m, t);
      o2 := o1;
      if o1.Refused? {
        o2 := SvcAcquire(w, u);
      }
    }

    /** A runnable task is alive, and has what it holds in its table. */
    lemma Holding(m: Mutex, t: TaskCtrl)
      requires Valid() && m in mutexes && m.heldBy == t && t in kernel.runnable
      ensures m.lock && m in t.held && t in kernel.Live() && t in kernel.registered
    {
      assert Table(t) == t.held;
    }

    /** The holder of the mutex runs, if it can and is not above the task that wants it; otherwise the
        first runnable task does, which is placed again. */
    twostate predicate GaveWay(holder: TaskCtrl, curr: TaskCtrl)
      reads kernel`currTask, kernel`runnable
    {
      if holder in old(kernel.runnable) && holder.priority <= curr.priority then
        kernel.currTask == holder && kernel.runnable == old(kernel.runnable)
      else
        && old(kernel.runnable) != []
        && kernel.currTask == old(kernel.runnable)[0] && kernel.runnable == Turn(old(kernel.runnable))
    }

    /** What a task does that did not get a mutex. */
    method GiveWay(holder: TaskCtrl, curr: TaskCtrl)
      requires Valid() && kernel.taskSwitching
      modifies kernel`currTask, kernel`runnable, kernel`taskSwitching, kernel.links`next, kernel.links`prev, kernel.registered`running
      ensures Valid() && kernel.taskSwitching && GaveWay(holder, curr)
    {
      hide Valid, Kernel.ListsOk, Turn;
      Lists();
      var found := kernel.TaskRunnable(holder);
      if found && TaskCompare(holder, curr) <= 0 {
        TaskSwitch(holder);
      } else {
        TaskSwitch(null);
      }
    }

    lemma Lists()
      requires Valid()
      ensures kernel.ListsOk()
    {
    }

    /** `task_switch` to a runnable task, or to the next. */
    method TaskSwitch(task: TaskCtrl?)
      requires Valid() && kernel.taskSwitching && (task == null || task in kernel.runnable)
      modifies kernel`currTask, kernel`runnable, kernel`taskSwitching, kernel.links`next, kernel.links`prev, kernel.registered`running
      ensures Valid() && kernel.taskSwitching && old(kernel.runnable) != []
      ensures kernel.currTask == if task == null then old(kernel.runnable)[0] else task
      ensures kernel.runnable == if task == null then Turn(old(kernel.runnable)) else old(kernel.runnable)
    {
      hide LocksOk, TablesOk, NoDeadlock, WaitersOk, ReapingOk, AbortedOk, Kernel.Valid, Turn;
      var r := kernel.SwitchStep(task);
    }

    /** The first statements of `svc_release`. */
    method Unlock(m: Mutex, curr: TaskCtrl)
      requires Valid() && Current(curr) && m in mutexes
      modifies m`lock, m`heldBy, curr`held
      ensures !m.lock && m.heldBy == null && NoDeadlock()
      ensures curr.held == if m in old(curr.held) then old(curr.held)[FirstOf(old(curr.held), m) := null] else old(curr.held)
    {
      m.lock := false;
      m.heldBy := null;
      HeldMutexesRemove(curr, m);
      forall t, u | t in kernel.registered && u in kernel.registered && Awaits(t, u) ensures !Awaits(u, t) {
        assert old(Awaits(t, u));
      }
    }

    /** The last statements of `svc_release`: a waiting task of no lower priority runs at once. */
    method WakeWaiter(m: Mutex, curr: TaskCtrl)
      requires kernel.Valid() && kernel.taskSwitching && m in mutexes
      modifies m`waiting
      modifies kernel`currTask, kernel`runnable, kernel`taskSwitching, kernel.links`next, kernel.links`prev, kernel.registered`running
      ensures kernel.Valid() && kernel.taskSwitching && (old(WaitersOk()) ==> WaitersOk())
      ensures kernel.runnable == old(kernel.runnable)
      ensures var w := old(m.waiting);
              if w != null && w.priority >= curr.priority then
                m.waiting == null && kernel.currTask == if w in old(kernel.runnable) then w else old(kernel.currTask)
              else
                m.waiting == w && kernel.currTask == old(kernel.currTask)
    {
      hide Kernel.ListsOk;
      if m.waiting != null && TaskCompare(m.waiting, curr) >= 0 {
        var task := m.waiting;
        m.waiting := null;
        var r := kernel.SwitchStep(task);
      }
    }

    /** `svc_release` by anyone. The invariant is kept exactly when that is the holder, or when nobody held
        the mutex: the table of a holder that is passed over keeps a mutex that is free. */
    method SvcRelease(m: Mutex, curr: TaskCtrl)
      requires Valid() && kernel.taskSwitching && Current(curr) && m in mutexes
      modifies m, curr`held
      modifies kernel`currTask, kernel`runnable, kernel`taskSwitching, kernel.links`next, kernel.links`prev, kernel.registered`running
      ensures Valid() <==> old(m.heldBy) == null || old(m.heldBy) == curr
      ensures kernel.Valid() && kernel.taskSwitching && !m.lock && m.heldBy == null
      ensures old(m.heldBy) == curr ==> m in old(curr.held) && m !in curr.held
      ensures curr.held == if m in old(curr.held) then old(curr.held)[FirstOf(old(curr.held), m) := null] else old(curr.held)
      ensures kernel.runnable == old(kernel.runnable)
      ensures var w := old(m.waiting);
              if w != null && w.priority >= curr.priority then
                m.waiting == null && kernel.currTask == if w in old(kernel.runnable) then w else old(kernel.currTask)
              else
                m.waiting == w && kernel.currTask == old(kernel.currTask)
    {
      hide LocksOk, TablesOk, NoDeadlock, WaitersOk, ReapingOk, AbortedOk, Kernel.Valid;
      Release(m, curr);
      WakeWaiter(m, curr);
    }

    /** What a task holds is once in its table, and what it does not hold is not. */
    lemma HeldOnce(m: Mutex, curr: TaskCtrl)
      requires Valid() && Current(curr) && m in mutexes
      ensures m in curr.held <==> m.heldBy == curr
      ensures NoDuplicates(curr.held) && Table(curr) == curr.held && curr in kernel.registered
      ensures m.heldBy != null ==> m.heldBy in kernel.registered && m in Table(m.heldBy)
      ensures m.heldBy == null ==> forall t :: t in kernel.registered ==> m !in Table(t)
    {
    }

    /** The release of the mutex, before a waiter is woken. */
    method Release(m: Mutex, curr: TaskCtrl)
      requires Valid() && Current(curr) && m in mutexes
      modifies m`lock, m`heldBy, curr`held
      ensures !m.lock && m.heldBy == null && NoDeadlock()
      ensures LocksOk() && TablesOk() <==> old(m.heldBy) == null || old(m.heldBy) == curr
      ensures old(m.heldBy) == curr ==> m in old(curr.held) && m !in curr.held
      ensures curr.held == if m in old(curr.held) then old(curr.held)[FirstOf(old(curr.held), m) := null] else old(curr.held)
    {
      hide NoDeadlock, WaitersOk, ReapingOk, AbortedOk, Kernel.Valid, NoDuplicates, Table;
      HeldOnce(m, curr);
      ghost var holder := m.heldBy;
      Untable(m, curr);
      if holder == null || holder == curr {
        assert LocksOk() by {
          forall x | x in mutexes && x.heldBy != null ensures x.heldBy in kernel.registered && x in Table(x.heldBy) {
            assert x in old(Table(x.heldBy));
          }
        }
        assert TablesOk() by {
          forall t, x: Mutex | t in kernel.registered && x in Table(t) ensures x in mutexes && x.heldBy == t {
            assert x in old(Table(t));
            assert t != curr ==> x != m;
          }
        }
      } else {
        assert m in Table(holder);
      }
    }

    /** What the release does to the tables. */
    method Untable(m: Mutex, curr: TaskCtrl)
      requires Valid() && Current(curr) && m in mutexes
      modifies m`lock, m`heldBy, curr`held
      ensures !m.lock && m.heldBy == null && NoDeadlock() && |curr.held| == HELD_MUTEXES_MAX && NoDuplicates(curr.held)
      ensures curr.held == if m in old(curr.held) then old(curr.held)[FirstOf(old(curr.held), m) := null] else old(curr.held)
      ensures forall t :: t in kernel.registered && t != curr ==> Table(t) == old(Table(t))
      ensures forall x: Mutex :: x in Table(curr) <==> x in old(Table(curr)) && x != m
      ensures Table(curr) == curr.held
    {
      hide LocksOk, NoDeadlock, WaitersOk, ReapingOk, AbortedOk, Kernel.Valid, NoDuplicates;
      HeldOnce(m, curr);
      if m in curr.held {
        RemoveKeeps(curr.held, m);
      }
      Unlock(m, curr);
    }

    // ----- kernel/sched/kernel_task.c -----

    /** The kernel task takes the next ended task. */
    method TakeDead()
      requires Valid() && reaped == null && kernel.freed != []
      modifies this`reaped, this`reapIndex, kernel`freed, kernel.links`next, kernel.links`prev
      ensures Valid() && reaped == old(kernel.freed)[|old(kernel.freed)| - 1] && reapIndex == 0
      ensures kernel.freed == old(kernel.freed)[..|old(kernel.freed)| - 1]
    {
      hide NoDeadlock, WaitersOk, AbortedOk, Kernel.Valid, NoDuplicates, Table;
      TakeNext();
      assert LocksOk() by {
        forall x | x in mutexes && x.heldBy != null ensures x.heldBy in kernel.registered && x in Table(x.heldBy) {
          assert x in old(Table(x.heldBy));
        }
      }
      assert TablesOk() by {
        forall t, x: Mutex | t in kernel.registered && x in Table(t) ensures x in mutexes && x.heldBy == t {
          assert x in old(Table(t));
        }
      }
    }

    /** The table of the task that is taken counts as before. */
    method TakeNext()
      requires Valid() && reaped == null && kernel.freed != []
      modifies this`reaped, this`reapIndex, kernel`freed, kernel.links`next, kernel.links`prev
      ensures kernel.Valid() && ReapingOk() && reaped == old(kernel.freed)[|old(kernel.freed)| - 1] && reapIndex == 0
      ensures kernel.freed == old(kernel.freed)[..|old(kernel.freed)| - 1]
      ensures forall t :: t in kernel.registered ==> Table(t) == old(Table(t))
    {
      hide LocksOk, NoDeadlock, WaitersOk, AbortedOk, Kernel.Valid, NoDuplicates;
      FreedRegistered();
      var task := kernel.TakeFreed();
      reaped := task;
      reapIndex := 0;
    }

    lemma FreedRegistered()
      requires kernel.Valid()
      ensures forall t :: t in kernel.freed ==> t in kernel.registered && t in kernel.terminated
    {
    }

    /** One turn of its loop over the table of the ended task: the mutex there, if any, is released. */
    method ReapOne(curr: TaskCtrl)
      requires Valid() && kernel.taskSwitching && Current(curr) && reaped != null && reapIndex < HELD_MUTEXES_MAX
      modifies this`reapIndex, mutexes`lock, mutexes`heldBy, mutexes`waiting, curr`held
      modifies kernel`currTask, kernel`runnable, kernel`taskSwitching, kernel.links`next, kernel.links`prev, kernel.registered`running
      ensures Valid() && kernel.taskSwitching && reapIndex == old(reapIndex) + 1 && kernel.runnable == old(kernel.runnable)
      ensures reaped in kernel.registered && |reaped.held| == HELD_MUTEXES_MAX
      ensures forall t :: t in kernel.registered ==> t.held == old(t.held)
      ensures var m := reaped.held[old(reapIndex)];
              && (forall x :: x in mutexes && x != m ==> x.heldBy == old(x.heldBy) && x.waiting == old(x.waiting))
              && (m == null ==> kernel.currTask == old(kernel.currTask))
              && (m != null ==>
                    && m in mutexes && !m.lock && m.heldBy == null
                    && var w := old(m.waiting);
                       if w != null && w.priority >= curr.priority then
                         m.waiting == null && kernel.currTask == if w in old(kernel.runnable) then w else old(kernel.currTask)
                       else
                         m.waiting == w && kernel.currTask == old(kernel.currTask))
    {
      hide LocksOk, TablesOk, NoDeadlock, WaitersOk, ReapingOk, AbortedOk, Kernel.Valid, Table;
      ReapedTable();
      var m := reaped.held[reapIndex];
      if m != null {
        ReleaseDead(m, curr);
        WakeWaiter(m, curr);
      } else {
        SkipEmpty();
      }
    }

    lemma ReapedTable()
      requires Valid() && reaped != null && reapIndex < HELD_MUTEXES_MAX
      ensures reaped in kernel.registered && |reaped.held| == HELD_MUTEXES_MAX && NoDuplicates(reaped.held)
      ensures Table(reaped) == reaped.held[reapIndex..]
      ensures var m := reaped.held[reapIndex]; m != null ==> m in mutexes && m.heldBy == reaped
    {
      assert reaped.held[reapIndex] in Table(reaped);
    }

    /** `release` of an ended task's mutex, which the kernel task itself does not hold. */
    method ReleaseDead(m: Mutex, curr: TaskCtrl)
      requires Valid() && Current(curr) && reaped != null && reapIndex < HELD_MUTEXES_MAX
      requires |reaped.held| == HELD_MUTEXES_MAX && m == reaped.held[reapIndex] && m in mutexes && m.heldBy == reaped
      modifies this`reapIndex, m`lock, m`heldBy, curr`held
      ensures Valid() && !m.lock && m.heldBy == null && reapIndex == old(reapIndex) + 1 && curr.held == old(curr.held)
    {
      hide WaitersOk, AbortedOk, Kernel.Valid, NoDeadlock, LocksOk, TablesOk, NoDuplicates, Table;
      NotOwn(m, curr);
      UnlockDead(m, curr);
    }

    /** The mutex is free, and the table counts from the next place on. */
    method UnlockDead(m: Mutex, curr: TaskCtrl)
      requires Valid() && Current(curr) && reaped != null && reapIndex < HELD_MUTEXES_MAX
      requires |reaped.held| == HELD_MUTEXES_MAX && m == reaped.held[reapIndex] && m in mutexes && m.heldBy == reaped
      modifies this`reapIndex, m`lock, m`heldBy, curr`held
      ensures LocksOk() && TablesOk() && NoDeadlock()
      ensures !m.lock && m.heldBy == null && reapIndex == old(reapIndex) + 1 && curr.held == old(curr.held)
    {
      hide WaitersOk, AbortedOk, ReapingOk, Kernel.Valid, NoDeadlock, NoDuplicates, Table;
      NotOwn(m, curr);
      NextPlace(m, curr);
      assert LocksOk() by {
        forall x | x in mutexes && x.heldBy != null ensures x.heldBy in kernel.registered && x in Table(x.heldBy) {
          assert x in old(Table(x.heldBy));
        }
      }
      assert TablesOk() by {
        forall t, x: Mutex | t in kernel.registered && x in Table(t) ensures x in mutexes && x.heldBy == t {
          assert x in old(Table(t));
        }
      }
    }

    method NextPlace(m: Mutex, curr: TaskCtrl)
      requires Valid() && Current(curr) && reaped != null && reapIndex < HELD_MUTEXES_MAX
      requires |reaped.held| == HELD_MUTEXES_MAX && m == reaped.held[reapIndex] && m in mutexes && m.heldBy == reaped
      modifies this`reapIndex, m`lock, m`heldBy, curr`held
      ensures !m.lock && m.heldBy == null && NoDeadlock() && reapIndex == old(reapIndex) + 1 && curr.held == old(curr.held)
      ensures forall t :: t in kernel.registered && t != reaped ==> Table(t) == old(Table(t))
      ensures old(Table(reaped)) == [m] + Table(reaped) && m !in Table(reaped)
    {
      hide LocksOk, TablesOk, WaitersOk, AbortedOk, ReapingOk, Kernel.Valid, NoDeadlock, NoDuplicates;
      NotOwn(m, curr);
      Unlock(m, curr);
      reapIndex := reapIndex + 1;
    }

    lemma NotOwn(m: Mutex, curr: TaskCtrl)
      requires Valid() && Current(curr) && reaped != null && reapIndex < HELD_MUTEXES_MAX
      requires |reaped.held| == HELD_MUTEXES_MAX && m == reaped.held[reapIndex] && m in mutexes && m.heldBy == reaped
      ensures m !in curr.held && curr != reaped && curr in kernel.registered && reaped in kernel.registered
      ensures reaped in kernel.terminated && reaped !in kernel.freed
      ensures Table(reaped) == reaped.held[reapIndex..] && m !in reaped.held[reapIndex + 1..]
      ensures forall t :: t in kernel.registered && t != reaped ==> m !in Table(t)
    {
      assert Table(curr) == curr.held;
    }

    method SkipEmpty()
      requires Valid() && reaped != null && reapIndex < HELD_MUTEXES_MAX
      requires |reaped.held| == HELD_MUTEXES_MAX && reaped.held[reapIndex] == null && reaped in kernel.registered
      modifies this`reapIndex
      ensures Valid() && reapIndex == old(reapIndex) + 1
    {
      hide WaitersOk, Kernel.Valid, NoDeadlock, NoDuplicates;
      reapIndex := reapIndex + 1;
      assert forall t :: t in kernel.registered && t != reaped ==> Table(t) == old(Table(t));
      assert old(Table(reaped)) == [null] + Table(reaped);
    }

    /** `free_task`. */
    method FreeDead()
      requires Valid() && reaped != null && reapIndex == HELD_MUTEXES_MAX
      modifies this`reaped
      ensures Valid() && reaped == null
      ensures forall m :: m in mutexes ==> m.heldBy != old(reaped)
    {
      hide WaitersOk, Kernel.Valid, NoDeadlock, NoDuplicates;
      assert reaped in kernel.registered ==> |reaped.held| == HELD_MUTEXES_MAX;
      assert reaped in kernel.registered ==> Table(reaped) == [];
      assert forall m :: m in mutexes && m.heldBy != null ==> m.heldBy != reaped;
      reaped := null;
      assert forall t :: t in kernel.registered ==> Table(t) == old(Table(t));
    }

    // ----- snapshots -----

    ghost function Ticks(): map<TaskCtrl, nat>
      reads kernel`registered, kernel.registered`ticksUntilWake
    {
      map t | t in kernel.registered :: t.ticksUntilWake
    }

    ghost function Helds(): map<TaskCtrl, seq<Mutex?>>
      reads kernel`registered, kernel.registered`held
    {
      map t | t in kernel.registered :: t.held
    }

    ghost function Waits(): map<TaskCtrl, Mutex?>
      reads kernel`registered, kernel.registered`waiting
    {
      map t | t in kernel.registered :: t.waiting
    }

    ghost function Holders(): map<Mutex, TaskCtrl?>
      reads this`mutexes, mutexes`heldBy
    {
      map m | m in mutexes :: m.heldBy
    }

    ghost function Waiters(): map<Mutex, TaskCtrl?>
      reads this`mutexes, mutexes`waiting
    {
      map m | m in mutexes :: m.waiting
    }

    /** The state of the system, with tasks and mutexes numbered. */
    ghost function View(tasks: seq<TaskCtrl>, locks: seq<Mutex>): Snapshot
      reads this, kernel, kernel.registered, mutexes
    {
      Snapshot(kernel.currTask, kernel.runnable, kernel.periodic, kernel.freed, kernel.registered, kernel.terminated,
               kernel.totalTasks, Ticks(), Helds(), Waits(), Holders(), Waiters(), reaped, reapIndex, tasks, locks)
    }

    /** The numbers are of tasks and mutexes there are; the kernel task and the sleep task come first. */
    ghost predicate Numbered(tasks: seq<TaskCtrl>, locks: seq<Mutex>)
      reads this`mutexes, kernel`registered, kernel`sleeper
    {
      && (forall t :: t in tasks ==> t in kernel.registered) && (forall m :: m in locks ==> m in mutexes)
      && |tasks| >= 2 && tasks[0] == cleaner && tasks[1] == kernel.sleeper
    }

    /** Before the first event. */
    lemma UntriedYet(tasks: seq<TaskCtrl>)
      requires kernel.Untouched() && mutexes == {}
      ensures Untried(View(tasks, []))
    {
    }

    /** The parts of the snapshot fit together. */
    lemma ValidIsWell(tasks: seq<TaskCtrl>, locks: seq<Mutex>)
      requires Valid() && kernel.taskSwitching && Numbered(tasks, locks)
      ensures Well(View(tasks, locks))
    {
      hide LocksOk, TablesOk, NoDeadlock, WaitersOk, AbortedOk, ReapingOk, Kernel.ListsOk;
      kernel.SleeperRuns();
      kernel.EntriesOk();
      CurrentLives();
      MutexesKnown();
    }

    /** What is named in the tables and records is known. */
    lemma MutexesKnown()
      requires Valid()
      ensures forall m :: m in mutexes && m.heldBy != null ==> m.heldBy in kernel.registered
      ensures forall t :: t in kernel.registered && t.waiting != null ==> t.waiting in mutexes
      ensures reaped != null ==> reaped in kernel.registered && reapIndex <= HELD_MUTEXES_MAX == |reaped.held|
      ensures reaped != null && reapIndex < HELD_MUTEXES_MAX && reaped.held[reapIndex] != null ==> reaped.held[reapIndex] in mutexes
    {
      hide WaitersOk, AbortedOk, Kernel.ListsOk;
      assert reaped != null && reapIndex < HELD_MUTEXES_MAX ==> reaped.held[reapIndex] in Table(reaped);
    }

    /** The tables say who holds what, and no two tasks wait for each other. */
    lemma ValidIsFair()
      requires Valid()
      ensures forall t, m :: t in kernel.Live() && m in mutexes ==> (m in t.held <==> m.heldBy == t)
      ensures forall t, u :: t in kernel.registered && u in kernel.registered && Awaits(t, u) ==> !Awaits(u, t)
    {
      hide WaitersOk, AbortedOk, Kernel.Valid, ReapingOk;
      assert forall t :: t in kernel.Live() ==> Table(t) == t.held;
    }

    lemma AwaitsView(tasks: seq<TaskCtrl>, locks: seq<Mutex>, t: TaskCtrl, u: TaskCtrl)
      requires t in kernel.registered
      ensures AwaitsIn(View(tasks, locks), t, u) <==> Awaits(t, u)
    {
    }

    /** The invariant holds of the snapshot. */
    lemma ValidIsSafe(tasks: seq<TaskCtrl>, locks: seq<Mutex>)
      requires Valid() && kernel.taskSwitching && Numbered(tasks, locks)
      ensures Safe(View(tasks, locks))
    {
      ValidIsWell(tasks, locks);
      ValidIsFair();
      kernel.EntriesOk();
      hide LocksOk, TablesOk, NoDeadlock, WaitersOk, ReapingOk, AbortedOk, Well, Kernel.ListsOk, AwaitsIn, Awaits;
      var a := View(tasks, locks);
      forall t, u | t in a.registered && u in a.registered && AwaitsIn(a, t, u) ensures !AwaitsIn(a, u, t) {
        AwaitsView(tasks, locks, t, u);
        AwaitsView(tasks, locks, u, t);
      }
    }

    // ----- events of the scheduler -----

    /** `rtos_tick`. */
    method Tick(ghost tasks: seq<TaskCtrl>, ghost locks: seq<Mutex>)
      requires Valid()
      modifies kernel`runnable, kernel.links`next, kernel.links`prev, kernel.registered`ticksUntilWake
      ensures Valid() && View(tasks, locks) == AfterTick(old(View(tasks, locks)))
    {
      hide LocksOk, TablesOk, NoDeadlock, WaitersOk, ReapingOk, AbortedOk, Kernel.ListsOk, Kernel.StateOk, Woken;
      hide Helds, Waits, Holders, Waiters;
      assert kernel.Due() == DueIn(Ticks());
      kernel.TickStep();
      assert Ticks() == TickedAll(old(Ticks()), kernel.periodic);
    }

    /** `task_switch`. */
    method Switch(task: TaskCtrl?, ghost tasks: seq<TaskCtrl>, ghost locks: seq<Mutex>) returns (r: int)
      requires Valid() && kernel.taskSwitching
      modifies kernel`currTask, kernel`runnable, kernel`taskSwitching, kernel.links`next, kernel.links`prev, kernel.registered`running
      ensures Valid() && kernel.taskSwitching
      ensures r == if task == null || task in old(kernel.runnable) then 0 else -1
      ensures var a := old(View(tasks, locks)); View(tasks, locks) == if task == null then Yielded(a) else SwitchedTo(a, task)
    {
      hide LocksOk, TablesOk, NoDeadlock, WaitersOk, ReapingOk, AbortedOk, Kernel.ListsOk, Kernel.StateOk, Turn;
      hide Ticks, Helds, Waits, Holders, Waiters;
      r := kernel.SwitchStep(task);
    }

    /** `new_task`. */
    method NewTask(priority: nat, period: nat) returns (t: TaskCtrl)
      requires Valid()
      modifies kernel`runnable, kernel`periodic, kernel`registered, kernel`links, kernel`totalTasks
      modifies kernel.links`next, kernel.links`prev
      ensures Valid() && fresh(t) && t.priority == priority && t.period == period && t.ticksUntilWake == period
      ensures t.held == seq(HELD_MUTEXES_MAX, _ => null) && t.waiting == null
      ensures kernel.registered == old(kernel.registered) + {t} && kernel.totalTasks == old(kernel.totalTasks) + 1
      ensures kernel.runnable == Placed(old(kernel.runnable), t)
      ensures kernel.periodic == if period > 0 then Placed(old(kernel.periodic), t) else old(kernel.periodic)
      ensures old(kernel.links) <= kernel.links && fresh(kernel.links - old(kernel.links))
    {
      hide LocksOk, TablesOk, Table, Kernel.Valid, Placed;
      t := EnterTask(priority, period);
    }

    /** The new task has an empty table. */
    method EnterTask(priority: nat, period: nat) returns (t: TaskCtrl)
      requires Valid()
      modifies kernel`runnable, kernel`periodic, kernel`registered, kernel`links, kernel`totalTasks
      modifies kernel.links`next, kernel.links`prev
      ensures kernel.Valid() && LocksOk() && TablesOk()
      ensures fresh(t) && t.priority == priority && t.period == period && t.ticksUntilWake == period
      ensures t.held == seq(HELD_MUTEXES_MAX, _ => null) && t.waiting == null && !t.aborted
      ensures kernel.registered == old(kernel.registered) + {t} && kernel.totalTasks == old(kernel.totalTasks) + 1
      ensures kernel.runnable == Placed(old(kernel.runnable), t)
      ensures kernel.periodic == if period > 0 then Placed(old(kernel.periodic), t) else old(kernel.periodic)
      ensures old(kernel.links) <= kernel.links && fresh(kernel.links - old(kernel.links))
    {
      hide NoDeadlock, WaitersOk, ReapingOk, AbortedOk, Kernel.Valid, Placed;
      t := kernel.NewTask(priority, period);
    }

    /** `new_task`, and what has become of the snapshot's maps. */
    method RegisterMaps(priority: nat, period: nat) returns (t: TaskCtrl)
      requires Valid()
      modifies kernel`runnable, kernel`periodic, kernel`registered, kernel`links, kernel`totalTasks
      modifies kernel.links`next, kernel.links`prev
      ensures Valid() && fresh(t) && t.priority == priority && t.period == period
      ensures kernel.registered == old(kernel.registered) + {t} && kernel.totalTasks == old(kernel.totalTasks) + 1
      ensures kernel.runnable == Placed(old(kernel.runnable), t)
      ensures kernel.periodic == if period > 0 then Placed(old(kernel.periodic), t) else old(kernel.periodic)
      ensures old(kernel.links) <= kernel.links && fresh(kernel.links - old(kernel.links))
      ensures Ticks() == old(Ticks())[t := period] && Waits() == old(Waits())[t := null]
      ensures Helds() == old(Helds())[t := seq(HELD_MUTEXES_MAX, _ => null)]
    {
      hide Valid, Placed;
      t := NewTask(priority, period);
    }

    /** `new_task` as an event. */
    method DoRegister(priority: nat, period: nat, ghost tasks: seq<TaskCtrl>, ghost locks: seq<Mutex>) returns (t: TaskCtrl)
      requires Valid()
      modifies kernel`runnable, kernel`periodic, kernel`registered, kernel`links, kernel`totalTasks
      modifies kernel.links`next, kernel.links`prev
      ensures Valid() && fresh(t) && kernel.registered == old(kernel.registered) + {t}
      ensures old(kernel.links) <= kernel.links && fresh(kernel.links - old(kernel.links))
      ensures Registers(old(View(tasks, locks)), priority, period, View(tasks + [t], locks))
    {
      hide Valid, Placed, Holders, Waiters, Ticks, Helds, Waits;
      t := RegisterMaps(priority, period);
    }

    lemma CurrentLives()
      requires kernel.Valid() && kernel.taskSwitching
      ensures Current(kernel.currTask) && kernel.currTask in kernel.registered && kernel.currTask !in kernel.terminated
      ensures kernel.currTask !in kernel.freed && kernel.currTask in kernel.runnable
      ensures kernel.currTask.period > 0 ==> kernel.currTask in kernel.periodic
    {
    }

    /** The end of the current task, or of its run: `sched_svc_end_task`, or `abort`. */
    method End(forGood: bool)
      requires Valid() && kernel.taskSwitching && kernel.currTask != kernel.sleeper
      modifies kernel`currTask, kernel`runnable, kernel`periodic, kernel`freed, kernel`terminated, kernel`totalTasks
      modifies kernel.links`next, kernel.links`prev, kernel.registered`running, kernel.registered`aborted
      ensures Valid() && kernel.taskSwitching && LeftAs(forGood)
    {
      hide NoDeadlock, WaitersOk, AbortedOk, Kernel.Valid, NoDuplicates, Table;
      Depart(forGood);
      assert LocksOk() by {
        forall x | x in mutexes && x.heldBy != null ensures x.heldBy in kernel.registered && x in Table(x.heldBy) {
          assert x in old(Table(x.heldBy));
        }
      }
      assert TablesOk() by {
        forall t, x: Mutex | t in kernel.registered && x in Table(t) ensures x in mutexes && x.heldBy == t {
          assert x in old(Table(t));
        }
      }
    }

    /** The tables count as before: if the task has ended, it is queued to be freed. */
    method Depart(forGood: bool)
      requires Valid() && kernel.taskSwitching && kernel.currTask != kernel.sleeper
      modifies kernel`currTask, kernel`runnable, kernel`periodic, kernel`freed, kernel`terminated, kernel`totalTasks
      modifies kernel.links`next, kernel.links`prev, kernel.registered`running, kernel.registered`aborted
      ensures kernel.Valid() && kernel.taskSwitching && LeftAs(forGood) && ReapingOk() && AbortedOk()
      ensures forall t :: t in kernel.registered ==> Table(t) == old(Table(t))
    {
      hide LocksOk, TablesOk, NoDeadlock, WaitersOk, Kernel.Valid, NoDuplicates, Without, Turn;
      CurrentLives();
      if forGood {
        kernel.Abort();
      } else {
        kernel.EndTask();
      }
    }

    /** What the lists are when the current task has left. */
    twostate predicate LeftAs(forGood: bool)
      reads kernel
    {
      var t := old(kernel.currTask);
      && t != null && t in old(kernel.runnable) && Without(old(kernel.runnable), t) != []
      && kernel.runnable == Turn(Without(old(kernel.runnable), t)) && kernel.currTask == Without(old(kernel.runnable), t)[0]
      && (t.period > 0 ==> t in old(kernel.periodic))
      && (if forGood || t.period == 0 then
            && kernel.periodic == (if t.period > 0 then Without(old(kernel.periodic), t) else old(kernel.periodic))
            && kernel.freed == [t] + old(kernel.freed) && kernel.terminated == old(kernel.terminated) + {t}
            && kernel.totalTasks == old(kernel.totalTasks) - 1
          else
            && kernel.periodic == old(kernel.periodic) && kernel.freed == old(kernel.freed)
            && kernel.terminated == old(kernel.terminated) && kernel.totalTasks == old(kernel.totalTasks))
    }

    // ----- events of the mutexes -----

    /** `init_mutex` of a new mutex. */
    method NewMutex() returns (m: Mutex)
      requires Valid()
      modifies this`mutexes
      ensures Valid() && fresh(m) && mutexes == old(mutexes) + {m} && m.heldBy == null && m.waiting == null
    {
      hide Kernel.Valid, ReapingOk, AbortedOk;
      m := new Mutex();
      mutexes := mutexes + {m};
    }

    /** `init_mutex` as an event. */
    method DoMake(ghost tasks: seq<TaskCtrl>, ghost locks: seq<Mutex>) returns (m: Mutex)
      requires Valid()
      modifies this`mutexes
      ensures Valid() && fresh(m) && mutexes == old(mutexes) + {m}
      ensures Makes(old(View(tasks, locks)), View(tasks, locks + [m]))
    {
      hide Valid, Ticks, Helds, Waits;
      m := NewMutex();
      assert Holders() == old(Holders())[m := null];
      assert Waiters() == old(Waiters())[m := null];
    }

    /** What the snapshot says about a mutex and the current task is what the code finds. */
    lemma ViewValues(m: Mutex, tasks: seq<TaskCtrl>, locks: seq<Mutex>)
      requires Valid() && kernel.taskSwitching && Numbered(tasks, locks) && m in mutexes
      ensures var a, curr := View(tasks, locks), kernel.currTask;
              && Well(a) && curr != null && curr in a.held && curr in a.waits && m in a.holder && m in a.waiter
              && a.held[curr] == curr.held && a.waits[curr] == curr.waiting
              && a.holder[m] == m.heldBy && a.waiter[m] == m.waiting
              && OutcomeIn(a, m) == LockOutcome(m, curr)
              && (m.heldBy == curr ==> m in curr.held)
    {
      ValidIsSafe(tasks, locks);
      CurrentLives();
      assert Table(kernel.currTask) == kernel.currTask.held;
    }

    /** `svc_acquire`, and what has become of the snapshot's maps. */
    method AcquireMaps(m: Mutex, curr: TaskCtrl) returns (o: Outcome)
      requires Valid() && kernel.taskSwitching && Current(curr) && m in mutexes
      modifies m, curr`held, curr`waiting
      modifies kernel`currTask, kernel`runnable, kernel`taskSwitching, kernel.links`next, kernel.links`prev, kernel.registered`running
      ensures o == old(LockOutcome(m, curr)) && o != Stopped(HeldByUnset)
      ensures !o.Stopped? ==> Valid() && kernel.taskSwitching
      ensures o.Acquired? ==>
                && m.heldBy == curr && curr.waiting == null && m.waiting == old(m.waiting) && null in old(curr.held)
                && curr.held == old(curr.held)[FirstOf(old(curr.held), null) := m]
                && kernel.currTask == curr && kernel.runnable == old(kernel.runnable)
      ensures o.Refused? ==>
                && m.heldBy == old(m.heldBy) && m.heldBy != null && curr.held == old(curr.held) && old(kernel.runnable) != []
                && (if old(m.waiting) == null || old(m.waiting).priority < curr.priority then
                      m.waiting == curr && curr.waiting == m
                    else
                      m.waiting == old(m.waiting) && curr.waiting == old(curr.waiting))
                && GaveWay(m.heldBy, curr)
      ensures Holders() == old(Holders())[m := m.heldBy] && Waiters() == old(Waiters())[m := m.waiting]
      ensures Helds() == old(Helds())[curr := curr.held] && Waits() == old(Waits())[curr := curr.waiting]
    {
      hide Valid, GaveWay, Turn, LockOutcome, Kernel.Valid;
      LiveCurrent(curr);
      o := SvcAcquire(m, curr);
    }

    lemma LiveCurrent(curr: TaskCtrl)
      requires Valid() && kernel.taskSwitching && Current(curr)
      ensures curr in kernel.registered && kernel.runnable != []
    {
      CurrentLives();
    }

    /** `svc_acquire` as an event. */
    method DoAcquire(m: Mutex, ghost tasks: seq<TaskCtrl>, ghost locks: seq<Mutex>) returns (stop: Option<Panic>)
      requires Valid() && kernel.taskSwitching && m in mutexes && Numbered(tasks, locks)
      modifies m, kernel.registered`held, kernel.registered`waiting
      modifies kernel`currTask, kernel`runnable, kernel`taskSwitching, kernel.links`next, kernel.links`prev, kernel.registered`running
      ensures Well(old(View(tasks, locks))) && m in old(View(tasks, locks)).holder
      ensures stop.None? ==> Valid() && kernel.taskSwitching
      ensures stop == match OutcomeIn(old(View(tasks, locks)), m)
                      case Stopped(why) => Some(why)
                      case _ => None
      ensures stop != Some(HeldByUnset)
      ensures stop.None? ==> View(tasks, locks) == AfterAcquire(old(View(tasks, locks)), m)
    {
      hide Valid, Kernel.Valid, Turn, LockOutcome, OutcomeIn, Ticks, Helds, Waits, Holders, Waiters, Well, AfterAcquire;
      NowCurrent();
      ViewValues(m, tasks, locks);
      ghost var a := View(tasks, locks);
      var o := AcquireMaps(m, kernel.currTask);
      stop := if o.Stopped? then Some(o.panic) else None;
      if o.Acquired? {
        TookIs(a, m, View(tasks, locks));
      } else if o.Refused? {
        RefusedIs(a, m, View(tasks, locks));
      }
    }

    lemma NowCurrent()
      requires Valid() && kernel.taskSwitching
      ensures Current(kernel.currTask) && kernel.currTask in kernel.registered
    {
      CurrentLives();
    }

    /** `svc_release` by the holder, and what has become of the snapshot's maps. */
    method ReleaseMaps(m: Mutex, curr: TaskCtrl)
      requires Valid() && kernel.taskSwitching && Current(curr) && m in mutexes && m.heldBy == curr
      modifies m, curr`held
      modifies kernel`currTask, kernel`runnable, kernel`taskSwitching, kernel.links`next, kernel.links`prev, kernel.registered`running
      ensures Valid() && kernel.taskSwitching && m in old(curr.held) && kernel.runnable == old(kernel.runnable)
      ensures Holders() == old(Holders())[m := null]
      ensures Helds() == old(Helds())[curr := old(curr.held)[FirstOf(old(curr.held), m) := null]]
      ensures var w := old(m.waiting);
              if w != null && w.priority >= curr.priority then
                && Waiters() == old(Waiters())[m := null]
                && kernel.currTask == if w in old(kernel.runnable) then w else old(kernel.currTask)
              else Waiters() == old(Waiters())[m := w] && kernel.currTask == old(kernel.currTask)
    {
      hide Valid, Kernel.Valid;
      LiveCurrent(curr);
      SvcRelease(m, curr);
    }

    /** `svc_release` by the holder as an event. */
    method DoRelease(m: Mutex, ghost tasks: seq<TaskCtrl>, ghost locks: seq<Mutex>)
      requires Valid() && kernel.taskSwitching && m in mutexes && Numbered(tasks, locks)
      modifies m, kernel.registered`held
      modifies kernel`currTask, kernel`runnable, kernel`taskSwitching, kernel.links`next, kernel.links`prev, kernel.registered`running
      ensures Well(old(View(tasks, locks))) && m in old(View(tasks, locks)).holder
      ensures Valid() && kernel.taskSwitching && View(tasks, locks) == AfterRelease(old(View(tasks, locks)), m)
    {
      hide Valid, Kernel.Valid, LockOutcome, OutcomeIn, Ticks, Helds, Waits, Holders, Waiters, Well, WokeWaiter, Freed;
      NowCurrent();
      ViewValues(m, tasks, locks);
      ghost var a := View(tasks, locks);
      if m.heldBy == kernel.currTask {
        ReleaseMaps(m, kernel.currTask);
        ReleasedIs(a, m, View(tasks, locks));
      }
    }

    /** One turn of the kernel task's loop, and what has become of the snapshot's maps. */
    method ReapMaps(curr: TaskCtrl)
      requires Valid() && kernel.taskSwitching && Current(curr) && reaped != null && reapIndex < HELD_MUTEXES_MAX
      modifies this`reapIndex, mutexes`lock, mutexes`heldBy, mutexes`waiting, curr`held
      modifies kernel`currTask, kernel`runnable, kernel`taskSwitching, kernel.links`next, kernel.links`prev, kernel.registered`running
      ensures Valid() && kernel.taskSwitching && reapIndex == old(reapIndex) + 1 && kernel.runnable == old(kernel.runnable)
      ensures reaped in kernel.registered && reaped.held == old(reaped.held) && |reaped.held| == HELD_MUTEXES_MAX
      ensures Helds() == old(Helds())
      ensures var m := reaped.held[old(reapIndex)];
              if m == null then
                Holders() == old(Holders()) && Waiters() == old(Waiters()) && kernel.currTask == old(kernel.currTask)
              else
                && m in mutexes && Holders() == old(Holders())[m := null]
                && var w := old(m.waiting);
                   if w != null && w.priority >= curr.priority then
                     && Waiters() == old(Waiters())[m := null]
                     && kernel.currTask == if w in old(kernel.runnable) then w else old(kernel.currTask)
                   else Waiters() == old(Waiters())[m := w] && kernel.currTask == old(kernel.currTask)
    {
      hide Valid;
      ReapOne(curr);
    }

    /** What the snapshot says about the task that is being cleaned up after is what the kernel task finds. */
    lemma ReapValues(tasks: seq<TaskCtrl>, locks: seq<Mutex>)
      requires Valid() && kernel.taskSwitching && Numbered(tasks, locks)
      ensures var a := View(tasks, locks);
              && Well(a) && a.tasks[0] == cleaner && a.curr == kernel.currTask
              && a.reaped == reaped && a.freed == kernel.freed && (reaped != null ==> reapIndex <= HELD_MUTEXES_MAX)
              && (reaped != null && reapIndex < HELD_MUTEXES_MAX ==>
                    && reaped in a.held && a.held[reaped] == reaped.held && |reaped.held| == HELD_MUTEXES_MAX
                    && var m := reaped.held[reapIndex];
                       m != null ==> m in mutexes && m in a.holder && m in a.waiter && a.waiter[m] == m.waiting)
    {
      ValidIsSafe(tasks, locks);
    }

    /** The kernel task releases what is in the next place of the table. */
    method DoReapOne(ghost tasks: seq<TaskCtrl>, ghost locks: seq<Mutex>)
      requires Valid() && kernel.taskSwitching && Numbered(tasks, locks)
      requires kernel.currTask == cleaner && reaped != null && reapIndex < HELD_MUTEXES_MAX
      modifies this`reapIndex, mutexes`lock, mutexes`heldBy, mutexes`waiting, kernel.registered`held
      modifies kernel`currTask, kernel`runnable, kernel`taskSwitching, kernel.links`next, kernel.links`prev, kernel.registered`running
      ensures Well(old(View(tasks, locks)))
      ensures Valid() && kernel.taskSwitching && View(tasks, locks) == AfterReap(old(View(tasks, locks)))
    {
      hide Valid, Kernel.Valid, Ticks, Helds, Waits, Holders, Waiters, Well, WokeWaiter, AfterReap;
      NowCurrent();
      ReapValues(tasks, locks);
      ghost var a, m := View(tasks, locks), reaped.held[reapIndex];
      ReapMaps(kernel.currTask);
      if m != null {
        ReapedIs(a, m, View(tasks, locks));
      } else {
        NoneReapedIs(a);
      }
    }

    /** The kernel task takes a task, or frees the one it has. */
    method DoReapNext(ghost tasks: seq<TaskCtrl>, ghost locks: seq<Mutex>)
      requires Valid() && kernel.taskSwitching && Numbered(tasks, locks)
      requires kernel.currTask == cleaner && (if reaped == null then kernel.freed != [] else reapIndex == HELD_MUTEXES_MAX)
      modifies this`reaped, this`reapIndex, kernel`freed, kernel.links`next, kernel.links`prev
      ensures Well(old(View(tasks, locks)))
      ensures Valid() && kernel.taskSwitching && View(tasks, locks) == AfterReap(old(View(tasks, locks)))
    {
      hide Valid, Kernel.Valid, Ticks, Helds, Waits, Holders, Waiters, Well, WokeWaiter;
      ReapValues(tasks, locks);
      if reaped == null {
        TakeDead();
      } else {
        FreeDead();
      }
    }

    /** The next step of the kernel task's loop, if the kernel task is the one that runs. */
    method DoReap(ghost tasks: seq<TaskCtrl>, ghost locks: seq<Mutex>)
      requires Valid() && kernel.taskSwitching && Numbered(tasks, locks)
      modifies this`reaped, this`reapIndex, mutexes`lock, mutexes`heldBy, mutexes`waiting, kernel.registered`held
      modifies kernel`freed, kernel`currTask, kernel`runnable, kernel`taskSwitching
      modifies kernel.links`next, kernel.links`prev, kernel.registered`running
      ensures Well(old(View(tasks, locks)))
      ensures Valid() && kernel.taskSwitching && View(tasks, locks) == AfterReap(old(View(tasks, locks)))
    {
      hide Valid, View, Kernel.Valid, Well, AfterReap, Numbered;
      ReapValues(tasks, locks);
      if kernel.currTask == cleaner {
        var nothing := NothingDead();
        if reaped != null && reapIndex < HELD_MUTEXES_MAX {
          DoReapOne(tasks, locks);
        } else if reaped != null || !nothing {
          DoReapNext(tasks, locks);
        } else {
          IdleReap(View(tasks, locks));
        }
      } else {
        IdleReap(View(tasks, locks));
      }
    }

    method NothingDead() returns (r: bool)
      requires Valid()
      ensures r == (kernel.freed == [])
    {
      r := kernel.NothingFreed();
    }

    // ----- runs -----

    /** What is known only grows. */
    twostate predicate Grown()
      reads this`mutexes, kernel`registered, kernel`links
    {
      && old(mutexes) <= mutexes && fresh(mutexes - old(mutexes))
      && old(kernel.registered) <= kernel.registered && fresh(kernel.registered - old(kernel.registered))
      && old(kernel.links) <= kernel.links && fresh(kernel.links - old(kernel.links))
    }

    lemma ViewIs(tasks: seq<TaskCtrl>, locks: seq<Mutex>)
      requires Valid() && kernel.taskSwitching && Numbered(tasks, locks)
      ensures var a := View(tasks, locks);
              && Well(a) && a.tasks == tasks && a.locks == locks && a.curr == kernel.currTask
              && a.tasks[1] == kernel.sleeper && forall m :: m in locks ==> m in a.holder
      ensures kernel.Valid()
    {
      ValidIsSafe(tasks, locks);
    }

    /** The end of the current task, or of its run, as an event; not that of the sleep task. */
    method DoEnd(forGood: bool, ghost tasks: seq<TaskCtrl>, ghost locks: seq<Mutex>)
      requires Valid() && kernel.taskSwitching && Numbered(tasks, locks)
      modifies kernel`currTask, kernel`runnable, kernel`periodic, kernel`freed, kernel`terminated, kernel`totalTasks
      modifies kernel.links`next, kernel.links`prev, kernel.registered`running, kernel.registered`aborted
      ensures Well(old(View(tasks, locks))) && Valid() && kernel.taskSwitching
      ensures Effect(old(View(tasks, locks)), if forGood then AbortRun else EndRun, View(tasks, locks))
    {
      hide Valid, Well, Kernel.Valid, Ticks, Helds, Waits, Holders, Waiters, Without, Turn;
      ViewIs(tasks, locks);
      if kernel.currTask != kernel.sleeper {
        End(forGood);
      }
    }

    /** A tick or a switch. */
    method DoSwitch(e: Event, tasks: seq<TaskCtrl>, ghost locks: seq<Mutex>)
      requires Valid() && kernel.taskSwitching && Numbered(tasks, locks)
      requires e.TickEvent? || e.Yield? || e.SwitchTo?
      modifies kernel`currTask, kernel`runnable, kernel`taskSwitching, kernel.links`next, kernel.links`prev
      modifies kernel.registered`running, kernel.registered`ticksUntilWake
      ensures Well(old(View(tasks, locks))) && Valid() && kernel.taskSwitching
      ensures Effect(old(View(tasks, locks)), e, View(tasks, locks))
    {
      hide Valid, View, Well, Kernel.Valid, AfterTick, Yielded, SwitchedTo;
      ViewIs(tasks, locks);
      if e.TickEvent? {
        Tick(tasks, locks);
      } else if e.Yield? {
        var r := Switch(null, tasks, locks);
      } else if e.task < |tasks| {
        var r := Switch(tasks[e.task], tasks, locks);
      }
    }

    /** An event of the scheduler. */
    method TaskStep(e: Event, tasks: seq<TaskCtrl>, ghost locks: seq<Mutex>) returns (tasks': seq<TaskCtrl>)
      requires Valid() && kernel.taskSwitching && Numbered(tasks, locks)
      requires e.TickEvent? || e.Yield? || e.SwitchTo? || e.Register? || e.EndRun? || e.AbortRun?
      modifies kernel, kernel.links, kernel.registered
      ensures Grown() && Valid() && kernel.taskSwitching && Numbered(tasks', locks)
      ensures Well(old(View(tasks, locks))) && Effect(old(View(tasks, locks)), e, View(tasks', locks))
    {
      hide Valid, View, Well, Kernel.Valid, Registers, AfterTick, Yielded, SwitchedTo, Departed;
      tasks' := tasks;
      if e.Register? {
        ViewIs(tasks, locks);
        var t := DoRegister(e.priority, e.period, tasks, locks);
        tasks' := tasks + [t];
      } else if e.EndRun? || e.AbortRun? {
        DoEnd(e.AbortRun?, tasks, locks);
      } else {
        DoSwitch(e, tasks, locks);
      }
    }

    /** An acquire or a release of the mutex of that number, if there is one. */
    method DoCall(e: Event, ghost tasks: seq<TaskCtrl>, locks: seq<Mutex>) returns (stop: Option<Panic>)
      requires Valid() && kernel.taskSwitching && Numbered(tasks, locks) && (e.Acquire? || e.Release?)
      modifies mutexes, kernel.registered`held, kernel.registered`waiting
      modifies kernel`currTask, kernel`runnable, kernel`taskSwitching, kernel.links`next, kernel.links`prev, kernel.registered`running
      ensures Well(old(View(tasks, locks))) && stop != Some(HeldByUnset)
      ensures stop.None? ==> Valid() && kernel.taskSwitching && Effect(old(View(tasks, locks)), e, View(tasks, locks))
      ensures stop.Some? ==> Stops(old(View(tasks, locks)), e, stop.value)
    {
      hide Valid, View, Well, Kernel.Valid, AfterAcquire, AfterRelease, OutcomeIn;
      ViewIs(tasks, locks);
      stop := None;
      if e.mutex < |locks| {
        if e.Acquire? {
          stop := DoAcquire(locks[e.mutex], tasks, locks);
        } else {
          DoRelease(locks[e.mutex], tasks, locks);
        }
      }
    }

    static lemma MakeHas(a: Snapshot, b: Snapshot)
      requires Well(a) && Makes(a, b)
      ensures Effect(a, MakeMutex, b)
    {
    }

    static lemma ReapHas(a: Snapshot, b: Snapshot)
      requires Well(a) && b == AfterReap(a)
      ensures Effect(a, ReapStep, b)
    {
    }

    /** An event of the mutexes, or a step of the kernel task. */
    method LockStep(e: Event, ghost tasks: seq<TaskCtrl>, locks: seq<Mutex>) returns (stop: Option<Panic>, locks': seq<Mutex>)
      requires Valid() && kernel.taskSwitching && Numbered(tasks, locks)
      requires e.MakeMutex? || e.Acquire? || e.Release? || e.ReapStep?
      modifies this, kernel, kernel.links, kernel.registered, mutexes
      ensures Grown() && Well(old(View(tasks, locks))) && stop != Some(HeldByUnset)
      ensures stop.None? ==>
                && Valid() && kernel.taskSwitching && Numbered(tasks, locks')
                && Effect(old(View(tasks, locks)), e, View(tasks, locks'))
      ensures stop.Some? ==> Stops(old(View(tasks, locks)), e, stop.value)
    {
      hide Valid, View, Well, Kernel.Valid, Makes, AfterReap, Stops, Effect;
      ViewIs(tasks, locks);
      ghost var a := View(tasks, locks);
      stop, locks' := None, locks;
      if e.MakeMutex? {
        var m := DoMake(tasks, locks);
        locks' := locks + [m];
        MakeHas(a, View(tasks, locks'));
      } else if e.ReapStep? {
        DoReap(tasks, locks);
        ReapHas(a, View(tasks, locks));
      } else {
        stop := DoCall(e, tasks, locks);
      }
    }

    /** One event: it has its effect and keeps the invariant, or it is an acquire that stops the kernel. */
    method Step(e: Event, tasks: seq<TaskCtrl>, locks: seq<Mutex>)
      returns (stop: Option<Panic>, tasks': seq<TaskCtrl>, locks': seq<Mutex>)
      requires Valid() && kernel.taskSwitching && Numbered(tasks, locks)
      modifies this, kernel, kernel.links, kernel.registered, mutexes
      ensures Grown() && Well(old(View(tasks, locks))) && stop != Some(HeldByUnset)
      ensures stop.None? ==>
                && Valid() && kernel.taskSwitching && Numbered(tasks', locks')
                && Effect(old(View(tasks, locks)), e, View(tasks', locks'))
      ensures stop.Some? ==> Stops(old(View(tasks, locks)), e, stop.value)
    {
      hide Valid, View, Well, Effect, Stops, Numbered;
      stop, tasks', locks' := None, tasks, locks;
      if e.MakeMutex? || e.Acquire? || e.Release? || e.ReapStep? {
        stop, locks' := LockStep(e, tasks, locks);
      } else {
        tasks' := TaskStep(e, tasks, locks);
      }
    }

    /** Every run: whatever happens, in whatever order, each event has its effect and leaves a safe state,
        until there are no more or one stops the kernel; and it never stops for want of a holder. */
    method Run(events: seq<Event>, tasks0: seq<TaskCtrl>) returns (stop: Option<Panic>, ghost trace: seq<Snapshot>)
      requires Valid() && kernel.taskSwitching && Numbered(tasks0, [])
      modifies this, kernel, kernel.links, kernel.registered, mutexes
      ensures IsRun(trace, events, stop) && trace[0] == old(View(tasks0, [])) && stop != Some(HeldByUnset)
      ensures stop.None? ==> Valid() && kernel.taskSwitching
    {
      hide Valid, View, Effect, Safe, Stops, IsRun, Well, Numbered;
      stop := None;
      var tasks, locks: seq<Mutex> := tasks0, [];
      var i := 0;
      ValidIsSafe(tasks, locks);
      trace := [View(tasks, locks)];
      RunStarts(View(tasks, locks), events);
      while i < |events|
        invariant i <= |events| && stop.None? && Valid() && kernel.taskSwitching && Grown() && Numbered(tasks, locks)
        invariant |trace| == i + 1 && IsRun(trace, events[..i], None)
        invariant trace[0] == old(View(tasks0, [])) && trace[i] == View(tasks, locks)
      {
        stop, tasks, locks := Step(events[i], tasks, locks);
        if stop.Some? {
          RunStops(trace, events, i, stop.value);
          return;
        }
        ValidIsSafe(tasks, locks);
        RunOn(trace, events, i, View(tasks, locks));
        trace := trace + [View(tasks, locks)];
        i := i + 1;
      }
      assert events[..i] == events;
    }
  }

  lemma RunStarts(a: Snapshot, events: seq<Event>)
    requires Safe(a)
    ensures IsRun([a], events[..0], None)
  {
    hide Safe, Well, Effect, Stops;
  }

  lemma RunOn(trace: seq<Snapshot>, events: seq<Event>, i: nat, b: Snapshot)
    requires i < |events| && |trace| == i + 1 && IsRun(trace, events[..i], None) && Safe(b)
    requires Well(trace[i]) && Effect(trace[i], events[i], b)
    ensures IsRun(trace + [b], events[..i + 1], None)
  {
    hide Well, Effect, Safe;
    var longer := trace + [b];
    assert forall k {:trigger longer[k]} :: 0 <= k < i ==> longer[k] == trace[k] && longer[k + 1] == trace[k + 1];
    forall k {:trigger Follows(longer, events[..i + 1], k)} | 0 <= k < |longer| - 1 ensures Follows(longer, events[..i + 1], k) {
      if k < i {
        assert Follows(trace, events[..i], k);
      }
    }
  }

  lemma RunStops(trace: seq<Snapshot>, events: seq<Event>, i: nat, why: Panic)
    requires i < |events| && |trace| == i + 1 && IsRun(trace, events[..i], None)
    requires Well(trace[i]) && Stops(trace[i], events[i], why)
    ensures IsRun(trace, events, Some(why))
  {
    hide Well, Effect, Safe, Stops;
    forall k {:trigger Follows(trace, events, k)} | 0 <= k < |trace| - 1 ensures Follows(trace, events, k) {
      assert Follows(trace, events[..i], k);
    }
  }

  /** From `start_sched` on, for any boot tasks and any events: a run from a state in which the kernel
      task, the sleep task and the boot tasks are there and nothing is held. */
  method BootAndRun(kernelPeriod: nat, boot: seq<(nat, nat)>, events: seq<Event>)
    returns (system: System, stop: Option<Panic>, ghost trace: seq<Snapshot>)
    ensures IsRun(trace, events, stop) && stop != Some(HeldByUnset)
    ensures AreTasks(trace[0].tasks, [(10, kernelPeriod), (0, 0)] + boot)
    ensures trace[0].registered == (set t | t in trace[0].tasks) && Untried(trace[0])
    ensures trace[0].curr != null && FirstHighest(trace[0].tasks, trace[0].curr) && PlacedAll([], trace[0].tasks) != []
    ensures trace[0].runnable == Turn(PlacedAll([], trace[0].tasks)) && trace[0].periodic == PlacedAll([], WithPeriod(trace[0].tasks))
    ensures stop.None? ==> system.Valid() && system.kernel.taskSwitching
  {
    hide Kernel.Valid, System.Valid, IsRun;
    var kernel := new Kernel();
    var tasks := kernel.Start(kernelPeriod, boot);
    system := new System(kernel, tasks[0]);
    system.UntriedYet(tasks);
    stop, trace := system.Run(events, tasks);
  }
}
