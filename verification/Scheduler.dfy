/** The scheduler of kernel/sched: every tick and service call is one atomic step over the three task
    lists. Stacks, contexts and memory are not modelled. */
module Scheduler {
  import opened Wrappers
  import opened TaskLists
  import opened Placement

  function IndexOf(ts: seq<TaskCtrl>, t: TaskCtrl): (k: nat)
    requires t in ts
    ensures k < |ts| && ts[k] == t
  {
    if ts[0] == t then 0 else 1 + IndexOf(ts[1..], t)
  }

  /** The list without the task. */
  function Without(ts: seq<TaskCtrl>, t: TaskCtrl): seq<TaskCtrl>
    requires t in ts
  {
    RemovedAt(ts, IndexOf(ts, t))
  }

  /** Each of the tasks `ps` that is due is placed in turn, unless it is on the list. */
  function Woken(ts: seq<TaskCtrl>, ps: seq<TaskCtrl>, due: set<TaskCtrl>): seq<TaskCtrl> {
    if ps == [] then ts
    else
      var r, t := Woken(ts, ps[..|ps| - 1], due), ps[|ps| - 1];
      if t in due && t !in r then Placed(r, t) else r
  }

  lemma {:induction false} WokenKeeps(ts: seq<TaskCtrl>, ps: seq<TaskCtrl>, due: set<TaskCtrl>)
    requires Distinct(ts)
    ensures Distinct(Woken(ts, ps, due))
    ensures forall i :: 0 <= i < |Woken(ts, ps, due)| ==>
              var t := Woken(ts, ps, due)[i]; t in ts || (t in ps && t in due)
    ensures forall t :: t in ts || (t in ps && t in due) ==> t in Woken(ts, ps, due)
  {
    if ps != [] {
      var n := |ps| - 1;
      var r := Woken(ts, ps[..n], due);
      WokenKeeps(ts, ps[..n], due);
      assert ps == ps[..n] + [ps[n]];
      if ps[n] !in r {
        PlacedMembers(r, ps[n]);
      }
    }
  }

  lemma NoneWoken(ts: seq<TaskCtrl>, due: set<TaskCtrl>)
    ensures Woken(ts, [], due) == ts
  {
  }

  lemma OneWoken(ts: seq<TaskCtrl>, ps: seq<TaskCtrl>, i: nat, due: set<TaskCtrl>)
    requires i < |ps|
    ensures var r := Woken(ts, ps[..i], due);
            Woken(ts, ps[..i + 1], due) == if ps[i] in due && ps[i] !in r then Placed(r, ps[i]) else r
  {
    hide Placed;
    assert ps[..i + 1][..i] == ps[..i];
  }

  lemma TurnKeeps(ts: seq<TaskCtrl>)
    requires Distinct(ts)
    ensures ts != [] ==> multiset(Turn(ts)) == multiset(ts) && forall t :: t in Turn(ts) <==> t in ts
  {
    if ts != [] {
      assert ts == [ts[0]] + ts[1..];
      PlacedMembers(ts[1..], ts[0]);
      PlacedKeeps(ts[1..], ts[0]);
    }
  }

  lemma WithoutKeeps(ts: seq<TaskCtrl>, t: TaskCtrl)
    requires Distinct(ts) && t in ts
    ensures Distinct(Without(ts, t)) && |Without(ts, t)| == |ts| - 1
    ensures forall u :: u in Without(ts, t) <==> u in ts && u != t
  {
    var k := IndexOf(ts, t);
    assert ts == ts[..k] + [t] + ts[k + 1..];
  }

  /** The three list nodes of a task. */
  function OwnNodes(t: TaskCtrl): set<Link> {
    {t.runnableLink, t.periodicLink, t.freeLink}
  }

  /** Ended tasks are on neither list; a task without a period is always runnable; the periodic list is
      that of all live periodic tasks; tasks to be freed have ended; and the count is that of live tasks. */
  ghost predicate Consistent(runnable: seq<TaskCtrl>, periodic: seq<TaskCtrl>, freed: seq<TaskCtrl>,
                             registered: set<TaskCtrl>, terminated: set<TaskCtrl>, total: int)
  {
    && terminated <= registered
    && (forall t :: t in runnable ==> t in registered - terminated)
    && (forall t :: t in registered - terminated && t.period == 0 ==> t in runnable)
    && (forall t :: t in periodic ==> t in registered - terminated && t.period > 0)
    && (forall t :: t in registered - terminated && t.period > 0 ==> t in periodic)
    && (forall t :: t in freed ==> t in terminated)
    && total == |registered| - |terminated|
  }

  lemma ConsistentNew(runnable: seq<TaskCtrl>, periodic: seq<TaskCtrl>, freed: seq<TaskCtrl>,
                      registered: set<TaskCtrl>, terminated: set<TaskCtrl>, total: int, t: TaskCtrl)
    requires Consistent(runnable, periodic, freed, registered, terminated, total)
    requires t !in registered && Distinct(runnable) && Distinct(periodic)
    ensures var periodic' := if t.period > 0 then Placed(periodic, t) else periodic;
            Consistent(Placed(runnable, t), periodic', freed, registered + {t}, terminated, total + 1)
  {
    PlacedMembers(runnable, t);
    PlacedMembers(periodic, t);
  }

  lemma ConsistentRest(runnable: seq<TaskCtrl>, periodic: seq<TaskCtrl>, freed: seq<TaskCtrl>,
                       registered: set<TaskCtrl>, terminated: set<TaskCtrl>, total: int, t: TaskCtrl)
    requires Consistent(runnable, periodic, freed, registered, terminated, total) && Distinct(runnable)
    requires t in runnable && t.period > 0
    ensures Consistent(Without(runnable, t), periodic, freed, registered, terminated, total)
  {
    WithoutKeeps(runnable, t);
    hide Without;
  }

  lemma ConsistentEnd(runnable: seq<TaskCtrl>, periodic: seq<TaskCtrl>, freed: seq<TaskCtrl>,
                      registered: set<TaskCtrl>, terminated: set<TaskCtrl>, total: int, t: TaskCtrl)
    requires Consistent(runnable, periodic, freed, registered, terminated, total)
    requires Distinct(runnable) && Distinct(periodic) && t in runnable && (t.period > 0 ==> t in periodic)
    ensures var periodic' := if t.period > 0 then Without(periodic, t) else periodic;
            Consistent(Without(runnable, t), periodic', [t] + freed, registered, terminated + {t}, total - 1)
  {
    WithoutKeeps(runnable, t);
    if t.period > 0 {
      WithoutKeeps(periodic, t);
    }
    hide Without;
  }

  lemma TurnConsistent(runnable: seq<TaskCtrl>, periodic: seq<TaskCtrl>, freed: seq<TaskCtrl>,
                       registered: set<TaskCtrl>, terminated: set<TaskCtrl>, total: int)
    requires Consistent(runnable, periodic, freed, registered, terminated, total) && Distinct(runnable) && runnable != []
    ensures Consistent(Turn(runnable), periodic, freed, registered, terminated, total)
    ensures runnable[0] in Turn(runnable)
  {
    TurnKeeps(runnable);
  }

  lemma EmptyRing(head: Link)
    requires head.entry == null && head.next == head && head.prev == head
    ensures IsRing(head, []) && Nodes(head, []) == {head}
  {
  }

  /** Tasks with these priorities and periods, in order. */
  ghost predicate AreTasks(tasks: seq<TaskCtrl>, given: seq<(nat, nat)>) {
    |tasks| == |given| && forall i :: 0 <= i < |tasks| ==> tasks[i].priority == given[i].0 && tasks[i].period == given[i].1
  }

  class Kernel {
    const runnableHead: Link
    const periodicHead: Link
    const freeHead: Link
    var currTask: TaskCtrl?
    var taskSwitching: bool
    var totalTasks: int
    /** The task that `sleep_task` runs as. */
    var sleeper: TaskCtrl?

    /** The entries of the three lists. */
    ghost var runnable: seq<TaskCtrl>
    ghost var periodic: seq<TaskCtrl>
    ghost var freed: seq<TaskCtrl>
    /** All tasks there have been, and those that have ended. */
    ghost var registered: set<TaskCtrl>
    ghost var terminated: set<TaskCtrl>
    /** All list nodes. */
    ghost var links: set<Link>

    /** The state before any task is registered. */
    constructor ()
      ensures Valid() && runnable == [] && periodic == [] && freed == []
      ensures registered == {} && Untouched() && totalTasks == 0 && !taskSwitching && currTask == null
      ensures fresh(links)
    {
      hide Valid, Untouched;
      var r := new Link(Runnable);
      var p := new Link(Periodic);
      var f := new Link(Free);
      runnableHead, periodicHead, freeHead, links := r, p, f, {r, p, f};
      currTask := null;
      taskSwitching := false;
      totalTasks := 0;
      runnable, periodic, freed := [], [], [];
      registered, terminated, sleeper := {}, {}, null;
      new;
      NothingYet();
    }

    lemma NothingYet()
      requires runnable == [] && periodic == [] && freed == [] && registered == {} && terminated == {} && totalTasks == 0
      requires HeadsOk() && links == {runnableHead, periodicHead, freeHead} && !taskSwitching
      requires runnableHead.entry == null && runnableHead.next == runnableHead && runnableHead.prev == runnableHead
      requires periodicHead.entry == null && periodicHead.next == periodicHead && periodicHead.prev == periodicHead
      requires freeHead.entry == null && freeHead.next == freeHead && freeHead.prev == freeHead
      ensures Valid() && Untouched()
    {
      hide IsRing, Nodes;
      EmptyRing(runnableHead);
      EmptyRing(periodicHead);
      EmptyRing(freeHead);
    }

    // ----- the lists -----

    ghost predicate HeadsOk()
      reads this`links
    {
      && runnableHead.kind == Runnable && periodicHead.kind == Periodic && freeHead.kind == Free
      && runnableHead in links && periodicHead in links && freeHead in links
    }

    /** The nodes of registered tasks are known and lead back to them. */
    ghost predicate AllKnown()
      reads this`registered, this`links, links`entry
    {
      forall t {:trigger t in registered} :: t in registered ==>
        t.runnableLink in links && t.periodicLink in links && t.freeLink in links && LinksOk(t)
    }

    /** Every list is a ring of registered tasks. */
    ghost predicate ListsOk()
      reads this`runnable, this`periodic, this`freed, this`registered, this`links, links
    {
      && HeadsOk() && AllKnown()
      && (forall t :: t in runnable ==> t in registered)
      && (forall t :: t in periodic ==> t in registered)
      && (forall t :: t in freed ==> t in registered)
      && Nodes(runnableHead, runnable) <= links && IsRing(runnableHead, runnable)
      && Nodes(periodicHead, periodic) <= links && IsRing(periodicHead, periodic)
      && Nodes(freeHead, freed) <= links && IsRing(freeHead, freed)
    }

    /** `insert_task(runnable_task_list, t)`. */
    method PlaceRunnable(t: TaskCtrl)
      requires ListsOk() && t in registered && t !in runnable
      modifies links`next, links`prev, this`runnable
      ensures ListsOk() && runnable == Placed(old(runnable), t)
    {
      KindsApart();
      InsertTask(runnableHead, runnable, t);
      PlacedMembers(runnable, t);
      runnable := Placed(runnable, t);
      NodesInside(runnableHead, runnable);
    }

    /** `insert_task(periodic_task_list, t)`. */
    method PlacePeriodic(t: TaskCtrl)
      requires ListsOk() && t in registered && t !in periodic
      modifies links`next, links`prev, this`periodic
      ensures ListsOk() && periodic == Placed(old(periodic), t)
    {
      KindsApart();
      InsertTask(periodicHead, periodic, t);
      PlacedMembers(periodic, t);
      periodic := Placed(periodic, t);
      NodesInside(periodicHead, periodic);
    }

    /** `list_add` to the list of tasks to be freed. */
    method AddFreed(t: TaskCtrl)
      requires ListsOk() && t in registered && t !in freed
      modifies links`next, links`prev, this`freed
      ensures ListsOk() && freed == [t] + old(freed)
    {
      KindsApart();
      AddHead(freeHead, freed, t);
      freed := [t] + freed;
      NodesInside(freeHead, freed);
    }

    /** `list_pop` from it. */
    method PopFreed() returns (t: TaskCtrl)
      requires ListsOk() && freed != []
      modifies links`next, links`prev, this`freed
      ensures ListsOk() && t == old(freed)[|old(freed)| - 1] && freed == old(freed)[..|old(freed)| - 1]
    {
      KindsApart();
      t := PopTail(freeHead, freed);
      FrontOf(freed);
      freed := freed[..|freed| - 1];
      NodesInside(freeHead, freed);
    }

    lemma FrontOf(ts: seq<TaskCtrl>)
      requires ts != []
      ensures forall t :: t in ts[..|ts| - 1] ==> t in ts
    {
    }

    /** `list_pop_head` from the list of runnable tasks. */
    method PopRunnable() returns (t: TaskCtrl)
      requires ListsOk() && runnable != []
      modifies links`next, links`prev, this`runnable
      ensures ListsOk() && t == old(runnable)[0] && runnable == old(runnable)[1..]
    {
      KindsApart();
      t := PopHead(runnableHead, runnable);
      runnable := runnable[1..];
      NodesInside(runnableHead, runnable);
    }

    /** `list_remove(&task->runnable_task_list)`. */
    method RemoveRunnable(t: TaskCtrl)
      requires ListsOk() && t in runnable
      modifies links`next, links`prev, this`runnable
      ensures ListsOk() && runnable == Without(old(runnable), t)
    {
      KindsApart();
      ghost var k := IndexOf(runnable, t);
      ListRemove(runnableHead, runnable, k, t.runnableLink);
      runnable := RemovedAt(runnable, k);
      NodesInside(runnableHead, runnable);
    }

    /** `list_remove(&task->periodic_task_list)`. */
    method RemovePeriodic(t: TaskCtrl)
      requires ListsOk() && t in periodic
      modifies links`next, links`prev, this`periodic
      ensures ListsOk() && periodic == Without(old(periodic), t)
    {
      KindsApart();
      ghost var k := IndexOf(periodic, t);
      ListRemove(periodicHead, periodic, k, t.periodicLink);
      periodic := RemovedAt(periodic, k);
      NodesInside(periodicHead, periodic);
    }

    /** `list_empty(&runnable_task_list)`. */
    method NothingRunnable() returns (r: bool)
      requires ListsOk()
      ensures r == (runnable == [])
    {
      r := ListEmpty(runnableHead, runnable);
    }

    /** `task_runnable`. */
    method TaskRunnable(t: TaskCtrl) returns (r: bool)
      requires ListsOk()
      ensures r == (t in runnable)
    {
      r := Contains(runnableHead, runnable, t);
    }

    // ----- the invariant -----

    /** The tasks that have not ended. */
    ghost function Live(): set<TaskCtrl>
      reads this`registered, this`terminated
    {
      registered - terminated
    }

    /** The kernel's own task that runs when there is nothing else. */
    ghost predicate IsSleeper(t: TaskCtrl?)
      reads this`registered, this`terminated
    {
      t != null && t in Live() && t.period == 0
    }

    ghost predicate StateOk()
      reads this`runnable, this`periodic, this`freed, this`registered, this`terminated, this`totalTasks
    {
      Consistent(runnable, periodic, freed, registered, terminated, totalTasks)
    }

    /** Task switching has begun: the current task is runnable, and the sleep task is there. */
    ghost predicate Switching()
      reads this`taskSwitching, this`currTask, this`sleeper, this`runnable, this`registered, this`terminated
    {
      taskSwitching && currTask != null && currTask in runnable && IsSleeper(sleeper)
    }

    ghost predicate Valid()
      reads this, links
    {
      ListsOk() && StateOk() && (taskSwitching ==> Switching())
    }

    // ----- kernel/sched/sched_switch.c -----

    /** `switch_task`: to the given task, or to the first runnable one, which is then placed again. */
    method SwitchTask(chosen: TaskCtrl?)
      requires ListsOk() && runnable != [] && (chosen == null || chosen in runnable)
      modifies this`currTask, this`runnable, links`next, links`prev, registered`running
      ensures ListsOk()
      ensures currTask == if chosen == null then old(runnable)[0] else chosen
      ensures runnable == if chosen == null then Turn(old(runnable)) else old(runnable)
      ensures currTask != null && currTask.running && forall t :: t in registered && t != currTask ==> t.running == old(t.running)
    {
      hide ListsOk;
      EntriesOk();
      var task := chosen;
      if task == null {
        var empty := NothingRunnable();
        if empty {
          assert false;
        }
        task := PopRunnable();
        currTask := task;
        HeadTaken(old(runnable));
        PlaceRunnable(task);
      } else {
        currTask := task;
      }
      if !task.running {
        task.running := true;
      }
    }

    lemma HeadTaken(ts: seq<TaskCtrl>)
      requires Distinct(ts) && ts != []
      ensures ts[0] !in ts[1..]
    {
    }

    /** `svc_task_switch`. */
    method SvcTaskSwitch(task: TaskCtrl?) returns (r: int)
      requires ListsOk() && runnable != []
      modifies this`currTask, this`runnable, this`taskSwitching, links`next, links`prev, registered`running
      ensures ListsOk()
      ensures task != null && task !in old(runnable) ==>
                r == -1 && runnable == old(runnable) && currTask == old(currTask) && taskSwitching == old(taskSwitching)
      ensures task == null || task in old(runnable) ==>
                && r == 0 && taskSwitching && currTask == (if task == null then old(runnable)[0] else task)
                && runnable == if task == null then Turn(old(runnable)) else old(runnable)
    {
      hide ListsOk;
      if task != null {
        var found := TaskRunnable(task);
        if !found {
          return -1;
        }
      }
      if !taskSwitching {
        taskSwitching := true;
      }
      SwitchTask(task);
      return 0;
    }

    /** The step of `list_for_each_entry` over the periodic tasks: the node behind node `i`. */
    method NextPeriodic(node: Link, ghost i: nat) returns (next: Link)
      requires ListsOk() && i <= |periodic| && node == At(periodicHead, periodic, i)
      ensures next == At(periodicHead, periodic, i + 1) && (next == periodicHead <==> i == |periodic|)
    {
      assert Joined(periodicHead, periodic, i);
      HeadAtEnd(periodicHead, periodic, i);
      next := node.next;
    }

    method PeriodicEntry(node: Link, ghost i: nat) returns (t: TaskCtrl)
      requires ListsOk() && i < |periodic| && node == At(periodicHead, periodic, i + 1)
      ensures t == periodic[i]
    {
      t := Entry(periodicHead, periodic, i, node);
    }

    lemma EntriesOk()
      requires ListsOk()
      ensures Distinct(runnable) && Distinct(periodic) && Distinct(freed)
      ensures forall t :: t in runnable || t in periodic || t in freed ==> t in registered
    {
    }

    /** The lists share no node. */
    lemma KindsApart()
      requires ListsOk()
      ensures Nodes(runnableHead, runnable) !! Nodes(periodicHead, periodic)
      ensures Nodes(runnableHead, runnable) !! Nodes(freeHead, freed)
      ensures Nodes(periodicHead, periodic) !! Nodes(freeHead, freed)
      ensures forall l :: l in Nodes(runnableHead, runnable) ==> l.kind == Runnable
      ensures forall l :: l in Nodes(periodicHead, periodic) ==> l.kind == Periodic
      ensures forall l :: l in Nodes(freeHead, freed) ==> l.kind == Free
    {
    }

    lemma NodesInside(head: Link, ts: seq<TaskCtrl>)
      requires AllKnown() && head in links && forall t :: t in ts ==> t in registered
      ensures Nodes(head, ts) <= links
    {
    }

    /** There is always a task to run. */
    lemma SleeperRuns()
      requires StateOk() && IsSleeper(sleeper)
      ensures sleeper in runnable && runnable != []
    {
    }

    /** The tasks whose countdown has run out. */
    ghost function Due(): set<TaskCtrl>
      reads this`registered, registered`ticksUntilWake
    {
      set t | t in registered && t.ticksUntilWake == 0
    }

    /** The body of the loop of `rtos_tick`. */
    method TickTask(task: TaskCtrl)
      requires ListsOk() && task in registered
      modifies this`runnable, links`next, links`prev, task`ticksUntilWake
      ensures ListsOk() && task.ticksUntilWake == Ticked(old(task.ticksUntilWake), task.period)
      ensures runnable ==
              if old(task.ticksUntilWake) == 0 && task !in old(runnable) then Placed(old(runnable), task) else old(runnable)
    {
      hide ListsOk;
      if task.ticksUntilWake == 0 {
        var found := TaskRunnable(task);
        if !found {
          PlaceRunnable(task);
        }
        task.ticksUntilWake := task.period;
      } else {
        task.ticksUntilWake := task.ticksUntilWake - 1;
      }
    }

    /** `rtos_tick`: every periodic task counts down; one that was at zero is made runnable, unless it
        still is, and starts over. */
    method Tick()
      requires ListsOk()
      modifies this`runnable, links`next, links`prev, registered`ticksUntilWake
      ensures ListsOk() && runnable == Woken(old(runnable), periodic, old(Due()))
      ensures forall t :: t in periodic ==> t.ticksUntilWake == Ticked(old(t.ticksUntilWake), t.period)
      ensures forall t :: t in registered && t !in periodic ==> t.ticksUntilWake == old(t.ticksUntilWake)
    {
      hide ListsOk, At, Woken;
      EntriesOk();
      HeadIsFirst();
      NoneWoken(runnable, Due());
      ghost var due := Due();
      var node := NextPeriodic(periodicHead, 0);
      ghost var i := 0;
      while node != periodicHead
        invariant ListsOk() && i <= |periodic|
        invariant node == At(periodicHead, periodic, i + 1) && (node == periodicHead <==> i == |periodic|)
        invariant runnable == Woken(old(runnable), periodic[..i], due)
        invariant forall t :: t in periodic[..i] ==> t.ticksUntilWake == Ticked(old(t.ticksUntilWake), t.period)
        invariant forall t :: t in registered && t !in periodic[..i] ==> t.ticksUntilWake == old(t.ticksUntilWake)
        decreases |periodic| - i
      {
        var task := PeriodicEntry(node, i);
        OneMore(periodic, i);
        OneWoken(old(runnable), periodic, i, due);
        TickTask(task);
        node := NextPeriodic(node, i + 1);
        i := i + 1;
      }
      assert periodic[..i] == periodic;
    }

    lemma HeadIsFirst()
      ensures At(periodicHead, periodic, 0) == periodicHead
    {
    }

    lemma OneMore(ts: seq<TaskCtrl>, i: nat)
      requires Distinct(ts) && i < |ts|
      ensures ts[..i + 1][..i] == ts[..i] && ts[i] !in ts[..i]
      ensures forall t :: t in ts[..i + 1] <==> t in ts[..i] || t == ts[i]
    {
      assert ts[..i + 1] == ts[..i] + [ts[i]];
    }

    /** `rtos_tick` as a step of the system. */
    method TickStep()
      requires Valid()
      modifies this`runnable, links`next, links`prev, registered`ticksUntilWake
      ensures Valid() && runnable == Woken(old(runnable), periodic, old(Due()))
      ensures forall t :: t in registered ==>
                t.ticksUntilWake == if t in periodic then Ticked(old(t.ticksUntilWake), t.period) else old(t.ticksUntilWake)
    {
      hide ListsOk;
      EntriesOk();
      WokenKeeps(runnable, periodic, Due());
      Tick();
    }

    /** A yield or a directed switch, `svc_task_switch`. */
    method SwitchStep(task: TaskCtrl?) returns (r: int)
      requires Valid() && taskSwitching
      modifies this`currTask, this`runnable, this`taskSwitching, links`next, links`prev, registered`running
      ensures Valid() && taskSwitching && multiset(runnable) == multiset(old(runnable))
      ensures r == if task == null || task in old(runnable) then 0 else -1
      ensures r == 0 ==> currTask == if task == null then old(runnable)[0] else task
      ensures r == -1 ==> currTask == old(currTask)
      ensures old(runnable) != [] && runnable == if task == null then Turn(old(runnable)) else old(runnable)
    {
      hide ListsOk;
      EntriesOk();
      TurnKeeps(runnable);
      r := SvcTaskSwitch(task);
    }

    // ----- kernel/sched/sched_new.c -----

    /** `new_task`, when there is memory for it. */
    method NewTask(priority: nat, period: nat) returns (t: TaskCtrl)
      requires Valid()
      modifies this`runnable, this`periodic, this`registered, this`links, this`totalTasks, links`next, links`prev
      ensures Valid() && fresh(t) && t.priority == priority && t.period == period
      ensures t.held == seq(HELD_MUTEXES_MAX, _ => null) && t.waiting == null && !t.aborted && t.ticksUntilWake == period
      ensures totalTasks == old(totalTasks) + 1
      ensures old(links) <= links && fresh(links - old(links)) && registered == old(registered) + {t}
      ensures runnable == Placed(old(runnable), t) && periodic == if period > 0 then Placed(old(periodic), t) else old(periodic)
    {
      hide Valid, Placed, LinksOk;
      t := new TaskCtrl(priority, period);
      Admit(t);
    }

    /** The part of `new_task` behind the allocation. */
    method Admit(t: TaskCtrl)
      requires Valid() && t !in registered && LinksOk(t)
      modifies this`runnable, this`periodic, this`registered, this`links, this`totalTasks
      modifies links`next, links`prev, OwnNodes(t)`next, OwnNodes(t)`prev
      ensures Valid() && registered == old(registered) + {t} && totalTasks == old(totalTasks) + 1
      ensures links == old(links) + OwnNodes(t)
      ensures runnable == Placed(old(runnable), t) && periodic == if t.period > 0 then Placed(old(periodic), t) else old(periodic)
    {
      hide ListsOk, Consistent, Placed;
      NewFacts(t);
      Insert(t);
      totalTasks := totalTasks + 1;
    }

    /** The list operations. */
    method Insert(t: TaskCtrl)
      requires ListsOk() && t !in runnable && t !in periodic && LinksOk(t)
      modifies this`runnable, this`periodic, this`registered, this`links
      modifies links`next, links`prev, OwnNodes(t)`next, OwnNodes(t)`prev
      ensures ListsOk() && registered == old(registered) + {t} && links == old(links) + OwnNodes(t)
      ensures runnable == Placed(old(runnable), t) && periodic == if t.period > 0 then Placed(old(periodic), t) else old(periodic)
    {
      hide ListsOk, Placed;
      Enrol(t);
      SvcRegisterTask(t, t.period);
    }

    lemma NewFacts(t: TaskCtrl)
      requires ListsOk() && StateOk() && t !in registered
      ensures t !in runnable && t !in periodic && (forall u :: u in runnable ==> u in Placed(runnable, t))
      ensures var periodic' := if t.period > 0 then Placed(periodic, t) else periodic;
              Consistent(Placed(runnable, t), periodic', freed, registered + {t}, terminated, totalTasks + 1)
    {
      EntriesOk();
      ConsistentNew(runnable, periodic, freed, registered, terminated, totalTasks, t);
      PlacedMembers(runnable, t);
    }

    /** The task's nodes are as `create_task` leaves them. */
    ghost method Enrol(t: TaskCtrl)
      requires ListsOk() && LinksOk(t)
      modifies this`registered, this`links
      ensures ListsOk() && registered == old(registered) + {t}
      ensures links == old(links) + OwnNodes(t)
    {
      registered := registered + {t};
      links := links + OwnNodes(t);
    }

    /** `svc_register_task`. */
    method SvcRegisterTask(t: TaskCtrl, period: nat)
      requires ListsOk() && t in registered && t !in runnable && t !in periodic
      modifies this`runnable, this`periodic, links`next, links`prev
      ensures ListsOk()
      ensures runnable == Placed(old(runnable), t) && periodic == if period > 0 then Placed(old(periodic), t) else old(periodic)
    {
      hide ListsOk;
      EntriesOk();
      PlacedMembers(runnable, t);
      PlacedMembers(periodic, t);
      PlaceRunnable(t);
      if period > 0 {
        PlacePeriodic(t);
      }
    }

    /** No task holds a mutex, waits for one, has been aborted, or has ended. */
    ghost predicate Untouched()
      reads this`registered, this`terminated, registered`held, registered`waiting, registered`aborted
    {
      && terminated == {}
      && forall t :: t in registered ==> t.held == seq(HELD_MUTEXES_MAX, _ => null) && t.waiting == null && !t.aborted
    }

    /** `new_task` before task switching begins. */
    method NewBootTask(priority: nat, period: nat) returns (t: TaskCtrl)
      requires Valid() && Untouched()
      modifies this`runnable, this`periodic, this`registered, this`links, this`totalTasks, links`next, links`prev
      ensures Valid() && Untouched() && fresh(t) && t.priority == priority && t.period == period
      ensures registered == old(registered) + {t}
      ensures fresh(links - old(links)) && t in Live()
      ensures runnable == Placed(old(runnable), t) && periodic == if period > 0 then Placed(old(periodic), t) else old(periodic)
    {
      hide ListsOk, Consistent, Placed;
      t := NewTask(priority, period);
    }

    /** The tasks `main` registers. */
    method Boot(boot: seq<(nat, nat)>) returns (tasks: seq<TaskCtrl>)
      requires Valid() && !taskSwitching && IsSleeper(sleeper) && Untouched()
      modifies this`runnable, this`periodic, this`registered, this`links, this`totalTasks, links`next, links`prev
      ensures Valid() && !taskSwitching && IsSleeper(sleeper) && Untouched()
      ensures fresh(links - old(links)) && fresh(registered - old(registered))
      ensures AreTasks(tasks, boot) && registered == old(registered) + set t | t in tasks
      ensures runnable == PlacedAll(old(runnable), tasks) && periodic == PlacedAll(old(periodic), WithPeriod(tasks))
    {
      hide ListsOk, Consistent, Placed, Untouched, PlacedAll, WithPeriod;
      tasks := [];
      NonePlaced(runnable);
      NonePlaced(periodic);
      var i := 0;
      while i < |boot|
        invariant i <= |boot| && Valid() && !taskSwitching && IsSleeper(sleeper) && Untouched()
        invariant fresh(links - old(links)) && fresh(registered - old(registered))
        invariant AreTasks(tasks, boot[..i]) && registered == old(registered) + set t | t in tasks
        invariant runnable == PlacedAll(old(runnable), tasks) && periodic == PlacedAll(old(periodic), WithPeriod(tasks))
      {
        var t := NewBootTask(boot[i].0, boot[i].1);
        PlacedNext(old(runnable), tasks, t);
        PlacedNext(old(periodic), WithPeriod(tasks), t);
        tasks := tasks + [t];
        i := i + 1;
      }
      assert boot[..i] == boot;
    }

    /** The tasks of `start_sched`: the kernel task, the sleep task, and the boot tasks. */
    method StartTasks(kernelPeriod: nat, boot: seq<(nat, nat)>) returns (tasks: seq<TaskCtrl>)
      requires Valid() && !taskSwitching && Untouched() && registered == {}
      modifies this`runnable, this`periodic, this`registered, this`links, this`totalTasks, this`sleeper, links`next, links`prev
      ensures Valid() && !taskSwitching && IsSleeper(sleeper) && Untouched()
      ensures fresh(links - old(links)) && fresh(registered)
      ensures AreTasks(tasks, [(10, kernelPeriod), (0, 0)] + boot) && sleeper == tasks[1] && registered == set t | t in tasks
      ensures runnable == PlacedAll([], tasks) && periodic == PlacedAll([], WithPeriod(tasks))
    {
      hide Valid, Untouched, IsSleeper, Placed, PlacedAll, WithPeriod;
      NothingListed();
      var kernel := NewBootTask(10, kernelPeriod);
      var sleep := NewSleeper();
      PlacedTwo(kernel, sleep);
      var others := Boot(boot);
      tasks := [kernel, sleep] + others;
      PlacedAppend([], [kernel, sleep], others);
      PlacedAppend([], WithPeriod([kernel, sleep]), WithPeriod(others));
    }

    lemma NothingListed()
      requires Valid() && registered == {}
      ensures runnable == [] && periodic == []
    {
      Listed(runnable, registered);
      Listed(periodic, registered);
    }

    /** The sleep task. */
    method NewSleeper() returns (t: TaskCtrl)
      requires Valid() && !taskSwitching && Untouched()
      modifies this`runnable, this`periodic, this`registered, this`links, this`totalTasks, this`sleeper, links`next, links`prev
      ensures Valid() && Untouched() && fresh(t) && t.priority == 0 && t.period == 0 && sleeper == t && IsSleeper(t)
      ensures registered == old(registered) + {t} && fresh(links - old(links))
      ensures runnable == Placed(old(runnable), t) && periodic == old(periodic)
    {
      hide ListsOk, Consistent, Placed, Untouched;
      t := NewBootTask(0, 0);
      sleeper := t;
    }

    /** `start_sched`: the tasks, and the first switch. The first to run is the first of the highest, and it
        is placed again. */
    method Start(kernelPeriod: nat, boot: seq<(nat, nat)>) returns (tasks: seq<TaskCtrl>)
      requires Valid() && !taskSwitching && Untouched() && registered == {}
      modifies this, links`next, links`prev, registered`running
      ensures Valid() && taskSwitching && Untouched()
      ensures fresh(links - old(links)) && fresh(registered)
      ensures AreTasks(tasks, [(10, kernelPeriod), (0, 0)] + boot) && sleeper == tasks[1] && registered == set t | t in tasks
      ensures currTask != null && FirstHighest(tasks, currTask)
      ensures PlacedAll([], tasks) != [] && runnable == Turn(PlacedAll([], tasks)) && periodic == PlacedAll([], WithPeriod(tasks))
    {
      hide Valid, Untouched, IsSleeper, PlacedAll, Turn, WithPeriod, FirstHighest;
      tasks := StartTasks(kernelPeriod, boot);
      HeadIsHighest(tasks);
      FirstSwitch();
    }

    method FirstSwitch()
      requires Valid() && !taskSwitching && IsSleeper(sleeper)
      modifies this`currTask, this`runnable, this`taskSwitching, links`next, links`prev, registered`running
      ensures Valid() && taskSwitching && old(runnable) != []
      ensures currTask == old(runnable)[0] && runnable == Turn(old(runnable)) && periodic == old(periodic)
    {
      hide ListsOk, Turn;
      EntriesOk();
      SleeperRuns();
      TurnConsistent(runnable, periodic, freed, registered, terminated, totalTasks);
      hide Consistent;
      var r := SvcTaskSwitch(null);
    }

    // ----- kernel/sched/sched_end.c -----

    /** Whether `task` only waits for its next period, or has ended. */
    twostate predicate Left(task: TaskCtrl)
      reads this`periodic, this`freed, this`terminated, this`totalTasks
    {
      if task.period > 0 && !old(task.aborted) then
        periodic == old(periodic) && freed == old(freed) && terminated == old(terminated) && totalTasks == old(totalTasks)
      else
        && (task.period > 0 ==> task in old(periodic) && periodic == Without(old(periodic), task))
        && (task.period == 0 ==> periodic == old(periodic))
        && freed == [task] + old(freed) && terminated == old(terminated) + {task} && totalTasks == old(totalTasks) - 1
    }

    /** `sched_svc_end_task` up to the switch. */
    method Leave(task: TaskCtrl)
      requires ListsOk() && StateOk() && task in runnable
      modifies this`runnable, this`periodic, this`freed, this`terminated, this`totalTasks, links`next, links`prev, task`running
      ensures ListsOk() && StateOk() && Left(task) && runnable == Without(old(runnable), task)
    {
      hide ListsOk, Consistent, Without;
      EntriesOk();
      EndFacts(task);
      RemoveRunnable(task);
      if task.period > 0 && task.aborted {
        RemovePeriodic(task);
      }
      if !task.aborted && task.period > 0 {
        task.running := false;
      } else {
        Retire(task);
      }
    }

    /** The task is queued to be freed. */
    method Retire(task: TaskCtrl)
      requires ListsOk() && task in registered && task !in freed
      modifies this`freed, this`terminated, this`totalTasks, links`next, links`prev
      ensures ListsOk() && freed == [task] + old(freed)
      ensures terminated == old(terminated) + {task} && totalTasks == old(totalTasks) - 1
    {
      hide ListsOk;
      AddFreed(task);
      totalTasks := totalTasks - 1;
      terminated := terminated + {task};
    }

    lemma EndFacts(task: TaskCtrl)
      requires ListsOk() && StateOk() && task in runnable
      ensures task in registered && task !in freed && (task.period > 0 ==> task in periodic)
      ensures task.period > 0 ==>
                Consistent(Without(runnable, task), periodic, freed, registered, terminated, totalTasks)
      ensures var periodic' := if task.period > 0 then Without(periodic, task) else periodic;
              Consistent(Without(runnable, task), periodic', [task] + freed, registered, terminated + {task}, totalTasks - 1)
    {
      EntriesOk();
      if task.period > 0 {
        ConsistentRest(runnable, periodic, freed, registered, terminated, totalTasks, task);
      }
      ConsistentEnd(runnable, periodic, freed, registered, terminated, totalTasks, task);
    }

    /** `sched_svc_end_task`: a periodic task that was not aborted waits for its next period; any other
        goes to the list of tasks to be freed. The sleep task never ends. */
    method EndTask()
      requires Valid() && taskSwitching && currTask != sleeper
      modifies this`currTask, this`runnable, this`periodic, this`freed, this`terminated, this`totalTasks
      modifies links`next, links`prev, registered`running
      ensures Valid()
      ensures var t := old(currTask);
              && t != null && t in old(runnable) && Without(old(runnable), t) != []
              && runnable == Turn(Without(old(runnable), t)) && currTask == Without(old(runnable), t)[0]
              && Left(t)
    {
      hide ListsOk, Without, Turn, Consistent;
      EntriesOk();
      var task := currTask;
      SleeperStays(task);
      Leave(task);
      EntriesOk();
      SleeperRuns();
      TurnConsistent(runnable, periodic, freed, registered, terminated, totalTasks);
      SwitchTask(null);
    }

    lemma SleeperStays(task: TaskCtrl)
      requires StateOk() && IsSleeper(sleeper) && task != sleeper && task in runnable
      ensures task in registered && IsSleeper(sleeper)
    {
    }

    /** `abort`. */
    method Abort()
      requires Valid() && taskSwitching && currTask != sleeper
      modifies this`currTask, this`runnable, this`periodic, this`freed, this`terminated, this`totalTasks
      modifies links`next, links`prev, registered`running, registered`aborted
      ensures Valid()
      ensures var t := old(currTask);
              && t != null && t in old(runnable) && Without(old(runnable), t) != []
              && runnable == Turn(Without(old(runnable), t)) && currTask == Without(old(runnable), t)[0]
              && (t.period > 0 ==> t in old(periodic) && periodic == Without(old(periodic), t))
              && (t.period == 0 ==> periodic == old(periodic))
              && freed == [t] + old(freed) && terminated == old(terminated) + {t} && totalTasks == old(totalTasks) - 1
      ensures forall t :: t in registered && t != old(currTask) ==> t.aborted == old(t.aborted)
    {
      hide ListsOk, Without, Turn;
      EntriesOk();
      currTask.aborted := true;
      EndTask();
    }

    // ----- kernel/sched/kernel_task.c -----

    /** `list_empty(&free_task_list)`. */
    method NothingFreed() returns (r: bool)
      requires ListsOk()
      ensures r == (freed == [])
    {
      r := ListEmpty(freeHead, freed);
    }

    /** The kernel task takes the task that has waited longest to be freed. */
    method TakeFreed() returns (t: TaskCtrl)
      requires Valid() && freed != []
      modifies this`freed, links`next, links`prev
      ensures Valid() && t == old(freed)[|old(freed)| - 1] && freed == old(freed)[..|old(freed)| - 1] && t in terminated && t !in freed
      ensures forall u :: u in registered && u != t ==> (u in freed <==> u in old(freed))
    {
      hide ListsOk;
      EntriesOk();
      LastApart(freed);
      t := PopFreed();
    }

    lemma LastApart(ts: seq<TaskCtrl>)
      requires Distinct(ts) && ts != []
      ensures var last := ts[|ts| - 1];
              last in ts && last !in ts[..|ts| - 1] && forall t :: t in ts ==> t in ts[..|ts| - 1] || t == last
    {
      assert ts == ts[..|ts| - 1] + [ts[|ts| - 1]];
    }
  }
}
