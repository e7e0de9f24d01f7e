/** The intrusive rings of include/list.h, with tasks as their entries, and the insertion of
    kernel/sched/sched_internals.h. A ring refines the sequence of its entries. */
module TaskLists {
  import opened Wrappers

  /** Which of its three lists a node of a task belongs to. */
  datatype Kind = Runnable | Periodic | Free

  /** `struct list`; `entry` is what `list_entry` computes, null for a list head. */
  class Link {
    const kind: Kind
    var entry: TaskCtrl?
    var next: Link
    var prev: Link

    /** `list_init`. */
    constructor (kind: Kind)
      ensures this.kind == kind && entry == null && next == this && prev == this
    {
      this.kind := kind;
      entry := null;
      next := this;
      prev := this;
    }
  }

  /** `struct mutex`. */
  class Mutex {
    var lock: bool
    var heldBy: TaskCtrl?
    var waiting: TaskCtrl?

    /** `init_mutex`. */
    constructor ()
      ensures !lock && heldBy == null && waiting == null
    {
      lock := false;
      heldBy := null;
      waiting := null;
    }
  }

  const HELD_MUTEXES_MAX := 6

  /** `task_ctrl`, without its stack. */
  class TaskCtrl {
    const priority: nat
    const period: nat
    const runnableLink: Link
    const periodicLink: Link
    const freeLink: Link
    var running: bool
    var aborted: bool
    var ticksUntilWake: nat
    var held: seq<Mutex?>
    var waiting: Mutex?

    /** `create_task`, once its memory is there. */
    constructor (priority: nat, period: nat)
      ensures this.priority == priority && this.period == period && ticksUntilWake == period
      ensures !running && !aborted && waiting == null && held == seq(HELD_MUTEXES_MAX, _ => null)
      ensures fresh(runnableLink) && fresh(periodicLink) && fresh(freeLink) && LinksOk(this)
    {
      this.priority := priority;
      this.period := period;
      runnableLink := new Link(Runnable);
      periodicLink := new Link(Periodic);
      freeLink := new Link(Free);
      running := false;
      aborted := false;
      ticksUntilWake := period;
      held := seq(HELD_MUTEXES_MAX, _ => null);
      waiting := null;
      new;
      runnableLink.entry := this;
      periodicLink.entry := this;
      freeLink.entry := this;
    }
  }

  /** A task's own node for a list. */
  function LinkOf(t: TaskCtrl, k: Kind): Link {
    match k
    case Runnable => t.runnableLink
    case Periodic => t.periodicLink
    case Free => t.freeLink
  }

  /** The nodes of a task lead back to it. */
  ghost predicate LinksOk(t: TaskCtrl)
    reads t.runnableLink`entry, t.periodicLink`entry, t.freeLink`entry
  {
    && t.runnableLink.entry == t && t.periodicLink.entry == t && t.freeLink.entry == t
    && t.runnableLink.kind == Runnable && t.periodicLink.kind == Periodic && t.freeLink.kind == Free
  }

  // ----- rings -----

  /** Node `i` of the ring: the head at both ends, the entries between. */
  ghost function At(head: Link, ts: seq<TaskCtrl>, i: nat): Link {
    if 0 < i <= |ts| then LinkOf(ts[i - 1], head.kind) else head
  }

  ghost function Nodes(head: Link, ts: seq<TaskCtrl>): set<Link> {
    {head} + set t | t in ts :: LinkOf(t, head.kind)
  }

  /** Nodes `i` and `i + 1` are joined in both directions. */
  ghost predicate Joined(head: Link, ts: seq<TaskCtrl>, i: nat)
    reads Nodes(head, ts)
  {
    && At(head, ts, i) in Nodes(head, ts) && At(head, ts, i + 1) in Nodes(head, ts)
    && At(head, ts, i).next == At(head, ts, i + 1) && At(head, ts, i + 1).prev == At(head, ts, i)
  }

  /** The nodes form one ring through the head, whose entries are `ts` in order. */
  ghost predicate IsRing(head: Link, ts: seq<TaskCtrl>)
    reads Nodes(head, ts)
  {
    && head.entry == null && Distinct(ts)
    && (forall t {:trigger LinkOf(t, head.kind)} :: t in ts ==> LinkOf(t, head.kind).entry == t && LinkOf(t, head.kind).kind == head.kind)
    && forall i {:trigger Joined(head, ts, i)} :: 0 <= i <= |ts| ==> Joined(head, ts, i)
  }

  /** No node comes twice in one turn of the ring. */
  ghost predicate Separate(head: Link, ts: seq<TaskCtrl>) {
    forall i, j {:trigger At(head, ts, i), At(head, ts, j)} ::
      0 <= i < j <= |ts| + 1 && (i > 0 || j <= |ts|) ==> At(head, ts, i) != At(head, ts, j)
  }

  lemma RingIsSeparate(head: Link, ts: seq<TaskCtrl>)
    requires IsRing(head, ts)
    ensures Separate(head, ts)
  {
    forall i, j | 0 <= i < j <= |ts| + 1 && (i > 0 || j <= |ts|) ensures At(head, ts, i) != At(head, ts, j) {
      if i > 0 {
        assert ts[i - 1] in ts;
      }
      if j <= |ts| {
        assert ts[j - 1] in ts;
      }
    }
  }

  lemma OutsideRing(head: Link, ts: seq<TaskCtrl>, t: TaskCtrl)
    requires IsRing(head, ts) && LinksOk(t) && t !in ts
    ensures LinkOf(t, head.kind) !in Nodes(head, ts)
  {
  }

  lemma AtInNodes(head: Link, ts: seq<TaskCtrl>, i: nat)
    ensures At(head, ts, i) in Nodes(head, ts)
  {
    if 0 < i <= |ts| {
      assert ts[i - 1] in ts;
    }
  }

  // ----- include/list.h -----

  /** `list_insert`. */
  method ListInsert(item: Link, before: Link, after: Link)
    requires item != before && item != after
    modifies before`next, item`prev, item`next, after`prev
    ensures before.next == item && item.prev == before && item.next == after && after.prev == item
  {
    before.next := item;
    item.prev := before;
    item.next := after;
    after.prev := item;
  }

  function InsertedAt(ts: seq<TaskCtrl>, k: nat, t: TaskCtrl): seq<TaskCtrl>
    requires k <= |ts|
  {
    ts[..k] + [t] + ts[k..]
  }

  lemma AtInserted(head: Link, ts: seq<TaskCtrl>, k: nat, t: TaskCtrl, i: nat)
    requires k <= |ts| && i <= |ts| + 2
    ensures At(head, InsertedAt(ts, k, t), i) ==
            if i <= k then At(head, ts, i) else if i == k + 1 then LinkOf(t, head.kind) else At(head, ts, i - 1)
  {
  }

  /** A node put between two neighbours of a ring. */
  method InsertBetween(head: Link, ghost ts: seq<TaskCtrl>, ghost k: nat, t: TaskCtrl, before: Link, after: Link)
    requires IsRing(head, ts) && k <= |ts| && before == At(head, ts, k) && after == At(head, ts, k + 1)
    requires LinksOk(t) && t !in ts
    modifies before`next, LinkOf(t, head.kind)`prev, LinkOf(t, head.kind)`next, after`prev
    ensures IsRing(head, InsertedAt(ts, k, t))
  {
    var item := LinkOf(t, head.kind);
    AtInNodes(head, ts, k);
    AtInNodes(head, ts, k + 1);
    OutsideRing(head, ts, t);
    RingIsSeparate(head, ts);
    ListInsert(item, before, after);
    ghost var r := InsertedAt(ts, k, t);
    forall i | 0 <= i <= |r| ensures Joined(head, r, i) {
      AtInserted(head, ts, k, t, i);
      AtInserted(head, ts, k, t, i + 1);
      AtInNodes(head, r, i);
      AtInNodes(head, r, i + 1);
      if i < k {
        assert old(Joined(head, ts, i));
      } else if i > k + 1 {
        assert old(Joined(head, ts, i - 1));
      }
    }
    InsertedEntries(head, ts, k, t);
  }

  lemma InsertedEntries(head: Link, ts: seq<TaskCtrl>, k: nat, t: TaskCtrl)
    requires k <= |ts| && Distinct(ts) && t !in ts && LinksOk(t)
    requires forall u {:trigger LinkOf(u, head.kind)} :: u in ts ==> LinkOf(u, head.kind).entry == u && LinkOf(u, head.kind).kind == head.kind
    ensures var r := InsertedAt(ts, k, t);
            && Distinct(r)
            && forall u {:trigger LinkOf(u, head.kind)} :: u in r ==> LinkOf(u, head.kind).entry == u && LinkOf(u, head.kind).kind == head.kind
  {
  }

  /** `list_empty`. */
  method ListEmpty(head: Link, ghost ts: seq<TaskCtrl>) returns (r: bool)
    requires IsRing(head, ts)
    ensures r == (ts == [])
  {
    assert Joined(head, ts, 0);
    if ts != [] {
      assert ts[0] in ts;
    }
    return head == head.next;
  }

  /** `list_entry` of a node. */
  method Entry(head: Link, ghost ts: seq<TaskCtrl>, ghost i: nat, node: Link) returns (t: TaskCtrl)
    requires IsRing(head, ts) && i < |ts| && node == At(head, ts, i + 1)
    ensures t == ts[i]
  {
    assert ts[i] in ts;
    return node.entry;
  }

  /** `list_add_head`. */
  method AddHead(head: Link, ghost ts: seq<TaskCtrl>, t: TaskCtrl)
    requires IsRing(head, ts) && LinksOk(t) && t !in ts
    modifies Nodes(head, ts)`next, Nodes(head, ts)`prev, LinkOf(t, head.kind)`next, LinkOf(t, head.kind)`prev
    ensures IsRing(head, [t] + ts)
  {
    assert Joined(head, ts, 0);
    InsertBetween(head, ts, 0, t, head, head.next);
    assert InsertedAt(ts, 0, t) == [t] + ts;
  }

  /** `list_add_tail`. */
  method AddTail(head: Link, ghost ts: seq<TaskCtrl>, t: TaskCtrl)
    requires IsRing(head, ts) && LinksOk(t) && t !in ts
    modifies Nodes(head, ts)`next, Nodes(head, ts)`prev, LinkOf(t, head.kind)`next, LinkOf(t, head.kind)`prev
    ensures IsRing(head, ts + [t])
  {
    assert Joined(head, ts, |ts|);
    InsertBetween(head, ts, |ts|, t, head.prev, head);
    assert InsertedAt(ts, |ts|, t) == ts + [t];
  }

  /** `list_insert_before` entry `k`. */
  method InsertBefore(head: Link, ghost ts: seq<TaskCtrl>, ghost k: nat, t: TaskCtrl, insertPoint: Link)
    requires IsRing(head, ts) && k < |ts| && insertPoint == At(head, ts, k + 1) && LinksOk(t) && t !in ts
    modifies Nodes(head, ts)`next, Nodes(head, ts)`prev, LinkOf(t, head.kind)`next, LinkOf(t, head.kind)`prev
    ensures IsRing(head, InsertedAt(ts, k, t))
  {
    assert Joined(head, ts, k);
    InsertBetween(head, ts, k, t, insertPoint.prev, insertPoint);
  }

  // ----- removing -----

  lemma AtRemoved(head: Link, ts: seq<TaskCtrl>, k: nat, i: nat)
    requires k < |ts| && i <= |ts|
    ensures At(head, RemovedAt(ts, k), i) == if i <= k then At(head, ts, i) else At(head, ts, i + 1)
  {
  }

  /** `list_remove` of entry `k`; the node itself keeps its pointers. */
  method ListRemove(head: Link, ghost ts: seq<TaskCtrl>, ghost k: nat, element: Link)
    requires IsRing(head, ts) && k < |ts| && element == LinkOf(ts[k], head.kind)
    modifies Nodes(head, ts)`next, Nodes(head, ts)`prev
    ensures IsRing(head, RemovedAt(ts, k))
  {
    RingIsSeparate(head, ts);
    assert Joined(head, ts, k) && Joined(head, ts, k + 1);
    assert element == At(head, ts, k + 1);
    var before := element.prev;
    var after := element.next;
    AtInNodes(head, ts, k);
    AtInNodes(head, ts, k + 2);
    before.next := after;
    after.prev := before;
    ghost var r := RemovedAt(ts, k);
    forall i | 0 <= i <= |r| ensures Joined(head, r, i) {
      AtRemoved(head, ts, k, i);
      AtRemoved(head, ts, k, i + 1);
      AtInNodes(head, r, i);
      AtInNodes(head, r, i + 1);
      if i < k {
        assert old(Joined(head, ts, i));
      } else if i > k {
        assert old(Joined(head, ts, i + 1));
      }
    }
  }

  /** `list_pop_head`, `list_entry`. */
  method PopHead(head: Link, ghost ts: seq<TaskCtrl>) returns (t: TaskCtrl)
    requires IsRing(head, ts) && ts != []
    modifies Nodes(head, ts)`next, Nodes(head, ts)`prev
    ensures t == ts[0] && IsRing(head, ts[1..])
  {
    assert Joined(head, ts, 0);
    t := Entry(head, ts, 0, head.next);
    ListRemove(head, ts, 0, head.next);
    assert RemovedAt(ts, 0) == ts[1..];
  }

  /** `list_pop_tail`, `list_entry`. */
  method PopTail(head: Link, ghost ts: seq<TaskCtrl>) returns (t: TaskCtrl)
    requires IsRing(head, ts) && ts != []
    modifies Nodes(head, ts)`next, Nodes(head, ts)`prev
    ensures t == ts[|ts| - 1] && IsRing(head, ts[..|ts| - 1])
  {
    assert Joined(head, ts, |ts|);
    t := Entry(head, ts, |ts| - 1, head.prev);
    ListRemove(head, ts, |ts| - 1, head.prev);
    assert RemovedAt(ts, |ts| - 1) == ts[..|ts| - 1];
  }

  // ----- searching and placing -----

  lemma HeadAtEnd(head: Link, ts: seq<TaskCtrl>, i: nat)
    requires IsRing(head, ts) && i <= |ts|
    ensures At(head, ts, i + 1) == head <==> i == |ts|
  {
    if i < |ts| {
      assert ts[i] in ts;
    }
  }

  /** The loop of `task_runnable`. */
  method Contains(head: Link, ghost ts: seq<TaskCtrl>, sought: TaskCtrl) returns (r: bool)
    requires IsRing(head, ts)
    ensures r == (sought in ts)
  {
    assert Joined(head, ts, 0);
    HeadAtEnd(head, ts, 0);
    var node := head.next;
    ghost var i := 0;
    while node != head
      invariant i <= |ts| && node == At(head, ts, i + 1) && sought !in ts[..i]
      invariant node == head <==> i == |ts|
      decreases |ts| - i
    {
      assert Joined(head, ts, i + 1);
      var t := Entry(head, ts, i, node);
      if t == sought {
        return true;
      }
      node := node.next;
      i := i + 1;
      HeadAtEnd(head, ts, i);
    }
    return false;
  }

  /** Where `insert_task` puts a task: in front when it is above the first, at the end when it is not
      above the last, and otherwise right before the last. */
  function Placed(ts: seq<TaskCtrl>, t: TaskCtrl): seq<TaskCtrl> {
    if ts == [] || t.priority > ts[0].priority then [t] + ts
    else if t.priority <= ts[|ts| - 1].priority then ts + [t]
    else InsertedAt(ts, |ts| - 1, t)
  }

  /** The search of `insert_task` for a place in the middle: the node of the last task of lower
      priority, since it does not stop at the first. */
  method FindPlace(head: Link, ghost ts: seq<TaskCtrl>, newTask: TaskCtrl) returns (insertPoint: Link?)
    requires IsRing(head, ts)
    ensures insertPoint == null <==> forall i :: 0 <= i < |ts| ==> newTask.priority <= ts[i].priority
    ensures insertPoint != null ==>
              exists k :: 0 <= k < |ts| && newTask.priority > ts[k].priority && insertPoint == At(head, ts, k + 1)
                          && forall i :: k < i < |ts| ==> newTask.priority <= ts[i].priority
  {
    assert Joined(head, ts, 0);
    HeadAtEnd(head, ts, 0);
    insertPoint := null;
    var element := head.next;
    ghost var i, last := 0, 0;
    while element != head
      invariant i <= |ts| && element == At(head, ts, i + 1)
      invariant element == head <==> i == |ts|
      invariant insertPoint == null ==> forall j :: 0 <= j < i ==> newTask.priority <= ts[j].priority
      invariant insertPoint != null ==>
                  && last < i && newTask.priority > ts[last].priority && insertPoint == At(head, ts, last + 1)
                  && forall j :: last < j < i ==> newTask.priority <= ts[j].priority
      decreases |ts| - i
    {
      assert Joined(head, ts, i + 1);
      var task := Entry(head, ts, i, element);
      if newTask.priority > task.priority {
        insertPoint := element;
        last := i;
      }
      element := element.next;
      i := i + 1;
      HeadAtEnd(head, ts, i);
    }
  }

  /** The first and the last task. */
  method Ends(head: Link, ghost ts: seq<TaskCtrl>) returns (first: TaskCtrl, last: TaskCtrl)
    requires IsRing(head, ts) && ts != []
    ensures first == ts[0] && last == ts[|ts| - 1]
  {
    assert Joined(head, ts, 0) && Joined(head, ts, |ts|);
    first := Entry(head, ts, 0, head.next);
    last := Entry(head, ts, |ts| - 1, head.prev);
  }

  /** `insert_task`. Its panic for finding no place is never reached. */
  method InsertTask(head: Link, ghost ts: seq<TaskCtrl>, newTask: TaskCtrl)
    requires IsRing(head, ts) && LinksOk(newTask) && newTask !in ts
    modifies Nodes(head, ts)`next, Nodes(head, ts)`prev, LinkOf(newTask, head.kind)`next, LinkOf(newTask, head.kind)`prev
    ensures IsRing(head, Placed(ts, newTask))
  {
    hide IsRing, At;
    var empty := ListEmpty(head, ts);
    if empty {
      AddHead(head, ts, newTask);
    } else {
      var first, last := Ends(head, ts);
      if newTask.priority > first.priority {
        AddHead(head, ts, newTask);
      } else if newTask.priority <= last.priority {
        AddTail(head, ts, newTask);
      } else {
        var insertPoint := FindPlace(head, ts, newTask);
        if insertPoint == null {
          assert false;
        }
        InsertBefore(head, ts, |ts| - 1, newTask, insertPoint);
      }
    }
  }
}
