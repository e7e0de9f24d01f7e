/** The reentrant mutex of kernel/reentrant_mutex.c under any interleaving of its callers: each
    statement is one step, the inner mutex is taken and released atomically. */
module Reentrant {
  import opened Wrappers

  /** The statement a task executes next; `Outside` when it is in neither function. */
  datatype Pc =
    | Outside
    | TestHolder      // does the caller hold it
    | Increment       // one more nested acquire
    | AcquireInner    // waits for the inner mutex
    | SetHolder       // the caller is recorded
    | SetCount        // as having acquired it once
    | CheckHolder     // only the holder may release
    | Decrement       // is this the outermost release
    | ClearHolder     // nobody is recorded
    | ReleaseInner    // lets the inner mutex go
    | WarnCount       // warns of a negative count

  datatype Call = ReentrantAcquire | ReentrantRelease

  /** A task: where it is, and how many of its acquires are not yet released. */
  datatype Task = Task(pc: Pc, depth: nat)

  datatype State = State(inner: Option<nat>, heldBy: Option<nat>, count: int, tasks: seq<Task>, panicked: bool, warned: bool)

  function Initial(n: nat): State {
    State(None, None, 0, seq(n, _ => Task(Outside, 0)), false, false)
  }

  /** The inner mutex is waited for, and a release matches an acquire. */
  predicate Enabled(s: State, t: nat, call: Call) {
    && t < |s.tasks|
    && (s.tasks[t].pc == AcquireInner ==> s.inner == None)
    && (s.tasks[t].pc == Outside && call == ReentrantRelease ==> s.tasks[t].depth > 0)
  }

  function At(s: State, t: nat, pc: Pc): State
    requires t < |s.tasks|
  {
    s.(tasks := s.tasks[t := s.tasks[t].(pc := pc)])
  }

  /** The task returns with the given depth. */
  function Back(s: State, t: nat, depth: nat): State
    requires t < |s.tasks|
  {
    s.(tasks := s.tasks[t := Task(Outside, depth)])
  }

  /** One statement of task `t`; a task outside starts `call`. */
  function Next(s: State, t: nat, call: Call): State
    requires Enabled(s, t, call)
  {
    var me := s.tasks[t];
    match me.pc
    case Outside => At(s, t, if call == ReentrantAcquire then TestHolder else CheckHolder)
    case TestHolder => At(s, t, if s.heldBy == Some(t) then Increment else AcquireInner)
    case Increment => Back(s.(count := s.count + 1), t, me.depth + 1)
    case AcquireInner => At(s.(inner := Some(t)), t, SetHolder)
    case SetHolder => At(s.(heldBy := Some(t)), t, SetCount)
    case SetCount => Back(s.(count := 1), t, me.depth + 1)
    case CheckHolder => if s.heldBy != Some(t) then s.(panicked := true) else At(s, t, Decrement)
    case Decrement =>
      var s' := s.(count := s.count - 1);
      At(s', t, if s'.count == 0 then ClearHolder else WarnCount)
    case ClearHolder => At(s.(heldBy := None), t, ReleaseInner)
    case ReleaseInner => At(s.(inner := None), t, WarnCount)
    case WarnCount => Back(if s.count < 0 then s.(warned := true) else s, t, if me.depth > 0 then me.depth - 1 else 0)
  }

  // ----- what every run keeps -----

  /** Where the task that has the inner mutex can be, and what it has recorded there. */
  predicate OwnerOk(s: State, t: nat)
    requires t < |s.tasks|
  {
    var me := s.tasks[t];
    match me.pc
    case SetHolder => s.heldBy == None && s.count == 0 && me.depth == 0
    case SetCount => s.heldBy == Some(t) && s.count == 0 && me.depth == 0
    case WarnCount => s.heldBy == Some(t) && s.count == me.depth - 1 >= 1
    case ClearHolder => s.heldBy == Some(t) && s.count == 0 && me.depth == 1
    case ReleaseInner => s.heldBy == None && s.count == 0 && me.depth == 1
    case AcquireInner => false
    case _ => s.heldBy == Some(t) && s.count == me.depth >= 1
  }

  /** Every other task is outside, on its way to the inner mutex, or returning from its last release. */
  predicate OtherOk(s: State, t: nat)
    requires t < |s.tasks|
  {
    var me := s.tasks[t];
    && s.heldBy != Some(t)
    && me.pc in {Outside, TestHolder, AcquireInner, WarnCount}
    && me.depth == if me.pc == WarnCount then 1 else 0
  }

  predicate TaskOk(s: State, t: nat)
    requires t < |s.tasks|
  {
    if s.inner == Some(t) then OwnerOk(s, t) else OtherOk(s, t)
  }

  ghost predicate Inv(s: State) {
    && !s.panicked && !s.warned && s.count >= 0
    && (s.inner == None ==> s.heldBy == None && s.count == 0)
    && (s.inner.Some? ==> s.inner.value < |s.tasks|)
    && forall t {:trigger TaskOk(s, t)} :: 0 <= t < |s.tasks| ==> TaskOk(s, t)
  }

  lemma InitialInv(n: nat)
    ensures Inv(Initial(n))
  {
    forall t | 0 <= t < n ensures TaskOk(Initial(n), t) {
      assert Initial(n).tasks[t] == Task(Outside, 0);
    }
  }

  /** Any statement of any task keeps it. */
  lemma NextInv(s: State, t: nat, call: Call)
    requires Inv(s) && Enabled(s, t, call)
    ensures Inv(Next(s, t, call))
  {
    var s' := Next(s, t, call);
    assert TaskOk(s, t);
    assert s.inner.Some? ==> TaskOk(s, s.inner.value);
    forall u | 0 <= u < |s'.tasks| ensures TaskOk(s', u) {
      assert TaskOk(s, u);
    }
  }

  /** A run: each state follows from the one before by one statement of some task. */
  ghost predicate Run(trace: seq<State>, n: nat) {
    && trace != [] && trace[0] == Initial(n)
    && forall i {:trigger Follows(trace, i)} :: 0 < i < |trace| ==> Follows(trace, i)
  }

  ghost predicate Follows(trace: seq<State>, i: nat)
    requires 0 < i < |trace|
  {
    Reaches(trace[i - 1], trace[i])
  }

  ghost predicate Reaches(s: State, s': State) {
    exists t, call :: Steps(s, t, call, s')
  }

  predicate Steps(s: State, t: nat, call: Call, s': State) {
    Enabled(s, t, call) && s' == Next(s, t, call)
  }

  lemma {:induction false} RunInv(trace: seq<State>, n: nat, i: nat)
    requires Run(trace, n) && i < |trace|
    ensures Inv(trace[i])
  {
    if i == 0 {
      InitialInv(n);
    } else {
      RunInv(trace, n, i - 1);
      assert Follows(trace, i);
      var t, call :| Steps(trace[i - 1], t, call, trace[i]);
      NextInv(trace[i - 1], t, call);
    }
  }

  /** Inside: the task has acquired the mutex more often than it has released it. */
  predicate Inside(s: State, t: nat) {
    t < |s.tasks| && s.tasks[t].depth > 0 && s.tasks[t].pc == Outside
  }

  /** In every state of every run at most one task is inside, its nesting depth is the count, and it has
      the inner mutex; the count is not negative, and neither the panic nor the warning has come. */
  lemma MutualExclusion(trace: seq<State>, n: nat, i: nat, t: nat, u: nat)
    requires Run(trace, n) && i < |trace| && Inside(trace[i], t)
    ensures var s := trace[i];
            && s.inner == Some(t) && s.heldBy == Some(t) && s.count == s.tasks[t].depth
            && (Inside(s, u) ==> u == t)
    ensures !trace[i].panicked && !trace[i].warned && trace[i].count >= 0
  {
    RunInv(trace, n, i);
    assert TaskOk(trace[i], t);
    if u < |trace[i].tasks| {
      assert TaskOk(trace[i], u);
    }
  }

  /** The inner mutex is released exactly by the release that matches the outermost acquire. */
  lemma ReleasedOutermost(s: State, t: nat, call: Call)
    requires Inv(s) && Enabled(s, t, call)
    ensures s.inner.Some? && Next(s, t, call).inner == None <==> s.tasks[t].pc == ReleaseInner
    ensures s.tasks[t].pc == ReleaseInner ==> s.inner == Some(t) && s.tasks[t].depth == 1
    ensures s.inner == Some(t) && s.tasks[t].depth > 1 ==> Next(s, t, call).inner == Some(t)
  {
    assert TaskOk(s, t);
  }

  /** A task that waits for the inner mutex is never the one that has it. */
  lemma NeverSelfBlocked(s: State, t: nat)
    requires Inv(s) && t < |s.tasks| && s.tasks[t].pc == AcquireInner
    ensures s.inner != Some(t)
  {
    assert TaskOk(s, t);
  }

  // ----- what it comes to -----

  /** A reentrant lock as its callers know it. */
  datatype Lock = Free | Taken(owner: nat, depth: nat)
  {
    /** One more acquire by `t`, if it is not kept waiting. */
    function Acquired(t: nat): Option<Lock> {
      match this
      case Free => Some(Taken(t, 1))
      case Taken(owner, depth) => if owner == t then Some(Taken(t, depth + 1)) else None
    }

    /** One release by `t`, if it is the owner. */
    function Released(t: nat): Option<Lock> {
      match this
      case Free => None
      case Taken(owner, depth) =>
        if owner != t then None else if depth > 1 then Some(Taken(t, depth - 1)) else Some(Free)
    }
  }

  /** The lock that a state stands for: an outermost acquire counts from the moment the inner mutex is
      taken, and a nested release from the moment the count goes down. */
  function Abstract(s: State): Lock
    requires s.inner.Some? ==> s.inner.value < |s.tasks|
  {
    if s.inner.None? then Free
    else
      var t := s.inner.value;
      var me := s.tasks[t];
      Taken(t, if me.pc in {SetHolder, SetCount} then 1 else if me.pc == WarnCount && me.depth > 0 then me.depth - 1 else me.depth)
  }

  /** Each statement is, for the callers, one acquire, one release, or nothing: in every interleaving the
      calls take effect one at a time, and each between its first and its last statement. */
  lemma NextRefines(s: State, t: nat, call: Call)
    requires Inv(s) && Enabled(s, t, call)
    ensures Inv(Next(s, t, call))
    ensures var before, after, pc := Abstract(s), Abstract(Next(s, t, call)), s.tasks[t].pc;
            if pc == AcquireInner || pc == Increment then before.Acquired(t) == Some(after)
            else if pc == ReleaseInner || (pc == Decrement && s.count > 1) then before.Released(t) == Some(after)
            else before == after
  {
    NextInv(s, t, call);
    assert TaskOk(s, t);
    if s.inner.Some? {
      assert TaskOk(s, s.inner.value);
    }
  }

  /** `struct reentrant_mutex`, and its two functions run without interruption. */
  class ReentrantMutex {
    var inner: Option<nat>
    var heldBy: Option<nat>
    var count: int

    ghost predicate Valid()
      reads this
    {
      heldBy == inner && count >= 0 && (count == 0 <==> inner.None?)
    }

    ghost function View(): Lock
      requires Valid()
      reads this
    {
      if inner.None? then Free else Taken(inner.value, count)
    }

    constructor ()
      ensures Valid() && View() == Free
    {
      inner, heldBy, count := None, None, 0;
    }

    /** `reentrant_acquire` by a task that is not kept waiting. */
    method Acquire(curr: nat)
      requires Valid() && View().Acquired(curr).Some?
      modifies this
      ensures Valid() && Some(View()) == old(View()).Acquired(curr)
    {
      if heldBy == Some(curr) {
        count := count + 1;
      } else {
        inner := Some(curr);
        heldBy := Some(curr);
        count := 1;
      }
    }

    /** `reentrant_release`: it panics exactly when the task is not the owner, and never warns. */
    method Release(curr: nat) returns (panicked: bool, warned: bool)
      requires Valid()
      modifies this
      ensures panicked == old(View()).Released(curr).None? && !warned && Valid()
      ensures if panicked then View() == old(View()) else Some(View()) == old(View()).Released(curr)
    {
      if heldBy != Some(curr) {
        return true, false;
      }
      count := count - 1;
      if count == 0 {
        heldBy := None;
        inner := None;
      }
      return false, count < 0;
    }
  }
}
