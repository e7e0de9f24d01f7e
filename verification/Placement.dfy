/** What the placement of tasks by `insert_task` keeps, and what it does not. */
module Placement {
  import opened Wrappers
  import opened TaskLists

  lemma PlacedMembers(ts: seq<TaskCtrl>, t: TaskCtrl)
    requires Distinct(ts) && t !in ts
    ensures Distinct(Placed(ts, t)) && forall u :: u in Placed(ts, t) <==> u in ts || u == t
  {
    if ts != [] {
      var n := |ts| - 1;
      assert ts == ts[..n] + ts[n..];
    }
  }

  lemma PlacedKeeps(ts: seq<TaskCtrl>, t: TaskCtrl)
    requires Distinct(ts) && t !in ts
    ensures multiset(Placed(ts, t)) == multiset(ts) + multiset{t}
  {
    if ts != [] {
      var n := |ts| - 1;
      assert ts == ts[..n] + ts[n..];
    }
  }

  // ----- the order of priorities -----

  function Priorities(ts: seq<TaskCtrl>): (ps: seq<nat>)
    ensures |ps| == |ts| && forall i :: 0 <= i < |ts| ==> ps[i] == ts[i].priority
  {
    seq(|ts|, i requires 0 <= i < |ts| => ts[i].priority)
  }

  /** `Placed` on priorities alone. */
  function PlacedPriority(ps: seq<nat>, p: nat): seq<nat> {
    if ps == [] || p > ps[0] then [p] + ps
    else if p <= ps[|ps| - 1] then ps + [p]
    else ps[..|ps| - 1] + [p] + ps[|ps| - 1..]
  }

  lemma PlacedPriorities(ts: seq<TaskCtrl>, t: TaskCtrl)
    ensures Priorities(Placed(ts, t)) == PlacedPriority(Priorities(ts), t.priority)
  {
    var r, q := Priorities(Placed(ts, t)), PlacedPriority(Priorities(ts), t.priority);
    assert |r| == |q|;
    forall i | 0 <= i < |r| ensures r[i] == q[i] {
    }
  }

  ghost predicate Descending(ps: seq<nat>) {
    forall i, j :: 0 <= i <= j < |ps| ==> ps[i] >= ps[j]
  }

  /** At most the last priority of the list is below `p`, or all are. */
  predicate Fitting(ps: seq<nat>, p: nat) {
    |ps| < 2 || p > ps[0] || p <= ps[|ps| - 2]
  }

  /** Placing a task keeps a sorted list sorted exactly when all tasks are of lower priority, or all but
      the last are not. */
  lemma PlacementSorts(ps: seq<nat>, p: nat)
    requires Descending(ps)
    ensures Descending(PlacedPriority(ps, p)) <==> Fitting(ps, p)
  {
    var r, n := PlacedPriority(ps, p), |ps|;
    if !Fitting(ps, p) {
      assert r[n - 2] == ps[n - 2] < p == r[n - 1];
    } else if n >= 2 && p <= ps[0] && p > ps[n - 1] {
      assert forall i :: 0 <= i < n - 1 ==> ps[i] >= ps[n - 2];
    }
  }

  /** The comment over `switch_task` that the list is kept sorted does not hold. */
  lemma SortedListUnsorted()
    ensures Descending([10, 5, 1, 0]) && PlacedPriority([10, 5, 1, 0], 7) == [10, 5, 1, 7, 0]
    ensures !Descending(PlacedPriority([10, 5, 1, 0], 7))
  {
    PlacementSorts([10, 5, 1, 0], 7);
  }

  // ----- the tasks of start-up -----

  /** Tasks placed one after the other on a list. */
  ghost function PlacedAll(base: seq<TaskCtrl>, ts: seq<TaskCtrl>): seq<TaskCtrl> {
    if ts == [] then base else Placed(PlacedAll(base, ts[..|ts| - 1]), ts[|ts| - 1])
  }

  /** Those with a period, in their order. */
  ghost function WithPeriod(ts: seq<TaskCtrl>): seq<TaskCtrl> {
    if ts == [] then []
    else
      var front, t := WithPeriod(ts[..|ts| - 1]), ts[|ts| - 1];
      if t.period > 0 then front + [t] else front
  }

  lemma PlacedNext(base: seq<TaskCtrl>, ts: seq<TaskCtrl>, t: TaskCtrl)
    ensures PlacedAll(base, ts + [t]) == Placed(PlacedAll(base, ts), t)
    ensures WithPeriod(ts + [t]) == if t.period > 0 then WithPeriod(ts) + [t] else WithPeriod(ts)
  {
    hide Placed;
    assert (ts + [t])[..|ts|] == ts;
  }

  lemma {:induction false} PlacedAppend(base: seq<TaskCtrl>, ts: seq<TaskCtrl>, us: seq<TaskCtrl>)
    ensures PlacedAll(base, ts + us) == PlacedAll(PlacedAll(base, ts), us)
    ensures WithPeriod(ts + us) == WithPeriod(ts) + WithPeriod(us)
    decreases us
  {
    hide Placed, PlacedAll, WithPeriod;
    NonePlaced(base);
    NonePlaced(PlacedAll(base, ts));
    if us == [] {
      assert ts + us == ts;
    } else {
      var n, u := |us| - 1, us[|us| - 1];
      assert us == us[..n] + [u] && ts + us == (ts + us[..n]) + [u];
      PlacedAppend(base, ts, us[..n]);
      PlacedNext(base, ts + us[..n], u);
      PlacedNext(PlacedAll(base, ts), us[..n], u);
    }
  }

  lemma NonePlaced(base: seq<TaskCtrl>)
    ensures PlacedAll(base, []) == base && WithPeriod([]) == []
  {
  }

  lemma Listed(ts: seq<TaskCtrl>, s: set<TaskCtrl>)
    requires forall t :: t in ts ==> t in s
    ensures ts != [] ==> s != {}
  {
    if ts != [] {
      assert ts[0] in s;
    }
  }

  /** What placing two tasks gives. */
  lemma PlacedTwo(t: TaskCtrl, u: TaskCtrl)
    ensures PlacedAll([], [t, u]) == Placed(Placed([], t), u)
    ensures u.period == 0 ==> PlacedAll([], WithPeriod([t, u])) == if t.period > 0 then Placed([], t) else []
  {
    hide Placed, PlacedAll, WithPeriod;
    NonePlaced([]);
    PlacedNext([], [], t);
    PlacedNext([], [t], u);
    assert [] + [t] == [t] && [t] + [u] == [t, u];
  }

  /** No task of the list is above `t`, and none before `t` is level with it. */
  ghost predicate FirstHighest(ts: seq<TaskCtrl>, t: TaskCtrl) {
    exists i :: 0 <= i < |ts| && ts[i] == t
                && (forall j :: 0 <= j < |ts| ==> ts[j].priority <= t.priority)
                && (forall j :: 0 <= j < i ==> ts[j].priority < t.priority)
  }

  lemma HighestNext(ts: seq<TaskCtrl>, h: TaskCtrl, t: TaskCtrl)
    requires FirstHighest(ts, h)
    ensures FirstHighest(ts + [t], if t.priority > h.priority then t else h)
  {
    var r := ts + [t];
    var i :| 0 <= i < |ts| && ts[i] == h
             && (forall j :: 0 <= j < |ts| ==> ts[j].priority <= h.priority)
             && (forall j :: 0 <= j < i ==> ts[j].priority < h.priority);
    assert r[i] == h && r[|ts|] == t;
  }

  /** The head of the list is the first of the highest that were placed. */
  lemma {:induction false} HeadIsHighest(ts: seq<TaskCtrl>)
    requires ts != []
    ensures PlacedAll([], ts) != [] && FirstHighest(ts, PlacedAll([], ts)[0])
    decreases ts
  {
    hide PlacedAll, FirstHighest;
    var n, t := |ts| - 1, ts[|ts| - 1];
    var front := ts[..n];
    assert ts == front + [t];
    PlacedNext([], front, t);
    NonePlaced([]);
    if front == [] {
      OneIsHighest(t);
    } else {
      HeadIsHighest(front);
      HighestNext(front, PlacedAll([], front)[0], t);
    }
  }

  lemma OneIsHighest(t: TaskCtrl)
    ensures FirstHighest([t], t)
  {
    assert [t][0] == t;
  }

  // ----- round robin -----

  /** One `switch_task(NULL)`: the head is popped, run, and placed again. */
  function Turn(ts: seq<TaskCtrl>): seq<TaskCtrl>
    requires ts != []
  {
    Placed(ts[1..], ts[0])
  }

  /** All of one priority, but for at most one last task of a lower one. */
  ghost predicate OneLevel(ts: seq<TaskCtrl>, n: nat) {
    && 0 < n <= |ts| <= n + 1
    && (forall i :: 0 <= i < n ==> ts[i].priority == ts[0].priority)
    && (forall i :: n <= i < |ts| ==> ts[i].priority < ts[0].priority)
  }

  /** The first `n` tasks, turned by one place. */
  function Rotated(ts: seq<TaskCtrl>, n: nat): seq<TaskCtrl>
    requires 0 < n <= |ts|
  {
    ts[1..n] + [ts[0]] + ts[n..]
  }

  lemma TurnRotates(ts: seq<TaskCtrl>, n: nat)
    requires OneLevel(ts, n)
    ensures Turn(ts) == Rotated(ts, n) && OneLevel(Rotated(ts, n), n)
  {
    var rest := ts[1..];
    if n > 1 {
      assert rest[0] == ts[1];
    }
    if |ts| == n {
      assert n > 1 ==> rest[|rest| - 1] == ts[n - 1];
      assert ts[n..] == [];
    } else {
      assert rest[|rest| - 1] == ts[n];
      assert n > 1 ==> rest[..|rest| - 1] == ts[1..n] && rest[|rest| - 1..] == ts[n..];
    }
  }

  /** The list after `k` turns. */
  ghost function Turns(ts: seq<TaskCtrl>, k: nat): (r: seq<TaskCtrl>)
    requires ts != []
    ensures r != []
  {
    if k == 0 then ts else Turn(Turns(ts, k - 1))
  }

  lemma {:induction false} TurnsRotate(ts: seq<TaskCtrl>, n: nat, k: nat)
    requires OneLevel(ts, n)
    ensures OneLevel(Turns(ts, k), n)
    ensures forall i {:trigger Turns(ts, k)[i]} :: 0 <= i < n ==> Turns(ts, k)[i] == ts[(i + k) % n]
    decreases k
  {
    hide Turn, Rotated;
    if k > 0 {
      TurnsRotate(ts, n, k - 1);
      var was := Turns(ts, k - 1);
      TurnRotates(was, n);
      assert Turns(ts, k) == Rotated(was, n);
      hide Turns, OneLevel;
      forall i {:trigger Rotated(was, n)[i]} | 0 <= i < n ensures i < |Rotated(was, n)| && Rotated(was, n)[i] == ts[(i + k) % n] {
        TurnedAt(ts, was, n, k, i);
      }
    }
  }

  lemma TurnedAt(ts: seq<TaskCtrl>, was: seq<TaskCtrl>, n: nat, k: nat, i: nat)
    requires i < n <= |ts| && n <= |was| && k > 0
    requires forall j {:trigger was[j]} :: 0 <= j < n ==> was[j] == ts[(j + (k - 1)) % n]
    ensures i < |Rotated(was, n)| && Rotated(was, n)[i] == ts[(i + k) % n]
  {
    RotatedAt(was, n, i);
    if i < n - 1 {
      assert was[i + 1] == ts[(i + 1 + (k - 1)) % n];
    } else {
      assert was[0] == ts[(0 + (k - 1)) % n];
      Wraps(k - 1, n);
    }
  }

  lemma RotatedAt(ts: seq<TaskCtrl>, n: nat, i: nat)
    requires 0 < n <= |ts| && i < n
    ensures Rotated(ts, n)[i] == if i < n - 1 then ts[i + 1] else ts[0]
  {
  }

  lemma Wraps(k: nat, n: nat)
    requires n > 0
    ensures (n - 1 + (k + 1)) % n == k % n
  {
    var q, r := k / n, k % n;
    assert k + n == (q + 1) * n + r;
    RemainderOf(q + 1, n, r);
  }

  lemma RemainderOf(q: nat, d: nat, r: nat)
    requires r < d
    ensures (q * d + r) % d == r
  {
    var m := q * d + r;
    var a := q - m / d;
    assert a * d == m % d - r;
    assert a >= 1 ==> a * d >= d;
    assert a <= -1 ==> a * d + d <= 0;
  }

  /** Tasks of one priority, with at most one task below them, run in turn: the one to run at the
      `k`-th switch from now is the one at place `k` modulo their number. */
  lemma RoundRobin(ts: seq<TaskCtrl>, n: nat, k: nat)
    requires OneLevel(ts, n)
    ensures Turns(ts, k)[0] == ts[k % n]
  {
    TurnsRotate(ts, n, k);
    assert Turns(ts, k)[0] == ts[(0 + k) % n];
  }

  // ----- periods -----

  /** A countdown after one tick: a task that was at zero is due and starts again from its period. */
  function Ticked(ticks: nat, period: nat): nat {
    if ticks == 0 then period else ticks - 1
  }

  function TickedTimes(ticks: nat, period: nat, n: nat): nat {
    if n == 0 then ticks else Ticked(TickedTimes(ticks, period, n - 1), period)
  }

  /** A countdown started at `period` is zero before exactly every tick that is `period` modulo
      `period + 1`: a periodic task wakes every `period + 1` ticks. */
  lemma {:induction false} WakesEvery(period: nat, n: nat)
    ensures TickedTimes(period, period, n) == period - n % (period + 1)
    ensures TickedTimes(period, period, n) == 0 <==> n % (period + 1) == period
  {
    if n > 0 {
      WakesEvery(period, n - 1);
      NextRemainder(n - 1, period + 1);
    }
  }

  lemma NextRemainder(n: nat, d: nat)
    requires d > 0
    ensures (n + 1) % d == if n % d == d - 1 then 0 else n % d + 1
  {
    var q, r := n / d, n % d;
    assert n + 1 == q * d + (r + 1);
    if r == d - 1 {
      assert n + 1 == (q + 1) * d + 0;
      RemainderOf(q + 1, d, 0);
    } else {
      RemainderOf(q, d, r + 1);
    }
  }

  /** `DIV_ROUND_UP`: however short, a period of at least a microsecond is at least a tick, so the task
      counts as periodic; and the period is the least number of ticks that covers it. */
  function DivRoundUp(n: nat, d: nat): nat
    requires d > 0
  {
    (n + d - 1) / d
  }

  lemma PeriodCovers(us: nat, tick: nat)
    requires tick > 0
    ensures var p := DivRoundUp(us, tick); p * tick >= us && (us > 0 ==> p > 0 && (p - 1) * tick < us)
  {
    var p, r := DivRoundUp(us, tick), (us + tick - 1) % tick;
    assert us + tick - 1 == p * tick + r && 0 <= r < tick;
    assert (p - 1) * tick == p * tick - tick;
    assert p == 0 ==> p * tick == 0;
  }
}
