/** schedule and the tick of do_timer (kernel/sched.c): which task runs, when counters are refilled,
    and that between refills every runnable task gets exactly the ticks its counter promised. */
module Scheduler {
  import W = WaitStack

  const NR_TASKS := 64
  const SIGALRM := 14
  const SIGKILL := 9
  const SIGSTOP := 19

  /** The bitmaps are the sets of the signal numbers in them. */
  datatype Task = Task(state: W.TaskState, counter: int, priority: int, alarm: int, signal: set<nat>, blocked: set<nat>)

  /** An entry of task[]. */
  datatype Slot = Null | Used(t: Task)

  // ----- alarms and signals -----

  function Alarmed(t: Task, jiffies: int): Task {
    if t.alarm != 0 && t.alarm < jiffies then t.(signal := t.signal + {SIGALRM}, alarm := 0) else t
  }

  predicate Pending(t: Task) { t.signal - (t.blocked - {SIGKILL, SIGSTOP}) != {} }

  function Signalled(t: Task): Task {
    if Pending(t) && t.state == W.Interruptible then t.(state := W.Running) else t
  }

  function Checked(s: Slot, jiffies: int): Slot {
    if s.Null? then s else Used(Signalled(Alarmed(s.t, jiffies)))
  }

  function CheckAll(s: seq<Slot>, jiffies: int): (r: seq<Slot>)
    ensures |r| == |s|
    ensures forall i :: 0 <= i < |s| ==> r[i] == if i == 0 then s[i] else Checked(s[i], jiffies)
  {
    seq(|s|, i requires 0 <= i < |s| => if i == 0 then s[i] else Checked(s[i], jiffies))
  }

  // ----- who runs next -----

  predicate Runnable(s: seq<Slot>, i: int) {
    0 < i < |s| && s[i].Used? && s[i].t.state == W.Running
  }

  /** next has the highest counter of the runnable tasks, and of those the highest number; it is 0
      when no runnable task has a counter above -1. */
  ghost predicate IsNext(s: seq<Slot>, next: nat) {
    if next == 0 then forall i :: Runnable(s, i) ==> s[i].t.counter <= -1
    else
      && Runnable(s, next) && 0 <= s[next].t.counter
      && (forall i :: Runnable(s, i) ==> s[i].t.counter <= s[next].t.counter)
      && (forall i :: Runnable(s, i) && next < i ==> s[i].t.counter < s[next].t.counter)
  }

  /** The loop's variable c. */
  function Highest(s: seq<Slot>, next: nat): int {
    if next == 0 || next >= |s| || s[next].Null? then -1 else s[next].t.counter
  }

  /** There is one such task, and only one. */
  lemma NextIsUnique(s: seq<Slot>, a: nat, b: nat)
    requires IsNext(s, a) && IsNext(s, b)
    ensures a == b
  {
  }

  lemma {:induction false} NextExists(s: seq<Slot>) returns (next: nat)
    ensures IsNext(s, next)
  {
    if s == [] {
      next := 0;
    } else {
      var n := |s| - 1;
      var t := s[..n];
      next := NextExists(t);
      assert forall i :: i < n && Runnable(s, i) ==> Runnable(t, i);
      assert next != 0 ==> Runnable(t, next);
      if Runnable(s, n) && s[n].t.counter >= 0 && s[n].t.counter >= Highest(t, next) { next := n; }
    }
  }

  // ----- refills -----

  /** counter = (counter >> 1) + priority, rounding down. */
  function Recharged(s: Slot): Slot {
    if s.Null? then s else Used(s.t.(counter := s.t.counter / 2 + s.t.priority))
  }

  function RechargeAll(s: seq<Slot>): (r: seq<Slot>)
    ensures |r| == |s|
    ensures forall i :: 0 <= i < |s| ==> r[i] == if i == 0 then s[i] else Recharged(s[i])
  {
    seq(|s|, i requires 0 <= i < |s| => if i == 0 then s[i] else Recharged(s[i]))
  }

  /** nice keeps priorities positive. */
  ghost predicate PrioritiesPositive(s: seq<Slot>) {
    forall i :: 0 < i < |s| && s[i].Used? ==> s[i].t.priority > 0
  }

  /** Some pass finds nobody with ticks left: refill, and then the next pass picks somebody. */
  lemma TwoPassesAreEnough(s: seq<Slot>, first: nat, next: nat)
    requires PrioritiesPositive(s)
    requires IsNext(s, first) && Highest(s, first) == 0 && IsNext(RechargeAll(s), next)
    ensures Highest(RechargeAll(s), next) > 0
  {
    assert Runnable(RechargeAll(s), first);
  }

  function Recharges(s: seq<Slot>, k: nat): seq<Slot> {
    if k == 0 then s else RechargeAll(Recharges(s, k - 1))
  }

  lemma {:induction false} RechargesKeep(s: seq<Slot>, i: nat, k: nat)
    requires i < |s|
    ensures |Recharges(s, k)| == |s|
    ensures s[i].Used? <==> Recharges(s, k)[i].Used?
    ensures s[i].Used? ==> Recharges(s, k)[i].t.state == s[i].t.state
    ensures s[i].Used? && s[i].t.counter == 0 && s[i].t.priority == 0 ==> Recharges(s, k)[i] == s[i]
  {
    if k > 0 { RechargesKeep(s, i, k - 1); }
  }

  /** The loop of schedule ends with pass k + 1. */
  ghost predicate EndsAt(s: seq<Slot>, k: nat) {
    exists n: nat :: IsNext(Recharges(s, k), n) && Highest(Recharges(s, k), n) != 0
  }

  lemma {:induction false} NeverEnds(s: seq<Slot>, k: nat)
    requires exists i :: Runnable(s, i)
    requires forall i :: Runnable(s, i) ==> s[i].t.counter == 0 && s[i].t.priority == 0
    ensures !EndsAt(s, k)
  {
    var i :| Runnable(s, i);
    RechargesKeep(s, i, k);
    forall j | Runnable(Recharges(s, k), j) ensures Recharges(s, k)[j].t.counter == 0 {
      RechargesKeep(s, j, k);
      assert Runnable(s, j);
    }
    assert Runnable(Recharges(s, k), i);
  }

  /** The runnable tasks have used up their ticks. The loop of schedule ends, and then with its
      second pass, exactly when one of them has a priority above 0. */
  lemma EndsIff(s: seq<Slot>)
    requires exists i :: Runnable(s, i)
    requires forall i :: Runnable(s, i) ==> s[i].t.counter == 0 && s[i].t.priority >= 0
    ensures (exists i :: Runnable(s, i) && s[i].t.priority > 0) <==> EndsAt(s, 1)
    ensures EndsAt(s, 1) <==> exists k: nat :: EndsAt(s, k)
  {
    if i :| Runnable(s, i) && s[i].t.priority > 0 {
      var r := Recharges(s, 1);
      assert r == RechargeAll(Recharges(s, 0));
      assert Runnable(r, i);
      var n := NextExists(r);
      assert IsNext(r, n);
    } else {
      forall k: nat ensures !EndsAt(s, k) { NeverEnds(s, k); }
    }
  }

  /** What schedule does to the table, and whom it switches to. */
  ghost predicate Scheduled(s: seq<Slot>, jiffies: int, r: seq<Slot>, next: nat) {
    var t := CheckAll(s, jiffies);
    || (IsNext(t, next) && Highest(t, next) != 0 && r == t)
    || (UsedUp(t) && r == RechargeAll(t) && IsNext(r, next) && Highest(r, next) > 0)
  }

  /** Some task is runnable, and none that is has ticks left. */
  ghost predicate UsedUp(s: seq<Slot>) {
    exists n: nat :: IsNext(s, n) && Highest(s, n) == 0
  }

  // ----- the tick -----

  function Counted(s: seq<Slot>, cur: nat): seq<Slot>
    requires cur < |s| && s[cur].Used?
  {
    var c := s[cur].t.counter - 1;
    s[cur := Used(s[cur].t.(counter := if c > 0 then c else 0))]
  }

  /** The end of do_timer. */
  ghost predicate Ticked(s: seq<Slot>, cur: nat, jiffies: int, user: bool, r: seq<Slot>, next: nat)
    requires cur < |s| && s[cur].Used?
  {
    if s[cur].t.counter > 1 || !user then r == Counted(s, cur) && next == cur
    else Scheduled(Counted(s, cur), jiffies, r, next)
  }

  /** The ticks the runnable tasks among the first hi have left. */
  function Budget(s: seq<Slot>, hi: nat): nat
    requires hi <= |s|
  {
    if hi == 0 then 0
    else Budget(s, hi - 1) + if Runnable(s, hi - 1) && s[hi - 1].t.counter > 0 then s[hi - 1].t.counter else 0
  }

  /** No alarm or signal is about to change who is runnable; the current task has ticks left. */
  ghost predicate Steady(s: seq<Slot>, cur: nat) {
    && PrioritiesPositive(s) && Runnable(s, cur) && s[cur].t.counter > 0
    && (forall i :: 0 < i < |s| && s[i].Used? ==> s[i].t.counter >= 0 && s[i].t.alarm == 0 && !Pending(s[i].t))
  }

  lemma {:induction false} BudgetCounted(s: seq<Slot>, cur: nat, hi: nat)
    requires hi <= |s| && Runnable(s, cur) && s[cur].t.counter > 0
    ensures Budget(Counted(s, cur), hi) == Budget(s, hi) - if cur < hi then 1 else 0
  {
    if hi > 0 { BudgetCounted(s, cur, hi - 1); }
  }

  lemma {:induction false} NoBudget(s: seq<Slot>, hi: nat)
    requires hi <= |s|
    ensures Budget(s, hi) == 0 <==> forall i :: i < hi && Runnable(s, i) ==> s[i].t.counter <= 0
  {
    if hi > 0 { NoBudget(s, hi - 1); }
  }

  lemma LastTick(s: seq<Slot>, cur: nat, jiffies: int)
    requires Steady(s, cur)
    ensures CheckAll(Counted(s, cur), jiffies) == Counted(s, cur)
    ensures Budget(s, |s|) > 0 && Budget(Counted(s, cur), |s|) == Budget(s, |s|) - 1
    ensures UsedUp(Counted(s, cur)) <==> Budget(s, |s|) == 1
  {
    var t := Counted(s, cur);
    BudgetCounted(s, cur, |s|);
    NoBudget(s, |s|);
    NoBudget(t, |t|);
    assert Runnable(t, cur);
    var n := NextExists(t);
    if UsedUp(t) {
      var m: nat :| IsNext(t, m) && Highest(t, m) == 0;
      NextIsUnique(t, n, m);
    }
  }

  /** One user-mode tick takes one tick from the current task's counter; the counters are refilled
      exactly when that was the last one anybody had. */
  lemma TickSpends(s: seq<Slot>, cur: nat, jiffies: int, r: seq<Slot>, next: nat)
    requires Steady(s, cur) && Ticked(s, cur, jiffies, true, r, next)
    ensures |r| == |s| && Steady(r, next)
    ensures Budget(s, |s|) > 0
    ensures r == if Budget(s, |s|) > 1 then Counted(s, cur) else RechargeAll(Counted(s, cur))
    ensures Budget(s, |s|) > 1 ==> Budget(r, |r|) == Budget(s, |s|) - 1
  {
    LastTick(s, cur, jiffies);
    var t := Counted(s, cur);
    assert Runnable(t, cur);
    NoBudget(t, |t|);
    if UsedUp(t) {
      var m: nat :| IsNext(t, m) && Highest(t, m) == 0;
      if IsNext(t, next) { NextIsUnique(t, next, m); }
    }
  }

  /** The table and the current task between the ticks of a run in user mode. */
  datatype Snap = Snap(s: seq<Slot>, cur: nat)

  ghost predicate OneTick(a: Snap, b: Snap) {
    a.cur < |a.s| && a.s[a.cur].Used? && exists jiffies :: Ticked(a.s, a.cur, jiffies, true, b.s, b.cur)
  }

  ghost predicate TickRun(tr: seq<Snap>) { forall k :: 0 <= k < |tr| - 1 ==> TickAt(tr, k) }

  ghost predicate TickAt(tr: seq<Snap>, k: nat)
    requires k < |tr| - 1
  {
    OneTick(tr[k], tr[k + 1])
  }

  lemma OneTickSpends(a: Snap, b: Snap)
    requires Steady(a.s, a.cur) && OneTick(a, b)
    ensures |b.s| == |a.s| && Steady(b.s, b.cur) && Budget(a.s, |a.s|) > 0
    ensures Budget(a.s, |a.s|) > 1 ==> b.s == Counted(a.s, a.cur) && Budget(b.s, |b.s|) == Budget(a.s, |a.s|) - 1
    ensures Budget(a.s, |a.s|) == 1 ==> b.s == RechargeAll(Counted(a.s, a.cur))
  {
    var jiffies :| Ticked(a.s, a.cur, jiffies, true, b.s, b.cur);
    TickSpends(a.s, a.cur, jiffies, b.s, b.cur);
  }

  /** How many of the first k ticks found task i running. */
  ghost function Ticks(tr: seq<Snap>, k: nat, i: int): nat
    requires k <= |tr|
  {
    if k == 0 then 0 else Ticks(tr, k - 1, i) + if tr[k - 1].cur == i then 1 else 0
  }

  /** Task i has had the ticks its counter has lost. */
  ghost predicate Shared(tr: seq<Snap>, k: nat, i: int)
    requires k < |tr|
  {
    Runnable(tr[0].s, i) ==> Runnable(tr[k].s, i) && tr[k].s[i].t.counter + Ticks(tr, k, i) == tr[0].s[i].t.counter
  }

  lemma {:induction false} Spent(tr: seq<Snap>, k: nat)
    requires |tr| > k && TickRun(tr) && Steady(tr[0].s, tr[0].cur) && k < Budget(tr[0].s, |tr[0].s|)
    ensures |tr[k].s| == |tr[0].s| && Steady(tr[k].s, tr[k].cur)
    ensures Budget(tr[k].s, |tr[k].s|) == Budget(tr[0].s, |tr[0].s|) - k
    ensures forall i :: Shared(tr, k, i)
  {
    if k > 0 {
      Spent(tr, k - 1);
      assert TickAt(tr, k - 1);
      OneTickSpends(tr[k - 1], tr[k]);
      forall i ensures Shared(tr, k, i) { assert Shared(tr, k - 1, i); }
    }
  }

  /** Tick k of an epoch; the last one refills. */
  ghost predicate EpochTick(tr: seq<Snap>, k: nat, n: nat)
    requires 0 < k < |tr|
  {
    && tr[k - 1].cur < |tr[k - 1].s| && tr[k - 1].s[tr[k - 1].cur].Used?
    && var t := Counted(tr[k - 1].s, tr[k - 1].cur);
       tr[k].s == if k < n then t else RechargeAll(t)
  }

  lemma TickOfEpoch(tr: seq<Snap>, k: nat)
    requires 0 < k < |tr| && TickRun(tr) && Steady(tr[0].s, tr[0].cur) && k <= Budget(tr[0].s, |tr[0].s|)
    ensures Steady(tr[k].s, tr[k].cur) && EpochTick(tr, k, Budget(tr[0].s, |tr[0].s|))
  {
    Spent(tr, k - 1);
    assert TickAt(tr, k - 1);
    OneTickSpends(tr[k - 1], tr[k]);
  }

  lemma OneLeft(s: seq<Slot>, cur: nat, i: int)
    requires Steady(s, cur) && Budget(s, |s|) == 1 && Runnable(s, i)
    ensures s[i].t.counter == if i == cur then 1 else 0
  {
    var t := Counted(s, cur);
    BudgetCounted(s, cur, |s|);
    NoBudget(t, |t|);
    assert Runnable(t, i) && Runnable(t, cur);
  }

  lemma {:induction false} AllSpent(tr: seq<Snap>, n: nat, i: int)
    requires 0 < n < |tr| && TickRun(tr) && Steady(tr[0].s, tr[0].cur) && n == Budget(tr[0].s, |tr[0].s|)
    requires Runnable(tr[0].s, i)
    ensures Ticks(tr, n, i) == tr[0].s[i].t.counter
  {
    Spent(tr, n - 1);
    assert Shared(tr, n - 1, i);
    OneLeft(tr[n - 1].s, tr[n - 1].cur, i);
  }

  /** Between two refills every runnable task runs for exactly the ticks its counter held, no fewer
      and no more, whatever the order; the refill comes with the last of them. */
  lemma {:induction false} FairShares(tr: seq<Snap>, n: nat)
    requires |tr| > n && TickRun(tr) && Steady(tr[0].s, tr[0].cur) && n == Budget(tr[0].s, |tr[0].s|)
    ensures n > 0 && Steady(tr[n].s, tr[n].cur)
    ensures forall i :: Runnable(tr[0].s, i) ==> Ticks(tr, n, i) == tr[0].s[i].t.counter
    ensures forall k :: 0 < k <= n ==> EpochTick(tr, k, n)
  {
    NoBudget(tr[0].s, |tr[0].s|);
    TickOfEpoch(tr, n);
    forall i | Runnable(tr[0].s, i) ensures Ticks(tr, n, i) == tr[0].s[i].t.counter { AllSpent(tr, n, i); }
    forall k | 0 < k <= n ensures EpochTick(tr, k, n) { TickOfEpoch(tr, k); }
  }

  // ----- the code -----

  class Kernel {
    const task: array<Slot>
    var current: nat
    var jiffies: int

    ghost predicate Valid()
      reads this, task
    {
      task.Length == NR_TASKS && current < NR_TASKS && task[current].Used? && PrioritiesPositive(task[..])
    }

    /** One pass of the loop of schedule. */
    method Pass() returns (next: nat, c: int)
      requires task.Length == NR_TASKS
      ensures IsNext(task[..], next) && c == Highest(task[..], next)
    {
      c, next := -1, 0;
      var i := NR_TASKS - 1;
      while i > 0
        invariant 0 <= i < NR_TASKS && -1 <= c
        invariant next == 0 <==> c == -1
        invariant next != 0 ==> i < next < NR_TASKS && Runnable(task[..], next) && task[next].t.counter == c
        invariant forall k :: i < k && Runnable(task[..], k) ==>
                  task[k].t.counter <= c && (next < k && next != 0 ==> task[k].t.counter < c)
      {
        if task[i].Used? && task[i].t.state == W.Running && task[i].t.counter > c {
          c, next := task[i].t.counter, i;
        }
        i := i - 1;
      }
    }

    method Recharge()
      requires task.Length == NR_TASKS
      modifies task
      ensures task[..] == RechargeAll(old(task[..]))
    {
      ghost var s := task[..];
      var i := NR_TASKS - 1;
      while i > 0
        invariant 0 <= i < NR_TASKS
        invariant forall k :: 0 <= k < NR_TASKS ==> task[k] == if i < k then RechargeAll(s)[k] else s[k]
      {
        if task[i].Used? {
          task[i] := Used(task[i].t.(counter := task[i].t.counter / 2 + task[i].t.priority));
        }
        i := i - 1;
      }
    }

    /** Alarms that ran out and signals that wake. */
    method CheckSignals()
      requires task.Length == NR_TASKS
      modifies task
      ensures task[..] == CheckAll(old(task[..]), jiffies)
    {
      ghost var s := task[..];
      var i := NR_TASKS - 1;
      while i > 0
        invariant 0 <= i < NR_TASKS
        invariant forall k :: 0 <= k < NR_TASKS ==> task[k] == if i < k then CheckAll(s, jiffies)[k] else s[k]
      {
        if task[i].Used? {
          var t := task[i].t;
          if t.alarm != 0 && t.alarm < jiffies {
            t := t.(signal := t.signal + {SIGALRM}, alarm := 0);
          }
          if Pending(t) && t.state == W.Interruptible {
            t := t.(state := W.Running);
          }
          task[i] := Used(t);
        }
        i := i - 1;
      }
    }

    /** schedule. Its loop ends with the first or the second pass. */
    method Schedule()
      requires Valid() && task[0].Used?
      modifies this`current, task
      ensures Valid() && task[0] == old(task[0])
      ensures Scheduled(old(task[..]), jiffies, task[..], current)
    {
      CheckSignals();
      ghost var t := task[..];
      var next, c := Pass();
      if c == 0 {
        Recharge();
        ghost var first := next;
        next, c := Pass();
        TwoPassesAreEnough(t, first, next);
      }
      current := next;
    }

    /** The end of do_timer; `user` is the test of cpl. */
    method Tick(user: bool)
      requires Valid() && task[0].Used?
      modifies this`current, task
      ensures Valid() && task[0].Used?
      ensures Ticked(old(task[..]), old(current), jiffies, user, task[..], current)
    {
      ghost var s := task[..];
      var left := task[current].t.counter - 1;
      task[current] := Used(task[current].t.(counter := left));
      if left > 0 {
        return;
      }
      task[current] := Used(task[current].t.(counter := 0));
      assert task[..] == Counted(s, current);
      if !user {
        return;
      }
      Schedule();
    }
  }
}
