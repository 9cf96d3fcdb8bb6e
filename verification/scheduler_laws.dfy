/** Consequences of schedule for single tasks: when an alarm goes off, which signals wake, and where
    the counter of a task that sleeps ends up. */
module SchedulerLaws {
  import opened Scheduler
  import W = WaitStack
  import S = SleepOn

  // ----- alarms and signals -----

  predicate Due(t: Task, jiffies: int) { t.alarm != 0 && t.alarm < jiffies }

  /** A signal that is not blocked; kill and stop cannot be. */
  predicate Delivers(t: Task, n: nat) {
    n in t.signal && (n !in t.blocked || n == 9 || n == 19)
  }

  /** What schedule does to a task before it looks for the next: an alarm that is over becomes
      signal 14 and is off; an interruptible task wakes if and only if some signal is delivered. */
  lemma ChecksTask(s: seq<Slot>, jiffies: int, i: nat)
    requires 0 < i < |s| && s[i].Used?
    ensures var t, r := s[i].t, CheckAll(s, jiffies)[i];
            && r.Used?
            && r.t.signal == (if Due(t, jiffies) then t.signal + {14} else t.signal)
            && r.t.alarm == (if Due(t, jiffies) then 0 else t.alarm)
            && r.t.counter == t.counter && r.t.priority == t.priority && r.t.blocked == t.blocked
            && r.t.state == (if t.state == W.Interruptible && exists n :: Delivers(r.t, n) then W.Running
                             else t.state)
  {
    var t := s[i].t;
    var r := CheckAll(s, jiffies)[i].t;
    var pending := r.signal - (r.blocked - {9, 19});
    if n :| n in pending { assert Delivers(r, n); }
    if n :| Delivers(r, n) { assert n in pending; }
  }

  /** An alarm goes off once: looking again, at whatever time, changes nothing. */
  lemma AlarmsOnce(s: seq<Slot>, jiffies: int, later: int, i: nat)
    requires 0 < i < |s| && s[i].Used? && Due(s[i].t, jiffies)
    ensures CheckAll(CheckAll(s, jiffies), later)[i] == CheckAll(s, jiffies)[i]
  {
    var r := CheckAll(s, jiffies);
    ChecksTask(s, jiffies, i);
    ChecksTask(r, later, i);
    if n :| Delivers(r[i].t, n) { assert Delivers(CheckAll(r, later)[i].t, n); }
    if n :| Delivers(CheckAll(r, later)[i].t, n) { assert Delivers(r[i].t, n); }
  }

  // ----- refills -----

  /** A refill leaves half of what is left and adds the priority, rounded down. */
  lemma Refilled(s: seq<Slot>, i: nat)
    requires 0 < i < |s| && s[i].Used?
    ensures var t, r := s[i].t, RechargeAll(s)[i];
            && r.Used? && r.t == t.(counter := r.t.counter)
            && 2 * r.t.counter <= t.counter + 2 * t.priority <= 2 * r.t.counter + 1
  {
  }

  /** However long a task sleeps, its counter stays below twice its priority. */
  lemma {:induction false} SleeperBounded(s: seq<Slot>, i: nat, k: nat)
    requires 0 < i < |s| && s[i].Used? && s[i].t.priority > 0 && 0 <= s[i].t.counter < 2 * s[i].t.priority
    ensures |Recharges(s, k)| == |s| && Recharges(s, k)[i].Used?
    ensures var r := Recharges(s, k)[i].t;
            && r == s[i].t.(counter := r.counter)
            && 0 <= r.counter < 2 * r.priority && (k > 0 ==> r.priority <= r.counter)
            && 2 * r.priority - 1 - r.counter <= Falls(2 * s[i].t.priority - 1 - s[i].t.counter, k)
  {
    if k > 0 {
      SleeperBounded(s, i, k - 1);
      Refilled(Recharges(s, k - 1), i);
    }
  }

  function Falls(d: nat, k: nat): nat { if d < k then 0 else d - k }

  /** And that is where it settles: at twice the priority less one. */
  lemma SleeperSettles(s: seq<Slot>, i: nat, k: nat)
    requires 0 < i < |s| && s[i].Used? && s[i].t.priority > 0 && 0 <= s[i].t.counter < 2 * s[i].t.priority
    requires k >= 2 * s[i].t.priority
    ensures |Recharges(s, k)| == |s| && Recharges(s, k)[i].Used?
    ensures Recharges(s, k)[i].t.counter == 2 * s[i].t.priority - 1
  {
    SleeperBounded(s, i, k);
  }

  // ----- the tick -----

  ghost predicate NoneNegative(s: seq<Slot>) {
    forall i :: 0 <= i < |s| && s[i].Used? ==> s[i].t.counter >= 0 && s[i].t.priority >= 0
  }

  /** A tick in the kernel takes one from the counter of the current task, down to 0, and nothing
      else happens. */
  lemma KernelTick(s: seq<Slot>, cur: nat, jiffies: int, r: seq<Slot>, next: nat)
    requires cur < |s| && s[cur].Used? && s[cur].t.counter >= 0 && Ticked(s, cur, jiffies, false, r, next)
    ensures next == cur && |r| == |s|
    ensures r[cur] == Used(s[cur].t.(counter := if s[cur].t.counter == 0 then 0 else s[cur].t.counter - 1))
    ensures forall i :: 0 <= i < |s| && i != cur ==> r[i] == s[i]
  {
  }

  /** No tick ever leaves a counter below 0. */
  lemma TickKeepsCounters(s: seq<Slot>, cur: nat, jiffies: int, user: bool, r: seq<Slot>, next: nat)
    requires NoneNegative(s) && cur < |s| && s[cur].Used? && Ticked(s, cur, jiffies, user, r, next)
    ensures NoneNegative(r)
  {
    var c := Counted(s, cur);
    var t := CheckAll(c, jiffies);
    forall i | 0 < i < |c| && c[i].Used? ensures t[i].Used? && t[i].t.counter >= 0 && t[i].t.priority >= 0 {
      ChecksTask(c, jiffies, i);
    }
  }

  // ----- the two kinds of sleep -----

  /** A signal does not wake a task out of sleep_on. */
  lemma SleepsOn(q: S.Queue, s: seq<Slot>, t: nat, jiffies: int)
    requires W.Shape(q) && 0 < t < |q.state| && t < |s| && s[t].Used?
    requires s[t].t.state == S.Entered(q, t).state[t]
    ensures CheckAll(s, jiffies)[t].Used? && CheckAll(s, jiffies)[t].t.state == s[t].t.state != W.Running
  {
    ChecksTask(s, jiffies, t);
  }

  /** Out of interruptible_sleep_on it does, if it is delivered. */
  lemma SleepsLightly(q: W.Queue, s: seq<Slot>, t: nat, jiffies: int)
    requires W.Shape(q) && 0 < t < |q.state| && t < |s| && s[t].Used?
    requires s[t].t.state == W.Entered(q, t).state[t]
    ensures var r := CheckAll(s, jiffies)[t];
            r.Used? && (r.t.state == W.Running <==> exists n :: Delivers(r.t, n))
  {
    ChecksTask(s, jiffies, t);
  }
}
