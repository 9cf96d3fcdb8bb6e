/** interruptible_sleep_on and wake_up (kernel/sched.c) as a state machine over the points where a
    task gives up the processor. Task 0 never sleeps, so 0 stands for the null pointer. */
module WaitStack {
  import opened Collections

  datatype TaskState = Running | Interruptible | Uninterruptible | Zombie | Stopped

  /** One wait queue: the state of every task, *p, and the local `tmp` of each task that is inside
      interruptible_sleep_on (or sleep_on) on it. */
  datatype Queue = Queue(state: seq<TaskState>, head: nat, tmp: map<nat, nat>)

  predicate Shape(q: Queue) {
    && q.head < |q.state|
    && (forall t :: t in q.tmp ==> 0 < t < |q.state| && q.tmp[t] < |q.state|)
  }

  function SetState(q: Queue, t: nat, st: TaskState): Queue
    requires t < |q.state|
  {
    q.(state := q.state[t := st])
  }

  function Wake(q: Queue, t: nat): Queue
    requires t < |q.state|
  {
    if t == 0 then q else SetState(q, t, Running)
  }

  /** From the call to the first schedule(). */
  function Entered(q: Queue, t: nat): Queue
    requires Shape(q) && 0 < t < |q.state|
  {
    SetState(q, t, Interruptible).(head := t, tmp := q.tmp[t := q.head])
  }

  /** From the return of schedule() to the next one, or out of the function. */
  function Resumed(q: Queue, t: nat): Queue
    requires Shape(q) && t in q.tmp
  {
    if q.head != 0 && q.head != t then SetState(Wake(q, q.head), t, Interruptible)
    else Wake(q, q.tmp[t]).(head := q.tmp[t], tmp := q.tmp - {t})
  }

  /** What can happen. Signal is schedule() finding a signal for a sleeping task; Other is any
      change to a task that is not on this queue. */
  datatype Event = Enter(t: nat) | Resume(t: nat) | WakeUp | Signal(t: nat) | Other(t: nat, st: TaskState)

  predicate Enabled(q: Queue, e: Event)
    requires Shape(q)
  {
    match e
    case Enter(t) => 0 < t < |q.state| && t !in q.tmp
    case Resume(t) => t in q.tmp && q.state[t] == Running
    case WakeUp => true
    case Signal(t) => t < |q.state| && q.state[t] == Interruptible
    case Other(t, st) => t < |q.state| && t !in q.tmp
  }

  function Step(q: Queue, e: Event): (r: Queue)
    requires Shape(q) && Enabled(q, e)
    ensures Shape(r) && |r.state| == |q.state|
  {
    match e
    case Enter(t) => Entered(q, t)
    case Resume(t) => Resumed(q, t)
    case WakeUp => Wake(q, q.head)
    case Signal(t) => SetState(q, t, Running)
    case Other(t, st) => SetState(q, t, st)
  }

  // ----- the stack -----

  predicate LinkAt(q: Queue, st: seq<nat>, i: nat)
    requires i < |st|
  {
    && st[i] in q.tmp && q.tmp[st[i]] == (if i == 0 then 0 else st[i - 1])
    && 0 < st[i] < |q.state| && q.state[st[i]] in {Running, Interruptible}
  }

  /** The tasks inside form the stack st, the top last: *p is the top and each tmp is the task below. */
  ghost predicate Inv(q: Queue, st: seq<nat>) {
    && Shape(q) && Distinct(st)
    && (forall i :: 0 <= i < |st| ==> LinkAt(q, st, i))
    && (forall t :: t in q.tmp ==> t in st)
    && q.head == if st == [] then 0 else st[|st| - 1]
  }

  /** Who enters or leaves at a step. */
  datatype Move = In(t: nat) | Out(t: nat)

  function Moved(q: Queue, e: Event): seq<Move>
    requires Shape(q) && Enabled(q, e)
  {
    match e
    case Enter(t) => [In(t)]
    case Resume(t) => if t in Step(q, e).tmp then [] else [Out(t)]
    case _ => []
  }

  datatype Stack = Stack(st: seq<nat>) | Broken

  /** The moves as pushes and pops; broken when a task leaves that is not the last one in. */
  function Replay(st: seq<nat>, moves: seq<Move>): Stack
    decreases |moves|
  {
    if moves == [] then Stack(st)
    else match moves[0]
      case In(t) => Replay(st + [t], moves[1..])
      case Out(t) => if st != [] && st[|st| - 1] == t then Replay(st[..|st| - 1], moves[1..]) else Broken
  }

  lemma Inside(q: Queue, st: seq<nat>, t: nat)
    requires Inv(q, st)
    ensures t in st <==> t in q.tmp
    ensures t in st && t != q.head ==> exists i :: 0 <= i < |st| - 1 && st[i] == t
  {
    if t in st {
      var i :| 0 <= i < |st| && st[i] == t;
      assert LinkAt(q, st, i);
    }
  }

  lemma EnterKeeps(q: Queue, st: seq<nat>, t: nat)
    requires Inv(q, st) && 0 < t < |q.state| && t !in q.tmp
    ensures Inv(Entered(q, t), st + [t])
  {
    Inside(q, st, t);
    var st1 := st + [t];
    forall i | 0 <= i < |st1| ensures LinkAt(Entered(q, t), st1, i) {
      if i < |st| { assert LinkAt(q, st, i); }
    }
  }

  /** The top leaves. */
  lemma LeaveKeeps(q: Queue, st: seq<nat>, t: nat)
    requires Inv(q, st) && t in q.tmp && t == q.head
    ensures st != [] && st[|st| - 1] == t
    ensures Resumed(q, t).tmp == q.tmp - {t} && Inv(Resumed(q, t), st[..|st| - 1])
  {
    Inside(q, st, t);
    var st1 := st[..|st| - 1];
    assert LinkAt(q, st, |st| - 1);
    forall j | 0 <= j < |st1| ensures LinkAt(Resumed(q, t), st1, j) { assert LinkAt(q, st, j); }
    forall x | x in Resumed(q, t).tmp ensures x in st1 { assert x in st && x != t; }
  }

  /** Another one wakes the top and goes back to sleep. */
  lemma StayKeeps(q: Queue, st: seq<nat>, t: nat)
    requires Inv(q, st) && t in q.tmp && t != q.head
    ensures q.head != 0 && q.head in q.tmp && Resumed(q, t).tmp == q.tmp
    ensures Resumed(q, t) == q.(state := q.state[q.head := Running][t := Interruptible])
    ensures Inv(Resumed(q, t), st)
  {
    Inside(q, st, t);
    assert LinkAt(q, st, |st| - 1);
    forall j | 0 <= j < |st| ensures LinkAt(Resumed(q, t), st, j) { assert LinkAt(q, st, j); }
  }

  lemma StepKeeps(q: Queue, st: seq<nat>, e: Event)
    requires Inv(q, st) && Enabled(q, e)
    ensures Replay(st, Moved(q, e)).Stack?
    ensures Inv(Step(q, e), Replay(st, Moved(q, e)).st)
  {
    match e
    case Enter(t) =>
      EnterKeeps(q, st, t);
      assert Replay(st + [t], Moved(q, e)[1..]) == Stack(st + [t]);
    case Resume(t) =>
      if t == q.head {
        LeaveKeeps(q, st, t);
        assert Replay(st[..|st| - 1], Moved(q, e)[1..]) == Stack(st[..|st| - 1]);
      } else {
        StayKeeps(q, st, t);
      }
    case _ =>
      forall j | 0 <= j < |st| ensures LinkAt(Step(q, e), st, j) { assert LinkAt(q, st, j); }
  }

  // ----- runs -----

  ghost predicate Runs(q: Queue, es: seq<Event>)
    decreases |es|
  {
    Shape(q) && (es == [] || (Enabled(q, es[0]) && Runs(Step(q, es[0]), es[1..])))
  }

  ghost function End(q: Queue, es: seq<Event>): (r: Queue)
    requires Runs(q, es)
    ensures Shape(r)
    decreases |es|
  {
    if es == [] then q else End(Step(q, es[0]), es[1..])
  }

  ghost function Moves(q: Queue, es: seq<Event>): seq<Move>
    requires Runs(q, es)
    decreases |es|
  {
    if es == [] then [] else Moved(q, es[0]) + Moves(Step(q, es[0]), es[1..])
  }

  lemma {:induction false} ReplaySplit(st: seq<nat>, a: seq<Move>, b: seq<Move>)
    requires Replay(st, a).Stack?
    ensures Replay(st, a + b) == Replay(Replay(st, a).st, b)
    decreases |a|
  {
    if a == [] {
      assert a + b == b;
    } else {
      assert (a + b)[1..] == a[1..] + b;
      match a[0]
      case In(t) => ReplaySplit(st + [t], a[1..], b);
      case Out(t) => ReplaySplit(st[..|st| - 1], a[1..], b);
    }
  }

  /** Whatever wakes whom and when, tasks leave in the reverse of the order they came in, and those
      inside are always the stack that the queue head and the saved pointers describe. */
  lemma {:induction false} LastInFirstOut(q: Queue, st: seq<nat>, es: seq<Event>)
    requires Inv(q, st) && Runs(q, es)
    ensures Replay(st, Moves(q, es)).Stack?
    ensures Inv(End(q, es), Replay(st, Moves(q, es)).st)
    decreases |es|
  {
    if es != [] {
      StepKeeps(q, st, es[0]);
      var st1 := Replay(st, Moved(q, es[0])).st;
      LastInFirstOut(Step(q, es[0]), st1, es[1..]);
      ReplaySplit(st, Moved(q, es[0]), Moves(Step(q, es[0]), es[1..]));
    }
  }

  // ----- draining -----

  /** The top of the stack can run: what wake_up brings about. */
  predicate Woken(q: Queue)
    requires Shape(q)
  {
    q.head != 0 ==> q.state[q.head] == Running
  }

  ghost function Awake(q: Queue): set<nat>
    requires Shape(q)
  {
    set t | t in q.tmp && q.state[t] == Running
  }

  ghost function Measure(q: Queue): nat
    requires Shape(q)
  {
    |q.tmp| + |Awake(q)|
  }

  ghost function Resumes(es: seq<Event>): nat {
    if es == [] then 0 else (if es[0].Resume? then 1 else 0) + Resumes(es[1..])
  }

  ghost function Signals(es: seq<Event>): nat {
    if es == [] then 0 else (if es[0].Signal? then 1 else 0) + Signals(es[1..])
  }

  lemma Fewer(a: set<nat>, b: set<nat>, x: nat)
    requires b <= a + {x}
    ensures |b| <= |a| + 1
    ensures x in a ==> |b| <= |a|
    ensures x in a && x !in b ==> |b| < |a|
  {
    SubsetSize(b, a + {x});
    if x in a {
      assert a + {x} == a;
      if x !in b { SubsetSize(b, a - {x}); }
    }
  }

  lemma LeaveProgress(q: Queue, st: seq<nat>, t: nat)
    requires Inv(q, st) && t in q.tmp && q.state[t] == Running && t == q.head
    ensures Woken(Resumed(q, t)) && Measure(Resumed(q, t)) + 1 <= Measure(q)
  {
    var r := Resumed(q, t);
    LeaveKeeps(q, st, t);
    if |st| > 1 { assert LinkAt(q, st, |st| - 2); }
    assert LinkAt(q, st, |st| - 1);
    assert r.tmp.Keys == q.tmp.Keys - {t} && |r.tmp.Keys| == |q.tmp.Keys| - 1;
    assert |r.tmp| == |q.tmp| - 1;
    Fewer(Awake(q) - {t}, Awake(r), q.tmp[t]);
  }

  lemma StayProgress(q: Queue, st: seq<nat>, t: nat)
    requires Inv(q, st) && t in q.tmp && q.state[t] == Running && t != q.head && Woken(q)
    ensures Woken(Resumed(q, t)) && Measure(Resumed(q, t)) + 1 <= Measure(q)
  {
    StayKeeps(q, st, t);
    Fewer(Awake(q), Awake(Resumed(q, t)), t);
  }

  lemma ResumeProgress(q: Queue, st: seq<nat>, t: nat)
    requires Inv(q, st) && t in q.tmp && q.state[t] == Running && Woken(q)
    ensures Woken(Resumed(q, t)) && Measure(Resumed(q, t)) + 1 <= Measure(q)
  {
    if t == q.head { LeaveProgress(q, st, t); } else { StayProgress(q, st, t); }
  }

  /** A resumption makes progress once the top can run; nothing but a signal undoes progress. */
  lemma Progress(q: Queue, st: seq<nat>, e: Event)
    requires Inv(q, st) && Enabled(q, e) && Woken(q) && !e.Enter?
    ensures Woken(Step(q, e))
    ensures Measure(Step(q, e)) + (if e.Resume? then 1 else 0) <= Measure(q) + (if e.Signal? then 1 else 0)
  {
    var r := Step(q, e);
    if st != [] { assert LinkAt(q, st, |st| - 1); }
    match e
    case Resume(t) => ResumeProgress(q, st, t);
    case Signal(t) => Fewer(Awake(q), Awake(r), t);
    case Other(_, _) => assert Awake(r) == Awake(q);
    case WakeUp => assert Awake(r) == Awake(q);
    case Enter(_) =>
  }

  /** With no new sleepers, the number of times the sleepers run is bounded: once for every one to
      leave, once for every one that was awake, once for every signal. */
  lemma {:induction false} DrainsInTime(q: Queue, st: seq<nat>, es: seq<Event>)
    requires Inv(q, st) && Woken(q) && Runs(q, es) && (forall i :: 0 <= i < |es| ==> !es[i].Enter?)
    ensures Woken(End(q, es))
    ensures Measure(End(q, es)) + Resumes(es) <= Measure(q) + Signals(es)
    decreases |es|
  {
    if es != [] {
      Progress(q, st, es[0]);
      StepKeeps(q, st, es[0]);
      DrainsInTime(Step(q, es[0]), Replay(st, Moved(q, es[0])).st, es[1..]);
    }
  }

  /** wake_up, and also any sleeper that runs, leaves the top able to run. */
  lemma Roused(q: Queue, st: seq<nat>, e: Event)
    requires Inv(q, st) && Enabled(q, e) && (e.WakeUp? || e.Resume?)
    ensures Woken(Step(q, e))
  {
    if st != [] { assert LinkAt(q, st, |st| - 1); }
    if |st| > 1 { assert LinkAt(q, st, |st| - 2); }
    if e.Resume? {
      var i :| 0 <= i < |st| && st[i] == e.t;
      assert LinkAt(q, st, i);
    }
  }

  /** So after one wake_up the sleepers can only stop running when all of them have left. */
  lemma StuckMeansEmpty(q: Queue, st: seq<nat>)
    requires Inv(q, st) && Woken(q)
    ensures (forall t :: t in q.tmp ==> !Enabled(q, Event.Resume(t))) <==> q.tmp == map[] && q.head == 0
  {
    if st != [] {
      assert LinkAt(q, st, |st| - 1);
      assert Enabled(q, Event.Resume(q.head));
    }
  }

  // ----- the code -----

  class Wait {
    const state: array<TaskState>
    var head: nat
    ghost var tmps: map<nat, nat>

    ghost function Q(): Queue
      reads this, state
    {
      Queue(state[..], head, tmps)
    }

    /** interruptible_sleep_on up to its first schedule(); the result is the local tmp. */
    method SleepOn(current: nat) returns (tmp: nat)
      requires Shape(Q()) && 0 < current < state.Length && current !in tmps
      modifies this, state
      ensures Q() == Entered(old(Q()), current) && tmp == tmps[current]
    {
      ghost var q := Q();
      tmp := head;
      head := current;
      state[current] := Interruptible;
      tmps := tmps[current := tmp];
      assert state[..] == q.state[current := Interruptible];
    }

    /** interruptible_sleep_on from the return of schedule() on; true when it is left. */
    method AfterSchedule(current: nat, tmp: nat) returns (left: bool)
      requires Shape(Q()) && current in tmps && tmp == tmps[current]
      modifies this, state
      ensures Q() == Resumed(old(Q()), current) && left == (current !in tmps)
    {
      ghost var q := Q();
      if head != 0 && head != current {
        state[head] := Running;
        state[current] := Interruptible;
        assert state[..] == q.state[q.head := Running][current := Interruptible];
        return false;
      }
      head := tmp;
      if tmp != 0 {
        state[tmp] := Running;
        assert state[..] == q.state[tmp := Running];
      } else {
        assert state[..] == q.state;
      }
      tmps := tmps - {current};
      return true;
    }

    method WakeUp()
      requires Shape(Q())
      modifies state
      ensures Q() == Wake(old(Q()), head)
    {
      ghost var q := Q();
      if head != 0 {
        state[head] := Running;
        assert state[..] == q.state[head := Running];
      } else {
        assert state[..] == q.state;
      }
    }
  }
}
