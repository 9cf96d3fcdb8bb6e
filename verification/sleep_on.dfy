/** sleep_on (kernel/sched.c): no loop, and *p is never set back, so it may point at a task that
    has long left. Nobody is forgotten all the same. */
module SleepOn {
  import opened Collections
  import W = WaitStack
  type Queue = W.Queue

  function Entered(q: Queue, t: nat): Queue
    requires W.Shape(q) && 0 < t < |q.state|
  {
    W.SetState(q, t, W.Uninterruptible).(head := t, tmp := q.tmp[t := q.head])
  }

  function Resumed(q: Queue, t: nat): Queue
    requires W.Shape(q) && t in q.tmp
  {
    W.Wake(q, q.tmp[t]).(tmp := q.tmp - {t})
  }

  datatype Event = Enter(t: nat) | Resume(t: nat) | WakeUp | Other(t: nat, st: W.TaskState)

  /** Other also covers a task inside that something else makes runnable. */
  predicate Enabled(q: Queue, e: Event)
    requires W.Shape(q)
  {
    match e
    case Enter(t) => 0 < t < |q.state| && t !in q.tmp
    case Resume(t) => t in q.tmp && q.state[t].Running?
    case WakeUp => true
    case Other(t, st) => t < |q.state| && (t in q.tmp ==> st.Running?)
  }

  function Step(q: Queue, e: Event): (r: Queue)
    requires W.Shape(q) && Enabled(q, e)
    ensures W.Shape(r) && |r.state| == |q.state|
  {
    match e
    case Enter(t) => Entered(q, t)
    case Resume(t) => Resumed(q, t)
    case WakeUp => W.Wake(q, q.head)
    case Other(t, st) => W.SetState(q, t, st)
  }

  predicate Asleep(q: Queue, t: nat)
    requires W.Shape(q) && t < |q.state|
  {
    !q.state[t].Running?
  }

  /** A sleeper is the head of the queue, or the next one in still has it to wake. */
  predicate Reached(q: Queue, line: seq<nat>, i: nat)
    requires W.Shape(q) && i < |line|
  {
    && line[i] in q.tmp
    && (Asleep(q, line[i]) ==>
          if i == |line| - 1 then q.head == line[i]
          else line[i + 1] in q.tmp && q.tmp[line[i + 1]] == line[i])
  }

  /** The tasks inside, in the order they came. */
  ghost predicate Inv(q: Queue, line: seq<nat>) {
    && W.Shape(q) && Distinct(line)
    && (forall i :: 0 <= i < |line| ==> Reached(q, line, i))
    && (forall t :: t in q.tmp ==> t in line)
  }

  function Without(line: seq<nat>, t: nat): (r: seq<nat>)
    ensures forall x :: x in r <==> x in line && x != t
  {
    if line == [] then []
    else if line[0] == t then Without(line[1..], t) else [line[0]] + Without(line[1..], t)
  }

  function Line(line: seq<nat>, e: Event): seq<nat> {
    match e
    case Enter(t) => line + [t]
    case Resume(t) => Without(line, t)
    case _ => line
  }

  lemma {:induction false} WithoutSplit(line: seq<nat>, k: nat)
    requires Distinct(line) && k < |line|
    ensures Without(line, line[k]) == line[..k] + line[k + 1..]
  {
    if k == 0 {
      WithoutNone(line[1..], line[0]);
    } else {
      WithoutSplit(line[1..], k - 1);
      assert line[..k] + line[k + 1..] == [line[0]] + (line[1..][..k - 1] + line[1..][k..]);
    }
  }

  lemma {:induction false} WithoutNone(line: seq<nat>, t: nat)
    requires t !in line
    ensures Without(line, t) == line
  {
    if line != [] { WithoutNone(line[1..], t); }
  }

  lemma EnterKeeps(q: Queue, line: seq<nat>, t: nat)
    requires Inv(q, line) && 0 < t < |q.state| && t !in q.tmp
    ensures Inv(Entered(q, t), line + [t])
  {
    var line1 := line + [t];
    forall i | 0 <= i < |line| ensures line[i] != t { assert Reached(q, line, i); }
    forall i | 0 <= i < |line1| ensures Reached(Entered(q, t), line1, i) {
      if i < |line| { assert Reached(q, line, i); }
    }
  }

  lemma ResumeReached(q: Queue, line: seq<nat>, k: nat, line1: seq<nat>, i: nat)
    requires Inv(q, line) && k < |line| && line[k] in q.tmp && !Asleep(q, line[k])
    requires |line1| == |line| - 1 && (forall j :: 0 <= j < |line1| ==> line1[j] == line[if j < k then j else j + 1])
    requires i < |line1|
    ensures Reached(Resumed(q, line[k]), line1, i)
  {
    var j := if i < k then i else i + 1;
    assert Reached(q, line, j);
    if j + 1 < |line| { assert Reached(q, line, j + 1); }
    assert line1[i] == line[j];
    if i + 1 < |line1| { assert line1[i + 1] == line[if i + 1 < k then i + 1 else i + 2]; }
  }

  lemma DistinctWithout(line: seq<nat>, k: nat)
    requires Distinct(line) && k < |line|
    ensures Distinct(Without(line, line[k]))
  {
    WithoutSplit(line, k);
    CutDistinct(line, k);
    assert Without(line, line[k]) == Cut(line, k);
  }

  lemma ResumeKeeps(q: Queue, line: seq<nat>, t: nat)
    requires Inv(q, line) && t in q.tmp && !Asleep(q, t)
    ensures Inv(Resumed(q, t), Without(line, t))
    ensures |Without(line, t)| == |line| - 1
  {
    var k :| 0 <= k < |line| && line[k] == t;
    WithoutSplit(line, k);
    var line1 := Without(line, t);
    forall i | 0 <= i < |line1| ensures Reached(Resumed(q, t), line1, i) { ResumeReached(q, line, k, line1, i); }
    DistinctWithout(line, k);
  }

  lemma StepKeeps(q: Queue, line: seq<nat>, e: Event)
    requires Inv(q, line) && Enabled(q, e)
    ensures Inv(Step(q, e), Line(line, e))
  {
    match e
    case Enter(t) => EnterKeeps(q, line, t);
    case Resume(t) => ResumeKeeps(q, line, t);
    case _ =>
      forall i | 0 <= i < |line| ensures Reached(Step(q, e), line, i) { assert Reached(q, line, i); }
  }

  ghost predicate Runs(q: Queue, es: seq<Event>)
    decreases |es|
  {
    W.Shape(q) && (es == [] || (Enabled(q, es[0]) && Runs(Step(q, es[0]), es[1..])))
  }

  ghost function End(q: Queue, es: seq<Event>): (r: Queue)
    requires Runs(q, es)
    decreases |es|
  {
    if es == [] then q else End(Step(q, es[0]), es[1..])
  }

  ghost function EndLine(line: seq<nat>, es: seq<Event>): seq<nat>
    decreases |es|
  {
    if es == [] then line else EndLine(Line(line, es[0]), es[1..])
  }

  lemma {:induction false} InvAlways(q: Queue, line: seq<nat>, es: seq<Event>)
    requires Inv(q, line) && Runs(q, es)
    ensures Inv(End(q, es), EndLine(line, es))
    decreases |es|
  {
    if es != [] {
      StepKeeps(q, line, es[0]);
      InvAlways(Step(q, es[0]), Line(line, es[0]), es[1..]);
    }
  }

  /** The last one in can run. */
  predicate Woken(q: Queue, line: seq<nat>)
    requires Inv(q, line)
  {
    line != [] ==> Reached(q, line, |line| - 1) && !Asleep(q, line[|line| - 1])
  }

  lemma WakeUpWakes(q: Queue, line: seq<nat>)
    requires Inv(q, line)
    ensures Inv(W.Wake(q, q.head), line) && Woken(W.Wake(q, q.head), line)
  {
    StepKeeps(q, line, WakeUp);
    if line != [] { assert Reached(q, line, |line| - 1); }
  }

  /** When the last one leaves it has woken the one before. */
  lemma LastAwake(q: Queue, line: seq<nat>, k: nat)
    requires Inv(q, line) && Woken(q, line) && k < |line| && |line| >= 2 && line[k] in q.tmp
    ensures var x := line[if k == |line| - 1 then k - 1 else |line| - 1];
            x < |q.state| && !Asleep(Resumed(q, line[k]), x)
  {
    var n := |line| - 1;
    assert Reached(q, line, n - 1) && Reached(q, line, n);
  }

  lemma LastWithout(line: seq<nat>, k: nat)
    requires Distinct(line) && k < |line| && |line| >= 2
    ensures |Without(line, line[k])| == |line| - 1
    ensures Without(line, line[k])[|line| - 2] == line[if k == |line| - 1 then k - 1 else |line| - 1]
  {
    WithoutSplit(line, k);
  }

  lemma LeaverWakes(q: Queue, line: seq<nat>, t: nat)
    requires Inv(q, line) && Woken(q, line) && t in q.tmp && !Asleep(q, t)
    ensures Inv(Resumed(q, t), Without(line, t)) && Woken(Resumed(q, t), Without(line, t))
  {
    ResumeKeeps(q, line, t);
    var k :| 0 <= k < |line| && line[k] == t;
    if |line| >= 2 {
      LastAwake(q, line, k);
      LastWithout(line, k);
      assert Reached(Resumed(q, t), Without(line, t), |line| - 2);
    }
  }

  lemma WokenStays(q: Queue, line: seq<nat>, e: Event)
    requires Inv(q, line) && Enabled(q, e) && !e.Enter? && Woken(q, line)
    ensures Inv(Step(q, e), Line(line, e)) && Woken(Step(q, e), Line(line, e))
  {
    StepKeeps(q, line, e);
    if e.Resume? {
      LeaverWakes(q, line, e.t);
    } else if line != [] {
      assert Reached(q, line, |line| - 1) && Reached(Step(q, e), line, |line| - 1);
    }
  }

  ghost function Resumes(es: seq<Event>): nat {
    if es == [] then 0 else (if es[0].Resume? then 1 else 0) + Resumes(es[1..])
  }

  /** After one wake_up, with no new sleepers: every resumption lets one task out, and until all
      are out there is one that can run. So all leave. */
  lemma {:induction false} Drains(q: Queue, line: seq<nat>, es: seq<Event>)
    requires Inv(q, line) && Woken(q, line) && Runs(q, es) && (forall i :: 0 <= i < |es| ==> !es[i].Enter?)
    ensures Inv(End(q, es), EndLine(line, es)) && |EndLine(line, es)| == |line| - Resumes(es)
    ensures EndLine(line, es) != [] <==> exists t :: t in End(q, es).tmp && Enabled(End(q, es), Event.Resume(t))
    decreases |es|
  {
    if es == [] {
      if line != [] { assert Enabled(q, Event.Resume(line[|line| - 1])); }
    } else {
      if es[0].Resume? { ResumeKeeps(q, line, es[0].t); }
      WokenStays(q, line, es[0]);
      Drains(Step(q, es[0]), Line(line, es[0]), es[1..]);
    }
  }

  lemma {:induction false} OneMore(q: Queue, es: seq<Event>, e: Event)
    requires Runs(q, es) && W.Shape(End(q, es)) && Enabled(End(q, es), e)
    ensures Runs(q, es + [e]) && End(q, es + [e]) == Step(End(q, es), e)
    decreases |es|
  {
    if es != [] {
      OneMore(Step(q, es[0]), es[1..], e);
      assert (es + [e])[1..] == es[1..] + [e];
    }
  }

  /** What is not so: that sleep_on only wakes its own queue. Task 1 sleeps and leaves, task 2 finds
      it still in *p, and on leaving wakes it from whatever it waits for by then. */
  lemma WakesAStranger() returns (q: Queue, es: seq<Event>)
    ensures Inv(q, []) && Runs(q, es) && W.Shape(End(q, es))
    ensures 1 !in End(q, es).tmp && |End(q, es).state| == 3 && End(q, es).state[1].Uninterruptible?
    ensures Enabled(End(q, es), Resume(2)) && Step(End(q, es), Resume(2)).state[1].Running?
  {
    q := W.Queue([W.Running, W.Running, W.Running], 0, map[]);
    es := [];
    OneMore(q, es, Enter(1));
    es := es + [Enter(1)];
    OneMore(q, es, WakeUp);
    es := es + [WakeUp];
    OneMore(q, es, Resume(1));
    es := es + [Resume(1)];
    OneMore(q, es, Enter(2));
    es := es + [Enter(2)];
    assert End(q, es).head == 2 && 1 !in End(q, es).tmp && End(q, es).tmp[2] == 1;
    OneMore(q, es, Other(1, W.Uninterruptible));
    es := es + [Other(1, W.Uninterruptible)];
    OneMore(q, es, WakeUp);
    es := es + [WakeUp];
  }

  // ----- when strangers are woken -----

  /** Some task that is not on the queue has another state afterwards. */
  ghost predicate Disturbs(q: Queue, r: Queue)
    requires |r.state| == |q.state|
  {
    exists x: nat :: x < |q.state| && x !in q.tmp && r.state[x] != q.state[x]
  }

  /** A task that is asleep somewhere else. */
  predicate Stranger(q: Queue, x: nat) { x != 0 && x !in q.tmp && x < |q.state| && !q.state[x].Running? }

  /** The end of sleep_on disturbs a stranger exactly when the pointer saved at its start is one. */
  lemma ResumeDisturbsIff(q: Queue, t: nat)
    requires W.Shape(q) && t in q.tmp
    ensures Disturbs(q, Resumed(q, t)) <==> Stranger(q, q.tmp[t])
  {
    if Stranger(q, q.tmp[t]) { assert Resumed(q, t).state[q.tmp[t]] != q.state[q.tmp[t]]; }
  }

  /** wake_up, which leaves *p alone, disturbs a stranger exactly when *p is one. */
  lemma WakeUpDisturbsIff(q: Queue)
    requires W.Shape(q)
    ensures Disturbs(q, W.Wake(q, q.head)) <==> Stranger(q, q.head)
  {
    if Stranger(q, q.head) { assert W.Wake(q, q.head).state[q.head] != q.state[q.head]; }
  }

  /** *p points at a task that is not in sleep_on. */
  predicate Stale(q: Queue) { q.head != 0 && q.head !in q.tmp }

  /** The task that entered last, 0 when none has. */
  function LastIn(es: seq<Event>): nat {
    if es == [] then 0
    else if es[|es| - 1].Enter? then es[|es| - 1].t else LastIn(es[..|es| - 1])
  }

  /** Task t has entered, and has not left since. */
  predicate IsIn(es: seq<Event>, t: nat) {
    es != []
    && match es[|es| - 1]
       case Enter(u) => u == t || IsIn(es[..|es| - 1], t)
       case Resume(u) => u != t && IsIn(es[..|es| - 1], t)
       case _ => IsIn(es[..|es| - 1], t)
  }

  /** The task that had entered last when t did. */
  function InBefore(es: seq<Event>, t: nat): nat {
    if es == [] then 0
    else if es[|es| - 1] == Enter(t) then LastIn(es[..|es| - 1]) else InBefore(es[..|es| - 1], t)
  }

  lemma {:induction false} RunsInit(q: Queue, es: seq<Event>)
    requires Runs(q, es) && es != []
    ensures var init, e := es[..|es| - 1], es[|es| - 1];
            Runs(q, init) && W.Shape(End(q, init)) && Enabled(End(q, init), e) && End(q, es) == Step(End(q, init), e)
    decreases |es|
  {
    if |es| > 1 {
      assert es[1..][..|es| - 2] == es[..|es| - 1][1..];
      RunsInit(Step(q, es[0]), es[1..]);
    }
  }

  /** What a run from an empty queue leaves behind, read off the run. */
  lemma {:induction false} RunTells(q: Queue, es: seq<Event>)
    requires Runs(q, es) && q.head == 0 && q.tmp == map[]
    ensures End(q, es).head == LastIn(es)
    ensures forall t: nat :: t in End(q, es).tmp <==> IsIn(es, t)
    ensures forall t: nat :: IsIn(es, t) ==> End(q, es).tmp[t] == InBefore(es, t)
    decreases |es|
  {
    if es != [] {
      RunsInit(q, es);
      RunTells(q, es[..|es| - 1]);
    }
  }

  /** *p is stale exactly when the last task that entered has left; as the code never sets *p back,
      that is so from the moment the first generation of sleepers is gone. */
  lemma StaleIff(q: Queue, es: seq<Event>)
    requires Runs(q, es) && q.head == 0 && q.tmp == map[]
    ensures Stale(End(q, es)) <==> LastIn(es) != 0 && !IsIn(es, LastIn(es))
  {
    RunTells(q, es);
  }

  /** Over every run: who is woken wrongly, and when, read off the run and the states alone. */
  lemma StrangersIff(q: Queue, es: seq<Event>, t: nat)
    requires Runs(q, es) && q.head == 0 && q.tmp == map[] && IsIn(es, t)
    ensures W.Shape(End(q, es)) && t in End(q, es).tmp
    ensures InBefore(es, t) < |End(q, es).state| && LastIn(es) < |End(q, es).state|
    ensures Disturbs(End(q, es), Resumed(End(q, es), t)) <==>
            InBefore(es, t) != 0 && !IsIn(es, InBefore(es, t)) && Asleep(End(q, es), InBefore(es, t))
    ensures Disturbs(End(q, es), W.Wake(End(q, es), End(q, es).head)) <==>
            LastIn(es) != 0 && !IsIn(es, LastIn(es)) && Asleep(End(q, es), LastIn(es))
  {
    RunTells(q, es);
    RunsShape(q, es);
    ResumeDisturbsIff(End(q, es), t);
    WakeUpDisturbsIff(End(q, es));
  }

  lemma {:induction false} RunsShape(q: Queue, es: seq<Event>)
    requires Runs(q, es)
    ensures W.Shape(End(q, es))
    decreases |es|
  {
    if es != [] { RunsShape(Step(q, es[0]), es[1..]); }
  }

  // ----- what a caller can check -----

  /** Before sleep_on: *p is null, or a task asleep on this very queue. */
  predicate MayEnter(q: Queue)
    requires W.Shape(q)
  {
    q.head == 0 || (q.head in q.tmp && Asleep(q, q.head))
  }

  /** Only the last one in may be awake, and every saved pointer is the one before. */
  predicate Chained(q: Queue, line: seq<nat>, i: nat)
    requires W.Shape(q) && i < |line|
  {
    && line[i] in q.tmp && q.tmp[line[i]] == (if i == 0 then 0 else line[i - 1])
    && (i + 1 < |line| ==> Asleep(q, line[i]))
  }

  ghost predicate Orderly(q: Queue, line: seq<nat>) {
    && Inv(q, line) && (forall i :: 0 <= i < |line| ==> Chained(q, line, i))
    && (q.head in q.tmp ==> line != [] && q.head == line[|line| - 1])
  }

  /** A step by which nobody enters carelessly, and nobody else wakes a task of this queue. */
  predicate Careful(q: Queue, e: Event)
    requires W.Shape(q)
  {
    match e
    case Enter(_) => MayEnter(q)
    case Other(t, _) => t !in q.tmp
    case _ => true
  }

  lemma OrderlyEnter(q: Queue, line: seq<nat>, t: nat)
    requires Orderly(q, line) && 0 < t < |q.state| && t !in q.tmp && MayEnter(q)
    requires q.head == 0 ==> line == []
    ensures Orderly(Entered(q, t), line + [t])
  {
    EnterKeeps(q, line, t);
    assert q.head in q.tmp ==> q.head in line;
    var line1 := line + [t];
    forall i | 0 <= i < |line1| ensures Chained(Entered(q, t), line1, i) {
      if i < |line| { assert Chained(q, line, i) && Reached(q, line, i); }
    }
  }

  /** Only the last one in can be the one that runs on. */
  lemma LastRunsOn(q: Queue, line: seq<nat>, t: nat)
    requires Orderly(q, line) && t in q.tmp && !Asleep(q, t)
    ensures line != [] && t == line[|line| - 1] && Without(line, t) == line[..|line| - 1]
  {
    var k :| 0 <= k < |line| && line[k] == t;
    assert Chained(q, line, k);
    WithoutSplit(line, k);
    assert line[..k] + line[k + 1..] == line[..|line| - 1];
  }

  /** The task it wakes is still inside. */
  lemma OrderlyResume(q: Queue, line: seq<nat>, t: nat)
    requires Orderly(q, line) && t in q.tmp && !Asleep(q, t)
    ensures line != [] && t == line[|line| - 1] && Without(line, t) == line[..|line| - 1]
    ensures Orderly(Resumed(q, t), Without(line, t)) && !Disturbs(q, Resumed(q, t))
  {
    LastRunsOn(q, line, t);
    ResumeKeeps(q, line, t);
    ResumeDisturbsIff(q, t);
    var n, line1 := |line| - 1, line[..|line| - 1];
    assert Chained(q, line, n);
    forall i | 0 <= i < |line1| ensures Chained(Resumed(q, t), line1, i) { assert Chained(q, line, i) && line[i] != t; }
    if n > 0 { assert Chained(q, line, n - 1); }
  }

  lemma OrderlyStep(q: Queue, line: seq<nat>, e: Event)
    requires Orderly(q, line) && Enabled(q, e) && Careful(q, e) && (q.head == 0 ==> line == [])
    ensures Orderly(Step(q, e), Line(line, e)) && (Step(q, e).head == 0 ==> Line(line, e) == [])
    ensures e.Resume? ==> !Disturbs(q, Step(q, e))
  {
    match e
    case Enter(t) => OrderlyEnter(q, line, t);
    case Resume(t) => OrderlyResume(q, line, t);
    case _ =>
      StepKeeps(q, line, e);
      forall i | 0 <= i < |line| ensures Chained(Step(q, e), line, i) {
        assert Chained(q, line, i);
        if i + 1 < |line| { assert Chained(q, line, |line| - 1); }
      }
  }

  /** A run whose every step is careful. */
  ghost predicate CarefulRun(q: Queue, es: seq<Event>)
    decreases |es|
  {
    W.Shape(q) && (es == [] || (Enabled(q, es[0]) && Careful(q, es[0]) && CarefulRun(Step(q, es[0]), es[1..])))
  }

  lemma {:induction false} CarefulRuns(q: Queue, line: seq<nat>, es: seq<Event>)
    requires Orderly(q, line) && (q.head == 0 ==> line == []) && CarefulRun(q, es)
    ensures Runs(q, es) && Orderly(End(q, es), EndLine(line, es))
    ensures End(q, es).head == 0 ==> EndLine(line, es) == []
    decreases |es|
  {
    if es != [] {
      OrderlyStep(q, line, es[0]);
      CarefulRuns(Step(q, es[0]), Line(line, es[0]), es[1..]);
    }
  }

  /** Some careful run without new sleepers, after which t runs on and disturbs a stranger. */
  ghost predicate MayDisturb(q: Queue, t: nat) {
    exists es: seq<Event> :: DisturbsAfter(q, es, t)
  }

  ghost predicate DisturbsAfter(q: Queue, es: seq<Event>, t: nat) {
    && CarefulRun(q, es) && (forall i :: 0 <= i < |es| ==> !es[i].Enter?)
    && Runs(q, es) && W.Shape(End(q, es)) && Enabled(End(q, es), Resume(t))
    && Disturbs(End(q, es), Resumed(End(q, es), t))
  }

  lemma CarefulFirst(q: Queue, e: Event, es: seq<Event>)
    requires W.Shape(q) && Enabled(q, e) && Careful(q, e) && CarefulRun(Step(q, e), es) && Runs(Step(q, e), es)
    ensures CarefulRun(q, [e] + es) && Runs(q, [e] + es) && End(q, [e] + es) == End(Step(q, e), es)
  {
    assert ([e] + es)[1..] == es;
  }

  /** With a stranger to be saved in it, t wakes it: it sleeps elsewhere, and *p is woken. */
  lemma StrangerSaved(q: Queue, t: nat)
    requires W.Shape(q) && t in q.tmp && q.head == t
    requires var h := q.tmp[t]; h != 0 && h !in q.tmp
    ensures DisturbsAfter(q, [Other(q.tmp[t], W.Uninterruptible), WakeUp], t)
  {
    var h := q.tmp[t];
    var q1 := Step(q, Other(h, W.Uninterruptible));
    CarefulFirst(q1, WakeUp, []);
    CarefulFirst(q, Other(h, W.Uninterruptible), [WakeUp]);
    assert [Other(h, W.Uninterruptible)] + [WakeUp] == [Other(h, W.Uninterruptible), WakeUp];
    ResumeDisturbsIff(Step(q1, WakeUp), t);
  }

  lemma {:induction false} SavedStays(q: Queue, es: seq<Event>, t: nat)
    requires Runs(q, es) && (forall i :: 0 <= i < |es| ==> !es[i].Enter?) && t in End(q, es).tmp
    ensures t in q.tmp && End(q, es).tmp[t] == q.tmp[t]
    decreases |es|
  {
    if es != [] { SavedStays(Step(q, es[0]), es[1..], t); }
  }

  /** A careless call can be the one that wakes a stranger. */
  lemma CarelessMayDisturb(q: Queue, t: nat)
    requires W.Shape(q) && 0 < t < |q.state| && t !in q.tmp && t != q.head && !MayEnter(q)
    ensures MayDisturb(Entered(q, t), t)
  {
    var q1, h := Entered(q, t), q.head;
    if h in q.tmp {
      var q2 := Step(q1, Resume(h));
      StrangerSaved(q2, t);
      var es := [Other(h, W.Uninterruptible), WakeUp];
      CarefulFirst(q1, Resume(h), es);
      assert DisturbsAfter(q1, [Resume(h)] + es, t);
    } else {
      StrangerSaved(q1, t);
    }
  }

  /** While callers check *p before sleep_on, and nobody else wakes the sleepers, a call can end in
      waking a stranger exactly when its own check fails; only the task *p points at, coming back,
      saves itself and does no harm. */
  lemma CheckBeforeSleep(q: Queue, line: seq<nat>, t: nat)
    requires Orderly(q, line) && (q.head == 0 ==> line == []) && 0 < t < |q.state| && t !in q.tmp
    ensures MayDisturb(Entered(q, t), t) <==> !MayEnter(q) && q.head != t
  {
    var q1 := Entered(q, t);
    if MayEnter(q) || q.head == t {
      if MayEnter(q) { OrderlyEnter(q, line, t); }
      if es: seq<Event> :| DisturbsAfter(q1, es, t) {
        if q.head == t {
          SavedStays(q1, es, t);
          ResumeDisturbsIff(End(q1, es), t);
        } else {
          CarefulRuns(q1, line + [t], es);
          OrderlyStep(End(q1, es), EndLine(line + [t], es), Resume(t));
        }
      }
    } else {
      CarelessMayDisturb(q, t);
    }
  }

  /** No task that leaves sleep_on during the run disturbs a stranger. */
  ghost predicate NoneDisturbed(q: Queue, es: seq<Event>)
    requires Runs(q, es)
    decreases |es|
  {
    es == []
    || ((es[0].Resume? ==> !Disturbs(q, Step(q, es[0]))) && NoneDisturbed(Step(q, es[0]), es[1..]))
  }

  /** Where every caller checks, that is so for every run from an empty queue. */
  lemma {:induction false} CheckedNeverDisturbs(q: Queue, line: seq<nat>, es: seq<Event>)
    requires Orderly(q, line) && (q.head == 0 ==> line == []) && CarefulRun(q, es)
    ensures Runs(q, es) && NoneDisturbed(q, es)
    decreases |es|
  {
    if es != [] {
      OrderlyStep(q, line, es[0]);
      CheckedNeverDisturbs(Step(q, es[0]), Line(line, es[0]), es[1..]);
    }
  }

  // ----- the code -----

  class Wait {
    const state: array<W.TaskState>
    var head: nat
    ghost var tmps: map<nat, nat>

    ghost function Q(): Queue
      reads this, state
    {
      W.Queue(state[..], head, tmps)
    }

    /** sleep_on up to its schedule(); the result is the local tmp. */
    method SleepOn(current: nat) returns (tmp: nat)
      requires W.Shape(Q()) && 0 < current < state.Length && current !in tmps
      modifies this, state
      ensures Q() == Entered(old(Q()), current) && tmp == tmps[current]
    {
      ghost var q := Q();
      tmp := head;
      head := current;
      state[current] := W.Uninterruptible;
      tmps := tmps[current := tmp];
      assert state[..] == q.state[current := W.Uninterruptible];
    }

    /** sleep_on from the return of schedule() on. */
    method AfterSchedule(current: nat, tmp: nat)
      requires W.Shape(Q()) && current in tmps && tmp == tmps[current]
      modifies this, state
      ensures Q() == Resumed(old(Q()), current)
    {
      ghost var q := Q();
      if tmp != 0 {
        state[tmp] := W.Running;
        assert state[..] == q.state[tmp := W.Running];
      } else {
        assert state[..] == q.state;
      }
      tmps := tmps - {current};
    }
  }
}
