/** The buffer cache and the request queue of one disk together: the queue holds exactly the
    buffers under transfer, once each, so every buffer queued is served in bounded time. */
module DiskQueue {
  import opened Collections
  import opened CacheMachine
  import opened CacheProofs
  import E = Elevator

  /** The cache, and the queue of the driver with one major number. */
  datatype Disk = Disk(c: Cache, q: seq<E.Key>)

  /** From here on a block number shifted to a sector number does not fit its 32 bits. */
  const BLOCKS := 0x8000_0000

  function Major(k: Key): nat { k.dev / 256 }

  function Command(io: Io): nat {
    if io == WaitRead || io == Reading then E.READ else E.WRITE
  }

  /** "fill up the request-info" of make_request */
  function Request(c: Cache, b: nat): E.Key
    requires Shape(c) && b < |c.infos|
  {
    var k := c.infos[b].key;
    E.Key(Command(c.io[b]), k.dev, 2 * k.block % 0x1_0000_0000)
  }

  predicate Fits(k: Key) { k.block < BLOCKS }

  /** Buffer b has a request in the queue of that disk. */
  predicate Queued(c: Cache, m: nat, b: nat)
    requires Shape(c)
  {
    b < |c.infos| && (c.io[b] == Reading || c.io[b] == Writing) && Major(c.infos[b].key) == m
  }

  predicate QueuedAs(c: Cache, m: nat, b: nat, r: E.Key)
    requires Shape(c)
  {
    Queued(c, m, b) && Request(c, b) == r
  }

  ghost predicate InQueue(d: Disk, m: nat, b: nat)
    requires Shape(d.c)
  {
    Queued(d.c, m, b) ==> Fits(d.c.infos[b].key) && Request(d.c, b) in d.q
  }

  ghost predicate Backed(d: Disk, m: nat, r: E.Key)
    requires Shape(d.c)
  {
    exists b: nat :: QueuedAs(d.c, m, b, r)
  }

  /** The queue is the buffers under transfer. */
  ghost predicate Inv(d: Disk, m: nat) {
    && CacheMachine.Inv(d.c)
    && Distinct(d.q) && E.Descents(d.q) <= 1
    && (forall b: nat :: InQueue(d, m, b))
    && (forall r :: r in d.q ==> Backed(d, m, r))
  }

  /** Buffer b belongs to a block of that disk. */
  predicate For(c: Cache, m: nat, b: nat)
    requires Shape(c)
  {
    b < |c.infos| && Major(c.infos[b].key) == m
  }

  /** The disk completes the request at the head of its queue. */
  ghost predicate Enabled(d: Disk, m: nat, e: Event)
    requires CacheMachine.Inv(d.c)
  {
    && CacheMachine.Enabled(d.c, e)
    && (e.Enqueue? && For(d.c, m, e.b) ==> Fits(d.c.infos[e.b].key))
    && (e.Complete? && For(d.c, m, e.b) ==> d.q != [] && d.q[0] == Request(d.c, e.b))
  }

  ghost function Step(d: Disk, m: nat, e: Event): (r: Disk)
    requires CacheMachine.Inv(d.c) && Enabled(d, m, e)
    ensures CacheMachine.Inv(r.c) && |r.c.infos| == |d.c.infos|
  {
    CacheProofs.StepKeeps(d.c, e);
    var c1 := CacheMachine.Step(d.c, e);
    if e.Enqueue? && For(d.c, m, e.b) then Disk(c1, E.Insert(d.q, Request(d.c, e.b)))
    else if e.Complete? && For(d.c, m, e.b) then Disk(c1, d.q[1..])
    else Disk(c1, d.q)
  }

  // ----- one request for each buffer -----

  /** Buffers under transfer, or waiting for it, have different requests. */
  lemma RequestsDiffer(c: Cache, i: nat, j: nat)
    requires CacheMachine.Inv(c) && i < |c.infos| && j < |c.infos| && i != j
    requires c.io[i] != NoIo && Fits(c.infos[i].key) && Fits(c.infos[j].key)
    ensures Request(c, i) != Request(c, j)
  {
    assert BufOk(c, i) && Unique(c, i, j);
  }

  lemma GetblkMovesNone(c: Cache, t: nat)
    requires CacheMachine.Inv(c) && CacheMachine.Enabled(c, Run(t))
    ensures CacheMachine.Step(c, Run(t)).io == c.io
  {
    assert PcOk(c, t);
  }

  /** The places in the queues that a step leaves alone. */
  lemma TransferKept(c: Cache, e: Event, b: nat)
    requires CacheMachine.Inv(c) && CacheMachine.Enabled(c, e) && b < |c.infos|
    requires !((e.Enqueue? || e.Complete?) && e.b == b)
    ensures var c1 := CacheMachine.Step(c, e);
            && Shape(c1) && |c1.infos| == |c.infos|
            && (c1.io[b] == c.io[b] || (c.io[b] == NoIo && (c1.io[b] == WaitRead || c1.io[b] == WaitWrite)))
            && (c.io[b] != NoIo ==> c1.infos[b].key == c.infos[b].key)
  {
    CacheProofs.StepKeeps(c, e);
    assert BufOk(c, b);
    if e.Run? { GetblkMovesNone(c, e.t); }
  }

  lemma QueuedKept(c: Cache, m: nat, e: Event, b: nat)
    requires CacheMachine.Inv(c) && CacheMachine.Enabled(c, e)
    requires !((e.Enqueue? || e.Complete?) && e.b == b)
    ensures var c1 := CacheMachine.Step(c, e);
            && Shape(c1) && |c1.infos| == |c.infos| && (Queued(c1, m, b) <==> Queued(c, m, b))
            && (Queued(c, m, b) ==> Request(c1, b) == Request(c, b) && c1.infos[b].key == c.infos[b].key)
  {
    CacheProofs.StepKeeps(c, e);
    if b < |c.infos| { TransferKept(c, e, b); }
  }

  // ----- steps -----

  /** A request is added once, at its place in the queue. */
  lemma EnqueueKeeps(d: Disk, m: nat, b: nat)
    requires Inv(d, m) && Enabled(d, m, Enqueue(b)) && For(d.c, m, b)
    ensures Request(d.c, b) !in d.q && Inv(Step(d, m, Enqueue(b)), m)
  {
    var e, r, d1 := Enqueue(b), Request(d.c, b), Step(d, m, Enqueue(b));
    CacheProofs.StepKeeps(d.c, e);
    if r in d.q {
      assert Backed(d, m, r);
      var i: nat :| QueuedAs(d.c, m, i, r);
      assert InQueue(d, m, i);
      RequestsDiffer(d.c, i, b);
    }
    E.InsertKeepsTwoSweeps(d.q, r);
    E.DistinctInserted(d.q, r);
    assert Request(d1.c, b) == r && Queued(d1.c, m, b);
    forall x ensures x in d1.q <==> x in d.q || x == r {
      assert x in d1.q <==> x in multiset(d1.q);
    }
    forall i: nat ensures InQueue(d1, m, i) {
      if i != b { QueuedKept(d.c, m, e, i); assert InQueue(d, m, i); }
    }
    forall x | x in d1.q ensures Backed(d1, m, x) {
      if x == r {
        assert QueuedAs(d1.c, m, b, x);
      } else {
        assert Backed(d, m, x);
        var i: nat :| QueuedAs(d.c, m, i, x);
        if i != b { QueuedKept(d.c, m, e, i); }
        assert QueuedAs(d1.c, m, i, x);
      }
    }
  }

  lemma CompleteKeeps(d: Disk, m: nat, b: nat, junk: Data)
    requires Inv(d, m) && Enabled(d, m, Complete(b, junk)) && For(d.c, m, b)
    ensures Inv(Step(d, m, Complete(b, junk)), m)
  {
    var e, d1 := Complete(b, junk), Step(d, m, Complete(b, junk));
    CacheProofs.StepKeeps(d.c, e);
    assert InQueue(d, m, b);
    forall i: nat ensures InQueue(d1, m, i) {
      if i != b {
        QueuedKept(d.c, m, e, i);
        assert InQueue(d, m, i);
        if Queued(d.c, m, i) { RequestsDiffer(d.c, b, i); }
      }
    }
    forall x | x in d1.q ensures Backed(d1, m, x) {
      assert x != d.q[0] && Backed(d, m, x);
      var i: nat :| QueuedAs(d.c, m, i, x);
      QueuedKept(d.c, m, e, i);
      assert QueuedAs(d1.c, m, i, x);
    }
  }

  lemma ElsewhereKeeps(d: Disk, m: nat, e: Event)
    requires Inv(d, m) && Enabled(d, m, e) && !((e.Enqueue? || e.Complete?) && For(d.c, m, e.b))
    ensures Inv(Step(d, m, e), m)
  {
    var d1 := Step(d, m, e);
    CacheProofs.StepKeeps(d.c, e);
    forall i: nat ensures Queued(d1.c, m, i) <==> Queued(d.c, m, i)
      ensures Queued(d.c, m, i) ==> Request(d1.c, i) == Request(d.c, i) && d1.c.infos[i].key == d.c.infos[i].key
    {
      if (e.Enqueue? || e.Complete?) && e.b == i { assert BufOk(d.c, i); } else { QueuedKept(d.c, m, e, i); }
    }
    forall i: nat ensures InQueue(d1, m, i) { assert InQueue(d, m, i); }
    forall x | x in d1.q ensures Backed(d1, m, x) {
      assert Backed(d, m, x);
      var i: nat :| QueuedAs(d.c, m, i, x);
      assert QueuedAs(d1.c, m, i, x);
    }
  }

  /** Under any step of tasks, disks and interrupts the queue goes on holding exactly the buffers
      under transfer, once each. */
  lemma StepKeeps(d: Disk, m: nat, e: Event)
    requires Inv(d, m) && Enabled(d, m, e)
    ensures Inv(Step(d, m, e), m)
  {
    if (e.Enqueue? || e.Complete?) && For(d.c, m, e.b) {
      if e.Enqueue? { EnqueueKeeps(d, m, e.b); } else { CompleteKeeps(d, m, e.b, e.junk); }
    } else {
      ElsewhereKeeps(d, m, e);
    }
  }

  // ----- runs -----

  ghost predicate Runs(d: Disk, m: nat, es: seq<Event>)
    requires Inv(d, m)
    decreases |es|
  {
    es == [] || (Enabled(d, m, es[0]) && (StepKeeps(d, m, es[0]); Runs(Step(d, m, es[0]), m, es[1..])))
  }

  /** What a step does to the queue, if anything. */
  function QueueEvent(d: Disk, m: nat, e: Event): seq<E.Event>
    requires Shape(d.c)
  {
    if e.Enqueue? && For(d.c, m, e.b) then [E.Add(Request(d.c, e.b))]
    else if e.Complete? && For(d.c, m, e.b) then [E.Serve]
    else []
  }

  /** What a run does to the queue. */
  ghost function QueueEvents(d: Disk, m: nat, es: seq<Event>): seq<E.Event>
    requires Inv(d, m) && Runs(d, m, es)
    decreases |es|
  {
    if es == [] then []
    else
      StepKeeps(d, m, es[0]);
      QueueEvent(d, m, es[0]) + QueueEvents(Step(d, m, es[0]), m, es[1..])
  }

  /** The transfers the disk completes. */
  ghost function Completions(d: Disk, m: nat, es: seq<Event>): nat
    requires Inv(d, m) && Runs(d, m, es)
    decreases |es|
  {
    if es == [] then 0
    else
      StepKeeps(d, m, es[0]);
      (if es[0].Complete? && For(d.c, m, es[0].b) then 1 else 0) + Completions(Step(d, m, es[0]), m, es[1..])
  }

  predicate CompletedIn(es: seq<Event>, b: nat) {
    exists i :: 0 <= i < |es| && es[i].Complete? && es[i].b == b
  }

  /** Every request that can be made to the disk is in u. */
  ghost predicate AllIn(u: set<E.Key>, m: nat) {
    forall r: E.Key :: MayBe(m, r) ==> r in u
  }

  /** A request for a block of the disk with that major number. */
  predicate MayBe(m: nat, r: E.Key) {
    r.cmd <= 1 && r.dev / 256 == m && r.sector < 2 * BLOCKS && r.sector % 2 == 0
  }

  lemma {:induction false} AllQueuedIn(u: set<E.Key>, d: Disk, m: nat)
    requires Inv(d, m) && AllIn(u, m)
    ensures E.Within(u, d.q)
  {
    forall i | 0 <= i < |d.q| ensures d.q[i] in u {
      assert Backed(d, m, d.q[i]);
      var b: nat :| QueuedAs(d.c, m, b, d.q[i]);
      assert MayBe(m, d.q[i]);
    }
  }

  /** One event of the elevator ahead of others. */
  lemma Ahead(u: set<E.Key>, q: seq<E.Key>, e: E.Event, rest: seq<E.Event>)
    requires match e case Add(r) => r in u && r !in q case Serve => q != []
    requires E.CanRun(u, if e.Serve? then q[1..] else E.Insert(q, e.r), rest)
    ensures E.CanRun(u, q, [e] + rest)
    ensures var later := E.Served(u, if e.Serve? then q[1..] else E.Insert(q, e.r), rest);
            E.Served(u, q, [e] + rest) == if e.Serve? then [q[0]] + later else later
  {
    assert ([e] + rest)[1..] == rest;
  }

  /** A step of the whole, as the elevator sees it. */
  lemma StepAhead(u: set<E.Key>, d: Disk, m: nat, e: Event, rest: seq<E.Event>)
    requires Inv(d, m) && Enabled(d, m, e) && AllIn(u, m) && E.CanRun(u, Step(d, m, e).q, rest)
    ensures var run, later := QueueEvent(d, m, e) + rest, E.Served(u, Step(d, m, e).q, rest);
            && E.CanRun(u, d.q, run)
            && E.Served(u, d.q, run) == if QueueEvent(d, m, e) == [E.Serve] then [d.q[0]] + later else later
  {
    if QueueEvent(d, m, e) == [] {
      assert [] + rest == rest;
    } else {
      if e.Enqueue? {
        EnqueueKeeps(d, m, e.b);
        assert MayBe(m, Request(d.c, e.b));
      }
      Ahead(u, d.q, QueueEvent(d, m, e)[0], rest);
    }
  }

  /** The queue's part of a run is a run of the elevator. */
  lemma {:induction false} RunsElevator(u: set<E.Key>, d: Disk, m: nat, es: seq<Event>)
    requires Inv(d, m) && AllIn(u, m) && Runs(d, m, es)
    ensures E.CanRun(u, d.q, QueueEvents(d, m, es))
    ensures |E.Served(u, d.q, QueueEvents(d, m, es))| == Completions(d, m, es)
    decreases |es|
  {
    if es != [] {
      StepKeeps(d, m, es[0]);
      var d1 := Step(d, m, es[0]);
      RunsElevator(u, d1, m, es[1..]);
      StepAhead(u, d, m, es[0], QueueEvents(d1, m, es[1..]));
    }
  }

  /** Another step does not serve the request of buffer b. */
  lemma ServedLater(u: set<E.Key>, d: Disk, m: nat, e: Event, b: nat, rest: seq<E.Event>)
    requires Inv(d, m) && Enabled(d, m, e) && Queued(d.c, m, b) && !(e.Complete? && e.b == b)
    requires AllIn(u, m) && E.CanRun(u, Step(d, m, e).q, rest)
    ensures Queued(Step(d, m, e).c, m, b) && Request(Step(d, m, e).c, b) == Request(d.c, b)
    ensures E.CanRun(u, d.q, QueueEvent(d, m, e) + rest)
    ensures Request(d.c, b) in E.Served(u, d.q, QueueEvent(d, m, e) + rest) ==>
              Request(d.c, b) in E.Served(u, Step(d, m, e).q, rest)
  {
    assert BufOk(d.c, b) && InQueue(d, m, b);
    QueuedKept(d.c, m, e, b);
    StepAhead(u, d, m, e, rest);
    if QueueEvent(d, m, e) == [E.Serve] {
      assert InQueue(d, m, e.b);
      RequestsDiffer(d.c, b, e.b);
    }
  }

  /** As long as the transfer of buffer b has not been completed, its request has not been served. */
  lemma {:induction false} ServedIsCompleted(u: set<E.Key>, d: Disk, m: nat, es: seq<Event>, b: nat)
    requires Inv(d, m) && AllIn(u, m) && Runs(d, m, es) && Queued(d.c, m, b)
    requires E.CanRun(u, d.q, QueueEvents(d, m, es))
    requires Request(d.c, b) in E.Served(u, d.q, QueueEvents(d, m, es))
    ensures CompletedIn(es, b)
    decreases |es|
  {
    var e, rest := es[0], es[1..];
    StepKeeps(d, m, e);
    if !(e.Complete? && e.b == b) {
      var d1 := Step(d, m, e);
      RunsElevator(u, d1, m, rest);
      ServedLater(u, d, m, e, b, QueueEvents(d1, m, rest));
      ServedIsCompleted(u, d1, m, rest, b);
      var i :| 0 <= i < |rest| && rest[i].Complete? && rest[i].b == b;
      assert es[i + 1] == rest[i];
    }
  }

  /** A buffer under transfer is done with by the time the disk has completed twice as many
      transfers as there can be requests, whatever tasks and interrupts do meanwhile. */
  lemma BufferServed(u: set<E.Key>, d: Disk, m: nat, es: seq<Event>, b: nat)
    requires Inv(d, m) && AllIn(u, m) && Runs(d, m, es) && Queued(d.c, m, b)
    requires Completions(d, m, es) >= 2 * |u|
    ensures CompletedIn(es, b)
  {
    assert InQueue(d, m, b);
    AllQueuedIn(u, d, m);
    RunsElevator(u, d, m, es);
    E.NoStarvation(u, d.q, QueueEvents(d, m, es), Request(d.c, b));
    ServedIsCompleted(u, d, m, es, b);
  }

  /** What buffer_init and blk_dev_init leave fits together. */
  lemma InitialFits(d: Disk, m: nat)
    requires Initial(d.c) && d.q == []
    ensures Inv(d, m)
  {
    InitialInv(d.c);
    forall b: nat ensures InQueue(d, m, b) {
      if b < |d.c.infos| { assert BufOk(d.c, b); }
    }
  }
}
