/** Who uses which buffer, over whole runs of the cache machine: what getblk hands out, what brelse
    gives back, when getblk comes to an end, and what a transfer leaves behind. */
module CacheUse {
  import opened CacheMachine
  import opened CacheProofs
  import L = CacheLink

  predicate WaitsFor(s: Cache, t: nat, b: nat) {
    PcOf(s, t).HashWait? && PcOf(s, t).b == b
  }

  function One(c: bool): int { if c then 1 else 0 }

  /** How often task t has buffer b from getblk: its share of b_count, less the one that it has
      taken ahead while it waits in get_hash_table. */
  function Owned(s: Cache, t: nat, b: nat): int
    requires Shape(s) && b < |s.infos|
  {
    s.users[b][t] - One(WaitsFor(s, t, b))
  }

  /** At this step getblk returns to task t, with buffer b: the one that carries the key asked for. */
  ghost predicate HandsOut(s: Cache, e: Event, t: nat, b: nat)
    requires Inv(s) && Enabled(s, e)
  {
    && e == Run(t) && PcOf(Step(s, e), t) == Idle
    && b < |Step(s, e).infos| && Step(s, e).infos[b].key == PcOf(s, t).key
  }

  /** brelse, and bforget in free_block */
  predicate GivesBack(e: Event, t: nat, b: nat) {
    (e.Release? || e.Forget?) && e.t == t && e.b == b
  }

  /** All buffers but b are as they were. */
  ghost predicate OthersSame(s: Cache, s': Cache, b: nat)
    requires Shape(s)
  {
    && Shape(s') && |s'.infos| == |s.infos| && s'.disk == s.disk
    && forall i: nat :: i < |s.infos| && i != b ==>
         s'.infos[i] == s.infos[i] && s'.users[i] == s.users[i] && s'.data[i] == s.data[i] && s'.io[i] == s.io[i]
  }

  /** brelse takes one from b_count, and nothing else changes. */
  lemma ReleaseLowers(s: Cache, t: nat, b: nat)
    requires Inv(s) && Uses(s, t, b)
    ensures var s' := Step(s, Release(t, b));
            && s.infos[b].count > 0 && OthersSame(s, s', b)
            && s'.infos[b] == s.infos[b].(count := s.infos[b].count - 1)
            && s'.users[b] + multiset{t} == s.users[b]
            && s'.data == s.data && s'.io == s.io && s'.ring == s.ring && s'.pcs == s.pcs
  {
    assert BufOk(s, b);
    assert s.users[b] == s.users[b] - multiset{t} + multiset{t};
  }

  // ----- the law of a step -----

  ghost predicate Balanced(s: Cache, e: Event, t: nat, b: nat)
    requires Inv(s) && Enabled(s, e) && b < |s.infos|
  {
    && Shape(Step(s, e)) && |Step(s, e).infos| == |s.infos|
    && Owned(Step(s, e), t, b) == Owned(s, t, b) + One(HandsOut(s, e, t, b)) - One(GivesBack(e, t, b))
  }

  /** Buffer b is the only one with its key. */
  lemma OnlyFind(s: Cache, b: nat)
    requires Inv(s) && b < |s.infos| && s.infos[b].key.dev != 0
    ensures Find(s.infos, s.infos[b].key) == Some(b)
    ensures forall i: nat :: i < |s.infos| && s.infos[i].key == s.infos[b].key ==> i == b
  {
    assert Unique(s, Find(s.infos, s.infos[b].key).value, b);
    forall i: nat | i < |s.infos| && s.infos[i].key == s.infos[b].key ensures i == b { assert Unique(s, i, b); }
  }

  lemma EvictBalanced(s: Cache, u: nat, k: Key, v: nat, t: nat, b: nat)
    requires Inv(s) && Enabled(s, Run(u)) && !PcOf(s, u).HashWait? && !PcOf(s, u).Idle? && PcOf(s, u).key == k
    requires v < |s.infos| && b < |s.infos| && k.dev != 0 && Step(s, Run(u)) == TryEvict(s, u, k, v)
    ensures Balanced(s, Run(u), t, b)
  {
    var s' := Step(s, Run(u));
    assert BufOk(s, v) && PcOk(s, t);
    if PcOf(s', u) == Idle {
      TookOver(s, u, k, v);
      assert s.users[v] == multiset{};
    }
  }

  /** A buffer that getblk takes over is the only one with the new key, and its one user's. */
  lemma TookOver(s: Cache, u: nat, k: Key, v: nat)
    requires Inv(s) && v < |s.infos| && k.dev != 0 && PcOf(TryEvict(s, u, k, v), u) == Idle
    ensures var s' := TryEvict(s, u, k, v);
            && s.users[v] == multiset{} && Shape(s') && s'.users == s.users[v := multiset{u}]
            && |s'.infos| == |s.infos|
            && forall i: nat :: i < |s.infos| ==> (s'.infos[i].key == k <==> i == v)
  {
    TryEvictKeeps(s, u, k, v);
    assert BufOk(s, v) && |s.users[v]| == 0;
    OnlyFind(TryEvict(s, u, k, v), v);
  }

  lemma AttemptBalanced(s: Cache, u: nat, t: nat, b: nat)
    requires Inv(s) && Enabled(s, Run(u)) && PcOf(s, u).Begin? && b < |s.infos|
    ensures Balanced(s, Run(u), t, b)
  {
    var k := PcOf(s, u).key;
    var s' := Step(s, Run(u));
    assert PcOk(s, u);
    match Find(s.infos, k)
    case Some(v) =>
      AttemptKeeps(s, u, k);
      OnlyFind(s', v);
    case None =>
      match Scan(s.infos, s.ring, None)
      case None =>
      case Some(v) => EvictBalanced(s, u, k, v, t, b);
  }

  lemma HashDoneBalanced(s: Cache, u: nat, t: nat, b: nat)
    requires Inv(s) && Enabled(s, Run(u)) && PcOf(s, u).HashWait? && b < |s.infos|
    ensures Balanced(s, Run(u), t, b)
  {
    var k, v := PcOf(s, u).key, PcOf(s, u).b;
    assert PcOk(s, u);
    HashDoneKeeps(s, u, k, v);
    OnlyFind(s, v);
  }

  lemma GiveBackBalanced(s: Cache, e: Event, t: nat, b: nat)
    requires Inv(s) && Enabled(s, e) && (e.Release? || e.Forget?) && b < |s.infos|
    ensures Balanced(s, e, t, b)
  {
    assert BufOk(s, e.b);
    assert s.users[e.b] == s.users[e.b] - multiset{e.t} + multiset{e.t};
  }

  lemma RunBalanced(s: Cache, u: nat, t: nat, b: nat)
    requires Inv(s) && Enabled(s, Run(u)) && b < |s.infos|
    ensures Balanced(s, Run(u), t, b)
  {
    match PcOf(s, u)
    case Begin(_) => AttemptBalanced(s, u, t, b);
    case HashWait(_, _) => HashDoneBalanced(s, u, t, b);
    case Evict(k, v) =>
      assert PcOk(s, u);
      EvictBalanced(s, u, k, v, t, b);
    case _ =>
  }

  /** What a task has of a buffer changes only by getblk's return to it and by its own brelse. */
  lemma StepBalanced(s: Cache, e: Event, t: nat, b: nat)
    requires Inv(s) && Enabled(s, e) && b < |s.infos|
    ensures Balanced(s, e, t, b)
  {
    match e
    case Run(u) => RunBalanced(s, u, t, b);
    case Release(_, _) => GiveBackBalanced(s, e, t, b);
    case Forget(_, _, _) => GiveBackBalanced(s, e, t, b);
    case _ =>
  }

  // ----- runs -----

  /** How often getblk has returned to t with b. */
  ghost function Handed(s: Cache, es: seq<Event>, t: nat, b: nat): nat
    requires Inv(s) && Runs(s, es)
    decreases |es|
  {
    if es == [] then 0
    else
      StepKeeps(s, es[0]);
      (if HandsOut(s, es[0], t, b) then 1 else 0) + Handed(Step(s, es[0]), es[1..], t, b)
  }

  /** How often t has given b back. */
  function GivenBack(es: seq<Event>, t: nat, b: nat): nat {
    if es == [] then 0 else (if GivesBack(es[0], t, b) then 1 else 0) + GivenBack(es[1..], t, b)
  }

  /** Over any run, what a task has of a buffer is what it had, and what getblk handed it, less what
      it gave back. */
  lemma {:induction false} UsersLaw(s: Cache, es: seq<Event>, t: nat, b: nat)
    requires Inv(s) && Runs(s, es) && b < |s.infos|
    ensures Inv(End(s, es)) && |End(s, es).infos| == |s.infos|
    ensures Owned(End(s, es), t, b) == Owned(s, t, b) + Handed(s, es, t, b) - GivenBack(es, t, b)
    decreases |es|
  {
    if es != [] {
      StepKeeps(s, es[0]);
      StepBalanced(s, es[0], t, b);
      UsersLaw(Step(s, es[0]), es[1..], t, b);
    }
  }

  /** Task t has given buffer b back as often as it got it, and does not wait for it. */
  ghost predicate Settled(s: Cache, es: seq<Event>, t: nat, b: nat)
    requires Inv(s) && Runs(s, es)
  {
    Handed(s, es, t, b) == GivenBack(es, t, b) && !WaitsFor(End(s, es), t, b)
  }

  ghost predicate AllSettled(s: Cache, es: seq<Event>, b: nat)
    requires Inv(s) && Runs(s, es)
  {
    forall t: nat :: Settled(s, es, t, b)
  }

  /** From the first state on, a buffer is unused if and only if every task has settled with it. */
  lemma UnusedIff(s: Cache, es: seq<Event>, b: nat)
    requires Initial(s) && Inv(s) && Runs(s, es) && b < |s.infos|
    ensures Inv(End(s, es)) && |End(s, es).infos| == |s.infos|
    ensures End(s, es).infos[b].count == 0 <==> AllSettled(s, es, b)
  {
    UsersLaw(s, es, 0, b);
    var r := End(s, es);
    assert BufOk(r, b);
    if r.infos[b].count == 0 {
      forall t: nat ensures Settled(s, es, t, b) {
        UsersLaw(s, es, t, b);
        assert PcOk(r, t) && r.users[b] == multiset{};
      }
    } else {
      var t: nat :| t in r.users[b];
      UsersLaw(s, es, t, b);
      assert !Settled(s, es, t, b);
    }
  }

  /** So getblk's walk finds a buffer if and only if there is one that every task has settled with. */
  lemma VictimIff(s: Cache, es: seq<Event>)
    requires Initial(s) && Inv(s) && Runs(s, es)
    ensures Inv(End(s, es))
    ensures Scan(End(s, es).infos, End(s, es).ring, None).Some?
       <==> exists b: nat :: b < |s.infos| && AllSettled(s, es, b)
  {
    EndInv(s, es);
    var r := End(s, es);
    ScanFindsVictim(r.infos, r.ring);
    if Scan(r.infos, r.ring, None).Some? {
      var i :| 0 <= i < |r.ring| && r.infos[r.ring[i]].count == 0;
      UnusedIff(s, es, r.ring[i]);
    }
    if b: nat :| b < |s.infos| && AllSettled(s, es, b) {
      UnusedIff(s, es, b);
      assert b in r.ring;
    }
  }

  lemma {:induction false} EndInv(s: Cache, es: seq<Event>)
    requires Inv(s) && Runs(s, es)
    ensures Inv(End(s, es)) && |End(s, es).infos| == |s.infos|
    decreases |es|
  {
    if es != [] {
      StepKeeps(s, es[0]);
      EndInv(Step(s, es[0]), es[1..]);
    }
  }

  // ----- when getblk comes to an end -----

  /** An unused buffer that can be taken at once. */
  predicate Ready(i: Info) { i.count == 0 && !i.lock && !i.dirty }

  ghost predicate HasBuffer(s: Cache, k: Key) {
    exists b: nat :: b < |s.infos| && s.infos[b].key == k
  }

  lemma FindIff(s: Cache, k: Key)
    requires Inv(s) && k.dev != 0
    ensures HasBuffer(s, k) <==> Find(s.infos, k).Some?
    ensures forall b: nat :: b < |s.infos| && s.infos[b].key == k ==> Find(s.infos, k) == Some(b)
  {
    forall b: nat | b < |s.infos| && s.infos[b].key == k ensures Find(s.infos, k) == Some(b) { OnlyFind(s, b); }
  }

  /** The choice, written out: unused; clean if any unused one is; of those unlocked if any is. */
  ghost predicate BestUnused(s: Cache, v: nat) {
    && v < |s.infos| && s.infos[v].count == 0
    && (forall b: nat :: b < |s.infos| && s.infos[b].count == 0 ==>
          && (s.infos[v].dirty ==> s.infos[b].dirty)
          && (s.infos[v].lock && s.infos[v].dirty == s.infos[b].dirty ==> s.infos[b].lock))
  }

  lemma ScanBest(s: Cache)
    requires Inv(s)
    ensures Scan(s.infos, s.ring, None).Some? ==> BestUnused(s, Scan(s.infos, s.ring, None).value)
    ensures Scan(s.infos, s.ring, None).None? ==> forall b: nat :: b < |s.infos| ==> s.infos[b].count > 0
  {
    ScanFindsVictim(s.infos, s.ring);
    var r := Scan(s.infos, s.ring, None);
    if r.Some? {
      var i :| 0 <= i < |s.ring| && r == Some(s.ring[i]) && IsVictim(s.infos, s.ring, i);
      forall b: nat | b < |s.infos| && s.infos[b].count == 0
        ensures Badness(s.infos[r.value]) <= Badness(s.infos[b])
      {
        assert b in s.ring;
        var j :| 0 <= j < |s.ring| && s.ring[j] == b;
      }
    } else {
      forall b: nat | b < |s.infos| ensures s.infos[b].count > 0 {
        assert b in s.ring;
        var j :| 0 <= j < |s.ring| && s.ring[j] == b;
      }
    }
  }

  /** getblk returns without a wait if and only if the block has a buffer that is not locked, or has
      none and some unused buffer is clean and not locked. */
  lemma ReturnsIff(s: Cache, t: nat, k: Key)
    requires Inv(s) && PcOf(s, t) == Begin(k)
    ensures k.dev != 0
    ensures PcOf(Step(s, Run(t)), t) == Idle
       <==> if HasBuffer(s, k) then exists b: nat :: b < |s.infos| && s.infos[b].key == k && !s.infos[b].lock
            else exists b: nat :: b < |s.infos| && Ready(s.infos[b])
  {
    assert PcOk(s, t);
    FindIff(s, k);
    ScanBest(s);
    if !HasBuffer(s, k) {
      if b: nat :| b < |s.infos| && Ready(s.infos[b]) {
        var v := Scan(s.infos, s.ring, None).value;
        assert !s.infos[v].dirty && !s.infos[v].lock;
      }
    }
  }

  /** Otherwise it waits: for the buffer of the block; for a buffer to become unused when all are in
      use; else for the best unused one, to be unlocked or written. */
  lemma WaitsOtherwise(s: Cache, t: nat, k: Key)
    requires Inv(s) && PcOf(s, t) == Begin(k) && PcOf(Step(s, Run(t)), t) != Idle
    ensures var s', pc := Step(s, Run(t)), PcOf(Step(s, Run(t)), t);
            && s'.data == s.data && s'.disk == s.disk && s'.io == s.io
            && (if HasBuffer(s, k) then
                  && pc.HashWait? && pc.key == k && pc.b < |s.infos| && s.infos[pc.b].key == k && s.infos[pc.b].lock
                  && OthersSame(s, s', pc.b) && s'.users[pc.b] == s.users[pc.b] + multiset{t}
                else s'.infos == s.infos && s'.users == s.users
                     && (if forall b: nat :: b < |s.infos| ==> s.infos[b].count > 0 then pc == Begin(k)
                         else (pc.Evict? || pc.Syncing?) && pc.key == k && BestUnused(s, pc.b)
                              && (pc.Evict? <==> s.infos[pc.b].lock)))
  {
    assert PcOk(s, t);
    FindIff(s, k);
    ScanBest(s);
    ScanFindsVictim(s.infos, s.ring);
  }

  /** Awake again, it returns with the buffer of the block as soon as that is unlocked. */
  lemma HashReturnsIff(s: Cache, t: nat, k: Key, b: nat)
    requires Inv(s) && PcOf(s, t) == HashWait(k, b)
    ensures b < |s.infos| && s.infos[b].count > 0
    ensures PcOf(Step(s, Run(t)), t) == Idle <==> !s.infos[b].lock
    ensures s.infos[b].lock ==> Step(s, Run(t)) == s
  {
    HashDoneKeeps(s, t, k, b);
  }

  /** And it takes the buffer it chose if and only if that is still free for the taking and nobody
      has got a buffer for the block meanwhile. */
  lemma EvictReturnsIff(s: Cache, t: nat, k: Key, b: nat)
    requires Inv(s) && PcOf(s, t) == Evict(k, b)
    ensures b < |s.infos| && k.dev != 0
    ensures PcOf(Step(s, Run(t)), t) == Idle <==> Ready(s.infos[b]) && !HasBuffer(s, k)
    ensures PcOf(Step(s, Run(t)), t) == Idle ==> HandsOut(s, Run(t), t, b)
  {
    assert PcOk(s, t);
    FindIff(s, k);
    TryEvictKeeps(s, t, k, b);
  }

  /** A call begins at `repeat`; when the device has been synced the buffer chosen is looked at again. */
  lemma Proceeds(s: Cache, t: nat, k: Key)
    requires Inv(s)
    ensures Enabled(s, Start(t, k)) ==> PcOf(Step(s, Start(t, k)), t) == Begin(k)
    ensures Enabled(s, SyncDone(t)) && PcOf(s, t).key == k ==>
              PcOf(Step(s, SyncDone(t)), t) == Evict(k, PcOf(s, t).b)
  {
  }

  // ----- transfers -----

  /** ll_rw_block takes the lock if and only if there is something to transfer. */
  lemma LocksIff(s: Cache, b: nat, write: bool)
    requires Inv(s) && Enabled(s, LockFor(b, write))
    ensures var s' := Step(s, LockFor(b, write));
            && OthersSame(s, s', b) && (s'.infos[b].lock <==> if write then s.infos[b].dirty else !s.infos[b].uptodate)
            && (s'.infos[b].lock ==> s'.io[b] == if write then WaitWrite else WaitRead)
  {
  }

  /** The end of a transfer: unlocked and uptodate; a read has brought what the disk holds, a write
      has left there what the buffer holds, unless that was changed meanwhile. */
  lemma Transferred(s: Cache, b: nat, junk: Data)
    requires Inv(s) && Enabled(s, Complete(b, junk))
    ensures var s', k := Step(s, Complete(b, junk)), s.infos[b].key;
            && Shape(s') && |s'.infos| == |s.infos|
            && s'.infos[b] == s.infos[b].(uptodate := true, lock := false) && s'.io[b] == NoIo
            && (s.io[b] == Reading ==> s'.data == s.data[b := OnDisk(s, k)] && s'.disk == s.disk)
            && (s.io[b] == Writing ==> s'.data == s.data)
            && (!s.infos[b].dirty ==> OnDisk(s', k) == s'.data[b])
            && (forall k': Key :: k' != k ==> OnDisk(s', k') == OnDisk(s, k'))
  {
    assert BufOk(s, b);
  }

  /** Until then the buffer stays locked and with its block, whatever happens. */
  lemma {:induction false} LockedTillDone(s: Cache, es: seq<Event>, b: nat)
    requires Inv(s) && Runs(s, es) && b < |s.infos| && s.infos[b].lock
    requires forall e :: e in es && e.Complete? ==> e.b != b
    ensures Inv(End(s, es)) && |End(s, es).infos| == |s.infos|
    ensures End(s, es).infos[b].lock && End(s, es).infos[b].key == s.infos[b].key
    decreases |es|
  {
    if es != [] {
      assert es[0] in es;
      StepKeeps(s, es[0]);
      StaysLocked(s, es[0], b);
      LockedTillDone(Step(s, es[0]), es[1..], b);
    }
  }

  lemma StaysLocked(s: Cache, e: Event, b: nat)
    requires Inv(s) && Enabled(s, e) && b < |s.infos| && s.infos[b].lock && !(e.Complete? && e.b == b)
    ensures var s' := Step(s, e); Shape(s') && b < |s'.infos| && s'.infos[b].lock
  {
    StepKeeps(s, e);
    if e.Run? { GetblkKeepsLock(s, e.t, b); }
  }

  lemma GetblkKeepsLock(s: Cache, t: nat, b: nat)
    requires Inv(s) && Enabled(s, Run(t)) && b < |s.infos| && s.infos[b].lock
    ensures var s' := Step(s, Run(t)); Shape(s') && b < |s'.infos| && s'.infos[b].lock
  {
    assert PcOk(s, t);
  }

  /** add_request cleans the buffer: what is stored from then on has to be written again. */
  lemma Queues(s: Cache, b: nat)
    requires Inv(s) && Enabled(s, Enqueue(b))
    ensures var s' := Step(s, Enqueue(b));
            && OthersSame(s, s', b) && s'.infos[b] == s.infos[b].(dirty := false) && s'.data == s.data
            && s'.io[b] == (if s.io[b] == WaitRead then Reading else Writing)
  {
  }

  /** free_block lets the contents go, and the buffer too. */
  lemma Forgotten(s: Cache, t: nat, b: nat, k: Key)
    requires Inv(s) && Enabled(s, Forget(t, b, k))
    ensures var s' := Step(s, Forget(t, b, k));
            && OthersSame(s, s', b) && s'.infos[b] == Info(k, false, false, 0, false)
            && s'.users[b] == multiset{}
  {
    assert BufOk(s, b);
    assert s.users[b] == s.users[b] - multiset{t} + multiset{t};
  }

  // ----- who is recycled first -----

  ghost predicate Ahead(ring: seq<nat>, x: nat, y: nat) {
    exists i, j :: 0 <= i < j < |ring| && ring[i] == x && ring[j] == y
  }

  lemma {:induction false} WithoutAhead(ring: seq<nat>, b: nat, x: nat, y: nat)
    requires forall i, j :: 0 <= i < j < |ring| ==> ring[i] != ring[j]
    ensures Ahead(Without(ring, b), x, y) <==> Ahead(ring, x, y) && x != b && y != b
    decreases |ring|
  {
    if ring != [] {
      var rest := ring[1..];
      WithoutRing(ring, b);
      WithoutRing(rest, b);
      AheadCons(ring[0], rest, x, y);
      WithoutAhead(rest, b, x, y);
      if ring[0] != b {
        AheadCons(ring[0], Without(rest, b), x, y);
      } else {
        Unlisted(rest, b, x, y);
      }
      assert ring == [ring[0]] + rest;
    }
  }

  lemma AheadCons(h: nat, rest: seq<nat>, x: nat, y: nat)
    ensures Ahead([h] + rest, x, y) <==> (h == x && y in rest) || Ahead(rest, x, y)
  {
    var r := [h] + rest;
    if i, j :| 0 <= i < j < |r| && r[i] == x && r[j] == y {
      assert rest[j - 1] == y;
      if i > 0 { assert rest[i - 1] == x; }
    }
    if i, j :| 0 <= i < j < |rest| && rest[i] == x && rest[j] == y {
      assert r[i + 1] == x && r[j + 1] == y;
    }
    if h == x && y in rest {
      var j :| 0 <= j < |rest| && rest[j] == y;
      assert r[0] == x && r[j + 1] == y;
    }
  }

  lemma Unlisted(rest: seq<nat>, b: nat, x: nat, y: nat)
    requires forall j :: 0 <= j < |rest| ==> rest[j] != b
    ensures Ahead(rest, x, y) ==> x != b && y != b
  {
  }

  lemma AheadOfLast(ring: seq<nat>, b: nat, x: nat, y: nat)
    requires b !in ring
    ensures Ahead(ring + [b], x, y) <==> Ahead(ring, x, y) || (x in ring && y == b)
  {
    var r := ring + [b];
    if i, j :| 0 <= i < j < |r| && r[i] == x && r[j] == y {
      assert ring[i] == x;
      if j < |ring| { assert ring[j] == y; }
    }
    if i, j :| 0 <= i < j < |ring| && ring[i] == x && ring[j] == y { assert r[i] == x && r[j] == y; }
    if x in ring && y == b {
      var i :| 0 <= i < |ring| && ring[i] == x;
      assert r[i] == x && r[|ring|] == y;
    }
  }

  ghost predicate Reordered(s: Cache, s': Cache, x: nat, y: nat)
    requires Shape(s) && x < |s.infos| && y < |s.infos|
  {
    && Shape(s') && |s'.infos| == |s.infos|
    && (Ahead(s'.ring, x, y) <==>
          if s'.infos[x].key != s.infos[x].key then false
          else if s'.infos[y].key != s.infos[y].key then true
          else Ahead(s.ring, x, y))
  }

  lemma RekeyReorders(s: Cache, s': Cache, t: nat, b: nat, k: Key, x: nat, y: nat)
    requires Inv(s) && Shape(s') && b < |s.infos| && s.infos[b].key != k
    requires x < |s.infos| && y < |s.infos| && x != y
    requires s'.infos == Rekey(s, t, b, k).infos && s'.ring == Rekey(s, t, b, k).ring
    ensures Reordered(s, s', x, y)
  {
    WithoutRing(s.ring, b);
    WithoutAhead(s.ring, b, x, y);
    AheadOfLast(Without(s.ring, b), b, x, y);
    assert x in s.ring;
  }

  /** The free list keeps its order, but that a buffer that gets a new block goes to the end: so the
      one that got its block longest ago is the first. */
  lemma OrderStep(s: Cache, e: Event, x: nat, y: nat)
    requires Inv(s) && Enabled(s, e) && x < |s.infos| && y < |s.infos| && x != y
    ensures Reordered(s, Step(s, e), x, y)
  {
    StepKeeps(s, e);
    var p := L.RekeyedBy(s, e);
    if p.Some? {
      L.Rekeys(s, e);
      NewKey(s, e);
      RekeyReorders(s, Step(s, e), e.t, p.value.0, p.value.1, x, y);
    } else {
      L.NotRekeyed(s, e);
    }
  }

  lemma NewKey(s: Cache, e: Event)
    requires Inv(s) && Enabled(s, e) && L.RekeyedBy(s, e).Some?
    ensures var (b, k) := L.RekeyedBy(s, e).value; b < |s.infos| && s.infos[b].key != k
  {
    L.Rekeys(s, e);
    var (b, k) := L.RekeyedBy(s, e).value;
    FindIff(s, k);
  }
}
