/** What every interleaving of the buffer cache's tasks keeps: one buffer for a block, no buffer
    taken from its users, and the contents of cache and disk together. */
module CacheProofs {
  import opened CacheMachine

  lemma FindSame(a: seq<Info>, b: seq<Info>, k: Key)
    requires |a| == |b| && forall i :: 0 <= i < |a| ==> a[i].key == b[i].key
    ensures Find(a, k) == Find(b, k)
  {
    if a != [] {
      FindSame(a[..|a| - 1], b[..|b| - 1], k);
    }
  }

  /** Only buffer b changed, and not its key; on disk only its block. */
  ghost predicate OnlyAt(s: Cache, s': Cache, b: nat)
    requires Shape(s)
  {
    && Shape(s') && b < |s.infos| == |s'.infos| && s'.ring == s.ring
    && s'.infos[b].key == s.infos[b].key
    && (forall i :: 0 <= i < |s.infos| && i != b ==>
          s'.infos[i] == s.infos[i] && s'.data[i] == s.data[i] && s'.io[i] == s.io[i] && s'.users[i] == s.users[i])
    && (forall k :: k != s.infos[b].key ==> OnDisk(s', k) == OnDisk(s, k))
  }

  lemma LocalKeeps(s: Cache, s': Cache, b: nat)
    requires Inv(s) && OnlyAt(s, s', b) && BufOk(s', b) && (forall t :: PcOk(s', t))
    requires s.infos[b].key.dev == 0 ==> s'.disk == s.disk
    ensures Inv(s')
    ensures forall k: Key :: k.dev != 0 && k != s.infos[b].key ==> Content(s', k) == Content(s, k)
  {
    forall i: nat | i < |s'.infos| ensures BufOk(s', i) {
      assert BufOk(s, i);
      assert Unique(s, i, b);
    }
    forall i, j ensures Unique(s', i, j) { assert Unique(s, i, j); }
    forall k: Key | k.dev != 0 && k != s.infos[b].key ensures Content(s', k) == Content(s, k) {
      FindSame(s.infos, s'.infos, k);
    }
  }

  /** Only where the task is changed. */
  lemma MoveKeeps(s: Cache, t: nat, pc: Pc)
    requires Inv(s) && PcOk(At(s, t, pc), t)
    ensures Inv(At(s, t, pc))
    ensures forall k :: Content(At(s, t, pc), k) == Content(s, k)
  {
    var s' := At(s, t, pc);
    forall u ensures PcOk(s', u) { assert PcOk(s, u); }
    forall b: nat | b < |s.infos| ensures BufOk(s', b) { assert BufOk(s, b); }
    forall i, j ensures Unique(s', i, j) { assert Unique(s, i, j); }
    forall k ensures OnDisk(s', k) == OnDisk(s, k) { }
  }

  lemma WithoutRing(ring: seq<nat>, b: nat)
    requires forall i, j :: 0 <= i < j < |ring| ==> ring[i] != ring[j]
    ensures var r := Without(ring, b);
            && (forall x :: x in r <==> x in ring && x != b)
            && (forall i, j :: 0 <= i < j < |r| ==> r[i] != r[j])
  {
    if ring != [] {
      WithoutRing(ring[1..], b);
      var r := Without(ring, b);
      assert ring == [ring[0]] + ring[1..];
      if ring[0] == b {
        forall x ensures x in r <==> x in ring && x != b {
          if x in ring[1..] {
            var i :| 0 <= i < |ring[1..]| && ring[1..][i] == x;
            assert ring[0] != ring[i + 1];
          }
        }
      } else {
        var rest := Without(ring[1..], b);
        forall i, j | 0 <= i < j < |r| ensures r[i] != r[j] {
          if i == 0 {
            assert rest[j - 1] in ring[1..];
            var m :| 0 <= m < |ring[1..]| && ring[1..][m] == rest[j - 1];
            assert ring[0] != ring[m + 1];
          }
        }
      }
    }
  }

  // ----- the buffer changes hands -----

  ghost predicate MayTake(s: Cache, b: nat, k: Key)
    requires Shape(s)
  {
    && b < |s.infos| && s.infos[b].count == 0 && !s.infos[b].lock && !s.infos[b].dirty
    && k.dev != 0 && Find(s.infos, k) == None
  }

  lemma RekeyRing(s: Cache, t: nat, b: nat, k: Key)
    requires Inv(s) && b < |s.infos|
    ensures RingHasAll(Rekey(s, t, b, k))
  {
    WithoutRing(s.ring, b);
    var r, w := Rekey(s, t, b, k).ring, Without(s.ring, b);
    forall i | 0 <= i < |r| ensures r[i] < |s.infos| {
      if i < |w| { assert w[i] in s.ring; }
    }
    forall i, j | 0 <= i < j < |r| ensures r[i] != r[j] {
      if j == |w| { assert w[i] in w; }
    }
    forall x: nat | x < |s.infos| ensures x in r {
      if x != b { assert x in w; }
    }
  }

  /** Taking over an unused, unlocked, clean buffer for a block that has none: the block it held
      is on disk, and the block it will hold has not been read yet. */
  lemma RekeyKeeps(s: Cache, t: nat, b: nat, k: Key)
    requires Inv(s) && MayTake(s, b, k)
    ensures Inv(Rekey(s, t, b, k))
    ensures forall k': Key :: k'.dev != 0 ==> Content(Rekey(s, t, b, k), k') == Content(s, k')
  {
    var s' := Rekey(s, t, b, k);
    RekeyRing(s, t, b, k);
    assert BufOk(s, b);
    forall i: nat | i < |s'.infos| ensures BufOk(s', i) { assert BufOk(s, i); }
    forall i, j ensures Unique(s', i, j) { assert Unique(s, i, j); }
    forall u ensures PcOk(s', u) {
      assert PcOk(s, u);
      assert |s.users[b]| == 0;
    }
    forall k': Key | k'.dev != 0 ensures Content(s', k') == Content(s, k') {
      RekeyContent(s, s', t, b, k, k');
    }
  }

  lemma RekeyContent(s: Cache, s': Cache, t: nat, b: nat, k: Key, k': Key)
    requires Inv(s) && MayTake(s, b, k) && s' == Rekey(s, t, b, k) && k'.dev != 0
    requires forall i, j :: Unique(s', i, j)
    ensures Content(s', k') == Content(s, k')
  {
    var f, f' := Find(s.infos, k'), Find(s'.infos, k');
    assert BufOk(s, b);
    if k' == k {
      assert s'.infos[b].key == k;
      assert Unique(s', b, f'.value);
    } else if f.Some? && f.value != b {
      assert s'.infos[f.value].key == k';
      assert Unique(s', f.value, f'.value);
    } else {
      forall i | 0 <= i < |s'.infos| ensures s'.infos[i].key != k' {
        assert Unique(s, i, b);
      }
    }
  }

  // ----- users -----

  lemma HoldKeeps(s: Cache, t: nat, b: nat)
    requires Inv(s) && b < |s.infos| && s.infos[b].key.dev != 0
    ensures var s' := Hold(s, t, b);
            && Inv(s') && t in s'.users[b]
            && (forall k: Key :: k.dev != 0 ==> Content(s', k) == Content(s, k))
  {
    var s' := Hold(s, t, b);
    assert BufOk(s, b);
    forall u ensures PcOk(s', u) { assert PcOk(s, u); }
    LocalKeeps(s, s', b);
    ContentOf(s, b);
    ContentOf(s', b);
  }

  lemma DropKeeps(s: Cache, t: nat, b: nat)
    requires Inv(s) && b < |s.infos| && t in s.users[b] && PcOf(s, t) == Idle
    ensures s.infos[b].count > 0
    ensures var s' := Drop(s, t, b);
            && Inv(s')
            && (forall k: Key :: k.dev != 0 ==> Content(s', k) == Content(s, k))
  {
    assert BufOk(s, b);
    assert s.users[b] == s.users[b] - multiset{t} + multiset{t};
    var s' := Drop(s, t, b);
    forall u ensures PcOk(s', u) {
      assert PcOk(s, u);
    }
    LocalKeeps(s, s', b);
    ContentOf(s, b);
    ContentOf(s', b);
  }

  // ----- the choice of a buffer -----

  /** Place i of the free list holds the first unused buffer of least badness. */
  ghost predicate IsVictim(infos: seq<Info>, ring: seq<nat>, i: nat)
    requires i < |ring| && forall j :: 0 <= j < |ring| ==> ring[j] < |infos|
  {
    && infos[ring[i]].count == 0
    && (forall j :: 0 <= j < |ring| && infos[ring[j]].count == 0 ==> Badness(infos[ring[i]]) <= Badness(infos[ring[j]]))
    && (forall j :: 0 <= j < i && infos[ring[j]].count == 0 ==> Badness(infos[ring[i]]) < Badness(infos[ring[j]]))
  }

  /** The rest of the list has nothing better than the choice so far. */
  ghost predicate NoneBetter(infos: seq<Info>, ring: seq<nat>, best: Option<nat>)
    requires (forall j :: 0 <= j < |ring| ==> ring[j] < |infos|) && (best.Some? ==> best.value < |infos|)
  {
    forall j :: 0 <= j < |ring| && infos[ring[j]].count == 0 ==>
      best.Some? && Badness(infos[best.value]) <= Badness(infos[ring[j]])
  }

  lemma {:induction false} ScanFrom(infos: seq<Info>, ring: seq<nat>, best: Option<nat>) returns (i: int)
    requires (forall j :: 0 <= j < |ring| ==> ring[j] < |infos|) && (best.Some? ==> best.value < |infos|)
    ensures -1 <= i < |ring|
    ensures i == -1 ==> Scan(infos, ring, best) == best && NoneBetter(infos, ring, best)
    ensures i >= 0 ==> Scan(infos, ring, best) == Some(ring[i]) && IsVictim(infos, ring, i)
    ensures i >= 0 && best.Some? ==> Badness(infos[ring[i]]) < Badness(infos[best.value])
  {
    if ring == [] {
      i := -1;
    } else {
      var x, rest := ring[0], ring[1..];
      var better := infos[x].count == 0 && (best.None? || Badness(infos[x]) < Badness(infos[best.value]));
      if better && Badness(infos[x]) == 0 {
        i := 0;
      } else {
        var k := ScanFrom(infos, rest, if better then Some(x) else best);
        i := if k >= 0 then k + 1 else if better then 0 else -1;
        assert forall j :: 0 < j < |ring| ==> ring[j] == rest[j - 1];
      }
    }
  }

  /** getblk finds nothing exactly when every buffer is in use; otherwise it takes, of the unused
      ones, the first of least badness. */
  lemma ScanFindsVictim(infos: seq<Info>, ring: seq<nat>)
    requires forall j :: 0 <= j < |ring| ==> ring[j] < |infos|
    ensures Scan(infos, ring, None).None? <==> forall j :: 0 <= j < |ring| ==> infos[ring[j]].count > 0
    ensures Scan(infos, ring, None).Some? ==>
              exists i :: 0 <= i < |ring| && Scan(infos, ring, None) == Some(ring[i]) && IsVictim(infos, ring, i)
  {
    var i := ScanFrom(infos, ring, None);
  }

  // ----- getblk -----

  /** A step changes a buffer's key only if the buffer is unused, unlocked and clean. */
  ghost predicate KeysHeld(s: Cache, s': Cache)
    requires Shape(s)
  {
    && Shape(s') && |s'.infos| == |s.infos|
    && (forall b: nat :: b < |s.infos| && s'.infos[b].key != s.infos[b].key ==>
          s.infos[b].count == 0 && s.users[b] == multiset{} && !s.infos[b].lock && !s.infos[b].dirty)
  }

  ghost predicate SameContents(s: Cache, s': Cache)
    requires Shape(s)
  {
    Shape(s') && forall k: Key :: k.dev != 0 ==> Content(s', k) == Content(s, k)
  }

  /** getblk has returned buffer b to task t: it carries the key, t is among its users, and it is
      not locked. */
  ghost predicate Returned(s: Cache, t: nat, k: Key)
    requires Shape(s)
  {
    exists b: nat :: b < |s.infos| && s.infos[b].key == k && t in s.users[b] && !s.infos[b].lock
  }

  ghost predicate GoodStep(s: Cache, s': Cache, t: nat, k: Key)
    requires Shape(s)
  {
    Inv(s') && KeysHeld(s, s') && SameContents(s, s') && (PcOf(s', t) == Idle ==> Returned(s', t, k))
  }

  lemma TryEvictKeeps(s: Cache, t: nat, k: Key, b: nat)
    requires Inv(s) && b < |s.infos| && k.dev != 0
    ensures GoodStep(s, TryEvict(s, t, k, b), t, k)
  {
    var i, s' := s.infos[b], TryEvict(s, t, k, b);
    if i.lock || i.count > 0 || i.dirty || Find(s.infos, k).Some? {
      MoveKeeps(s, t, PcOf(s', t));
    } else {
      assert BufOk(s, b);
      RekeyKeeps(s, t, b, k);
      var s1 := Rekey(s, t, b, k);
      MoveKeeps(s1, t, Idle);
      assert s'.infos[b].key == k && t in s'.users[b] && !s'.infos[b].lock;
    }
  }

  lemma AttemptKeeps(s: Cache, t: nat, k: Key)
    requires Inv(s) && k.dev != 0
    ensures GoodStep(s, Attempt(s, t, k), t, k)
  {
    match Find(s.infos, k)
    case Some(b) =>
      HoldKeeps(s, t, b);
      var s1 := Hold(s, t, b);
      MoveKeeps(s1, t, PcOf(Attempt(s, t, k), t));
      var s' := Attempt(s, t, k);
      assert s'.infos[b].key == k && t in s'.users[b];
    case None =>
      match Scan(s.infos, s.ring, None)
      case None => MoveKeeps(s, t, Begin(k));
      case Some(b) => TryEvictKeeps(s, t, k, b);
  }

  /** The wait in get_hash_table: the buffer found cannot have been taken away meanwhile, so the
      retry after the wait is never taken. */
  lemma HashDoneKeeps(s: Cache, t: nat, k: Key, b: nat)
    requires Inv(s) && PcOf(s, t) == HashWait(k, b)
    ensures b < |s.infos| && s.infos[b].count > 0 && s.infos[b].key == k
    ensures GoodStep(s, HashDone(s, t, k, b), t, k)
  {
    assert PcOk(s, t) && BufOk(s, b);
    if !s.infos[b].lock {
      MoveKeeps(s, t, Idle);
      var s' := HashDone(s, t, k, b);
      assert s'.infos[b].key == k && t in s'.users[b] && !s'.infos[b].lock;
    }
  }

  // ----- reading and writing -----

  /** A change to one buffer that keeps its key, its users and where the tasks are. */
  lemma BufferStep(s: Cache, s': Cache, b: nat)
    requires Inv(s) && OnlyAt(s, s', b) && s.infos[b].key.dev != 0
    requires s'.pcs == s.pcs && s'.users == s.users && s'.infos[b].count == s.infos[b].count
    requires BufOk(s', b)
    ensures Inv(s') && KeysHeld(s, s')
    ensures forall k: Key :: k.dev != 0 && k != s.infos[b].key ==> Content(s', k) == Content(s, k)
    ensures Content(s', s.infos[b].key) == if s'.infos[b].uptodate then s'.data[b] else OnDisk(s', s.infos[b].key)
  {
    forall u ensures PcOk(s', u) { assert PcOk(s, u); }
    LocalKeeps(s, s', b);
    ContentOf(s', b);
  }

  /** A lock, a place in the queue, or the end of a transfer: nobody's contents change. */
  lemma IoBuffer(s: Cache, s': Cache, b: nat)
    requires Inv(s) && OnlyAt(s, s', b) && s.infos[b].key.dev != 0
    requires s'.pcs == s.pcs && s'.users == s.users && s'.infos[b].count == s.infos[b].count
    requires BufOk(s', b)
    requires (if s'.infos[b].uptodate then s'.data[b] else OnDisk(s', s.infos[b].key))
          == (if s.infos[b].uptodate then s.data[b] else OnDisk(s, s.infos[b].key))
    ensures Inv(s') && KeysHeld(s, s') && SameContents(s, s')
  {
    ContentOf(s, b);
    BufferStep(s, s', b);
  }

  lemma IoKeeps(s: Cache, e: Event)
    requires Inv(s) && Enabled(s, e) && (e.LockFor? || e.Enqueue? || e.Complete?)
    ensures Inv(Step(s, e)) && KeysHeld(s, Step(s, e)) && SameContents(s, Step(s, e))
  {
    var s' := Step(s, e);
    assert BufOk(s, e.b);
    if s' != s { IoBuffer(s, s', e.b); }
  }

  lemma UserKeeps(s: Cache, e: Event)
    requires Inv(s) && Enabled(s, e) && (e.Modify? || e.Overwrite?)
    ensures Inv(Step(s, e)) && KeysHeld(s, Step(s, e))
    ensures forall k: Key :: k.dev != 0 ==> Content(Step(s, e), k) == if k == e.k then e.d else Content(s, k)
  {
    var b := e.b;
    assert BufOk(s, b);
    assert s.users[b] == s.users[b] - multiset{e.t} + multiset{e.t};
    BufferStep(s, Step(s, e), b);
  }

  lemma ForgetKeeps(s: Cache, e: Event)
    requires Inv(s) && Enabled(s, e) && e.Forget?
    ensures Inv(Step(s, e)) && KeysHeld(s, Step(s, e))
    ensures forall k: Key :: k.dev != 0 && k != e.k ==> Content(Step(s, e), k) == Content(s, k)
  {
    var b := e.b;
    assert BufOk(s, b);
    assert s.users[b] == s.users[b] - multiset{e.t} + multiset{e.t};
    var s1 := SetInfo(s, b, s.infos[b].(dirty := false, uptodate := false));
    BufferStep(s, s1, b);
    DropKeeps(s1, e.t, b);
  }

  /** What a step does to the contents of block k, unless it frees that block. */
  function Written(e: Event, k: Key, v: Data): Data {
    if (e.Modify? || e.Overwrite?) && e.k == k then e.d else v
  }

  predicate Forgets(e: Event, k: Key) { e.Forget? && e.k == k }

  ghost predicate Writes(s: Cache, s': Cache, e: Event)
    requires Shape(s)
  {
    && Shape(s')
    && (forall k: Key :: k.dev != 0 && !Forgets(e, k) ==> Content(s', k) == Written(e, k, Content(s, k)))
  }

  lemma RunKeeps(s: Cache, t: nat)
    requires Inv(s) && Enabled(s, Run(t))
    ensures GoodStep(s, Step(s, Run(t)), t, PcOf(s, t).key)
  {
    assert PcOk(s, t);
    match PcOf(s, t)
    case Begin(k) => AttemptKeeps(s, t, k);
    case HashWait(k, b) => HashDoneKeeps(s, t, k, b);
    case Evict(k, b) => TryEvictKeeps(s, t, k, b);
    case _ =>
  }

  /** A task that goes from one place in getblk to another without a change to the buffers. */
  lemma GoesOn(s: Cache, e: Event)
    requires Inv(s) && Enabled(s, e) && (e.Start? || e.SyncDone?)
    ensures Inv(Step(s, e)) && KeysHeld(s, Step(s, e)) && SameContents(s, Step(s, e))
  {
    match e
    case Start(t, k) => MoveKeeps(s, t, Begin(k));
    case SyncDone(t) =>
      assert PcOk(s, t);
      MoveKeeps(s, t, Evict(PcOf(s, t).key, PcOf(s, t).b));
  }

  lemma ReleaseKeeps(s: Cache, t: nat, b: nat)
    requires Inv(s) && Uses(s, t, b)
    ensures var s' := Step(s, Release(t, b)); Inv(s') && KeysHeld(s, s') && SameContents(s, s')
  {
    assert BufOk(s, b);
    DropKeeps(s, t, b);
  }

  /** The steps inside getblk. */
  lemma GetblkStep(s: Cache, e: Event)
    requires Inv(s) && Enabled(s, e) && (e.Start? || e.Run? || e.SyncDone?)
    ensures Inv(Step(s, e)) && KeysHeld(s, Step(s, e)) && Writes(s, Step(s, e), e)
  {
    if e.Run? { RunKeeps(s, e.t); } else { GoesOn(s, e); }
  }

  /** The steps of a task that has the buffer. */
  lemma UserStep(s: Cache, e: Event)
    requires Inv(s) && Enabled(s, e) && (e.Modify? || e.Overwrite? || e.Forget? || e.Release? || e.Observe?)
    ensures Inv(Step(s, e)) && KeysHeld(s, Step(s, e)) && Writes(s, Step(s, e), e)
  {
    match e
    case Forget(_, _, _) => ForgetKeeps(s, e);
    case Release(t, b) => ReleaseKeeps(s, t, b);
    case Observe(_, _, _, _) =>
    case _ => UserKeeps(s, e);
  }

  lemma IoStep(s: Cache, e: Event)
    requires Inv(s) && Enabled(s, e) && (e.LockFor? || e.Enqueue? || e.Complete?)
    ensures Inv(Step(s, e)) && KeysHeld(s, Step(s, e)) && Writes(s, Step(s, e), e)
  {
    IoKeeps(s, e);
  }

  lemma ObserveIsContent(s: Cache, e: Event)
    requires Inv(s) && Enabled(s, e) && e.Observe?
    ensures e.d == Content(s, e.k) && e.k.dev != 0
  {
    assert BufOk(s, e.b);
    assert s.users[e.b] == s.users[e.b] - multiset{e.t} + multiset{e.t};
    ContentOf(s, e.b);
  }

  /** Every step keeps the invariant, and changes the contents of a block only if it is a user's
      write to it. getblk returns an unlocked buffer that carries the key. */
  lemma StepKeeps(s: Cache, e: Event)
    requires Inv(s) && Enabled(s, e)
    ensures Inv(Step(s, e)) && KeysHeld(s, Step(s, e))
    ensures forall k: Key :: k.dev != 0 && !Forgets(e, k) ==> Content(Step(s, e), k) == Written(e, k, Content(s, k))
    ensures e.Run? && PcOf(Step(s, e), e.t) == Idle ==> Returned(Step(s, e), e.t, PcOf(s, e.t).key)
    ensures e.Observe? ==> e.d == Content(s, e.k) && e.k.dev != 0
  {
    if e.Start? || e.Run? || e.SyncDone? {
      GetblkStep(s, e);
      if e.Run? { RunKeeps(s, e.t); }
    } else if e.LockFor? || e.Enqueue? || e.Complete? {
      IoStep(s, e);
    } else {
      UserStep(s, e);
      if e.Observe? { ObserveIsContent(s, e); }
    }
  }

  // ----- runs -----

  ghost predicate Runs(s: Cache, es: seq<Event>)
    requires Shape(s)
    decreases |es|
  {
    es == [] || (RingOk(s) && Enabled(s, es[0]) && Shape(Step(s, es[0])) && Runs(Step(s, es[0]), es[1..]))
  }

  ghost function End(s: Cache, es: seq<Event>): Cache
    requires Shape(s) && Runs(s, es)
    decreases |es|
  {
    if es == [] then s else End(Step(s, es[0]), es[1..])
  }

  /** The contents a flat table of blocks would have for k: unknown once the block is freed, known
      again with the next write to it. */
  function LastWritten(es: seq<Event>, k: Key, v: Option<Data>): Option<Data> {
    if es == [] then v
    else
      var e := es[0];
      var now := if Forgets(e, k) then None else if (e.Modify? || e.Overwrite?) && e.k == k then Some(e.d) else v;
      LastWritten(es[1..], k, now)
  }

  /** Cache and disk hold v for block k, if v is known. */
  ghost predicate Holds(s: Cache, k: Key, v: Option<Data>)
    requires Shape(s)
  {
    v.Some? ==> Content(s, k) == v.value
  }

  /** Refinement: under any interleaving, with buffers recycled, synced and read again and blocks
      freed and reused at any time, cache and disk hold for every block what was last written. */
  lemma {:induction false} FlatTable(s: Cache, es: seq<Event>, k: Key, v: Option<Data>)
    requires Inv(s) && Runs(s, es) && k.dev != 0 && Holds(s, k, v)
    ensures Inv(End(s, es)) && Holds(End(s, es), k, LastWritten(es, k, v))
    decreases |es|
  {
    if es != [] {
      StepKeeps(s, es[0]);
      var e := es[0];
      var now := if Forgets(e, k) then None else if (e.Modify? || e.Overwrite?) && e.k == k then Some(e.d) else v;
      FlatTable(Step(s, e), es[1..], k, now);
    }
  }

  /** A task that reads a block through bread sees the last contents written to it. */
  lemma ReadsLastWritten(s: Cache, es: seq<Event>, t: nat, b: nat, k: Key, d: Data)
    requires Inv(s) && Runs(s, es) && k.dev != 0
    requires RingOk(End(s, es)) && Shape(End(s, es)) && Enabled(End(s, es), Observe(t, b, k, d))
    ensures var v := LastWritten(es, k, Some(Content(s, k))); v.Some? ==> d == v.value
  {
    FlatTable(s, es, k, Some(Content(s, k)));
    StepKeeps(End(s, es), Observe(t, b, k, d));
  }

  /** As long as a task uses a buffer, the buffer stays with its block. */
  lemma {:induction false} UsedBufferStays(s: Cache, es: seq<Event>, b: nat)
    requires Inv(s) && Runs(s, es) && b < |s.infos|
    requires forall n :: 0 <= n <= |es| ==> UsedAfter(s, es, n, b)
    ensures b < |End(s, es).infos| && End(s, es).infos[b].key == s.infos[b].key
    decreases |es|
  {
    if es != [] {
      var s1 := Step(s, es[0]);
      StepKeeps(s, es[0]);
      assert UsedAfter(s, es, 0, b);
      forall n | 0 <= n <= |es| - 1 ensures UsedAfter(s1, es[1..], n, b) {
        assert UsedAfter(s, es, n + 1, b);
        assert es[..n + 1][1..] == es[1..][..n];
      }
      UsedBufferStays(s1, es[1..], b);
    }
  }

  ghost predicate UsedAfter(s: Cache, es: seq<Event>, n: nat, b: nat)
    requires Shape(s)
  {
    n <= |es| && Runs(s, es[..n]) && Shape(End(s, es[..n])) && b < |s.infos| == |End(s, es[..n]).infos|
    && End(s, es[..n]).users[b] != multiset{}
  }

  /** The cache as buffer_init leaves it. */
  ghost predicate Initial(s: Cache) {
    && Shape(s) && s.pcs == map[]
    && s.ring == seq(|s.infos|, i => i)
    && (forall b :: 0 <= b < |s.infos| ==>
          && s.infos[b] == Info(Key(0, s.infos[b].key.block), false, false, 0, false)
          && s.io[b] == NoIo && s.users[b] == multiset{})
  }

  lemma InitialInv(s: Cache)
    requires Initial(s)
    ensures Inv(s)
    ensures forall k: Key :: k.dev != 0 ==> Content(s, k) == OnDisk(s, k)
  {
    forall b: nat | b < |s.infos| ensures b in s.ring { assert s.ring[b] == b; }
  }

  /** In every reachable state a block has at most one buffer. */
  lemma {:induction false} OneBufferPerBlock(s: Cache, es: seq<Event>, i: nat, j: nat)
    requires Inv(s) && Runs(s, es)
    requires var r := End(s, es);
             i < |r.infos| && j < |r.infos| && r.infos[i].key == r.infos[j].key && r.infos[i].key.dev != 0
    ensures i == j
    decreases |es|
  {
    if es == [] {
      assert Unique(s, i, j);
    } else {
      StepKeeps(s, es[0]);
      OneBufferPerBlock(Step(s, es[0]), es[1..], i, j);
    }
  }
}
