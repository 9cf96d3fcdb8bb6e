/** The buffer cache of fs/buffer.c as tasks see it: getblk with its sleeps, reads and writes that
    take time, and any interleaving of tasks, disk and interrupts. A step runs from one point
    where a task can sleep, or goes back to `repeat`, to the next. */
module CacheMachine {

  type Word = x: int | 0 <= x < 0x1_0000_0000

  datatype Key = Key(dev: Word, block: Word)
  type Data = seq<bv8>

  /** The fields of a buffer_head that decide what may happen to it; dev is 0 while it is unused. */
  datatype Info = Info(key: Key, uptodate: bool, dirty: bool, count: nat, lock: bool)

  /** Why a buffer is locked: its request has no slot yet, or is queued. */
  datatype Io = NoIo | WaitRead | WaitWrite | Reading | Writing

  /** Where a task is inside getblk(key). */
  datatype Pc =
    | Idle
    | Begin(key: Key)              // at `repeat`, or asleep on buffer_wait
    | HashWait(key: Key, b: nat)   // in get_hash_table, waiting for the buffer found
    | Evict(key: Key, b: nat)      // waiting for the buffer to be recycled
    | Syncing(key: Key, b: nat)    // in sync_dev for that buffer's device

  datatype Cache = Cache(
    infos: seq<Info>,
    data: seq<Data>,
    io: seq<Io>,
    users: seq<multiset<nat>>,     // the tasks behind each b_count
    ring: seq<nat>,                // the free list from free_list on
    pcs: map<nat, Pc>,
    disk: map<Key, Data>)

  predicate Shape(s: Cache) {
    |s.infos| == |s.data| == |s.io| == |s.users|
  }

  function OnDisk(s: Cache, k: Key): Data {
    if k in s.disk then s.disk[k] else []
  }

  function PcOf(s: Cache, t: nat): Pc {
    if t in s.pcs then s.pcs[t] else Idle
  }

  // ----- what the code looks up -----

  datatype Option<T> = None | Some(value: T)

  /** find_buffer: the buffer that carries the key. */
  function Find(infos: seq<Info>, k: Key): (r: Option<nat>)
    ensures r.Some? ==> r.value < |infos| && infos[r.value].key == k
    ensures r.None? ==> forall i :: 0 <= i < |infos| ==> infos[i].key != k
  {
    if infos == [] then None
    else if infos[|infos| - 1].key == k then Some(|infos| - 1)
    else Find(infos[..|infos| - 1], k)
  }

  /** BADNESS */
  function Badness(i: Info): nat {
    (if i.dirty then 2 else 0) + (if i.lock then 1 else 0)
  }

  /** getblk's walk along the free list, `best` being the choice so far. */
  function Scan(infos: seq<Info>, ring: seq<nat>, best: Option<nat>): (r: Option<nat>)
    requires forall i :: 0 <= i < |ring| ==> ring[i] < |infos|
    requires best.Some? ==> best.value < |infos|
    ensures r.Some? ==> r.value < |infos|
  {
    if ring == [] then best
    else if infos[ring[0]].count > 0 then Scan(infos, ring[1..], best)
    else if best.None? || Badness(infos[ring[0]]) < Badness(infos[best.value]) then
      if Badness(infos[ring[0]]) == 0 then Some(ring[0]) else Scan(infos, ring[1..], Some(ring[0]))
    else Scan(infos, ring[1..], best)
  }

  // ----- steps -----

  function SetInfo(s: Cache, b: nat, i: Info): Cache
    requires b < |s.infos|
  {
    s.(infos := s.infos[b := i])
  }

  function At(s: Cache, t: nat, pc: Pc): Cache {
    s.(pcs := s.pcs[t := pc])
  }

  function Hold(s: Cache, t: nat, b: nat): Cache
    requires Shape(s) && b < |s.infos|
  {
    s.(infos := s.infos[b := s.infos[b].(count := s.infos[b].count + 1)],
       users := s.users[b := s.users[b] + multiset{t}])
  }

  function Drop(s: Cache, t: nat, b: nat): Cache
    requires Shape(s) && b < |s.infos| && s.infos[b].count > 0
  {
    s.(infos := s.infos[b := s.infos[b].(count := s.infos[b].count - 1)],
       users := s.users[b := s.users[b] - multiset{t}])
  }

  function Without(ring: seq<nat>, b: nat): seq<nat> {
    if ring == [] then [] else if ring[0] == b then ring[1..] else [ring[0]] + Without(ring[1..], b)
  }

  /** The last lines of getblk: the buffer changes hands. */
  function Rekey(s: Cache, t: nat, b: nat, k: Key): Cache
    requires Shape(s) && b < |s.infos|
  {
    s.(infos := s.infos[b := Info(k, false, false, 1, s.infos[b].lock)],
       users := s.users[b := multiset{t}],
       ring := Without(s.ring, b) + [b])
  }

  /** getblk from `wait_on_buffer(bh)` on, once the task runs. */
  function TryEvict(s: Cache, t: nat, k: Key, b: nat): Cache
    requires Shape(s) && b < |s.infos|
  {
    var i := s.infos[b];
    if i.lock then At(s, t, Evict(k, b))
    else if i.count > 0 then At(s, t, Begin(k))
    else if i.dirty then At(s, t, Syncing(k, b))
    else if Find(s.infos, k).Some? then At(s, t, Begin(k))
    else At(Rekey(s, t, b, k), t, Idle)
  }

  predicate RingOk(s: Cache) {
    forall i :: 0 <= i < |s.ring| ==> s.ring[i] < |s.infos|
  }

  /** getblk from `repeat` on. */
  function Attempt(s: Cache, t: nat, k: Key): Cache
    requires Shape(s) && RingOk(s)
  {
    match Find(s.infos, k)
    case Some(b) => At(Hold(s, t, b), t, if s.infos[b].lock then HashWait(k, b) else Idle)
    case None =>
      match Scan(s.infos, s.ring, None)
      case None => At(s, t, Begin(k))
      case Some(b) => TryEvict(s, t, k, b)
  }

  /** get_hash_table when its wait is over. */
  function HashDone(s: Cache, t: nat, k: Key, b: nat): Cache
    requires Shape(s) && b < |s.infos| && s.infos[b].count > 0
  {
    if s.infos[b].lock then s
    else if s.infos[b].key == k then At(s, t, Idle)
    else At(Drop(s, t, b), t, Begin(k))
  }

  datatype Event =
    | Start(t: nat, k: Key)                         // a task calls getblk
    | Run(t: nat)                                   // it runs to its next sleep
    | SyncDone(t: nat)                              // sync_dev returns
    | LockFor(b: nat, write: bool)                  // ll_rw_block: make_request takes the lock
    | Enqueue(b: nat)                               // add_request
    | Complete(b: nat, junk: Data)                  // end_request(1)
    | Modify(t: nat, b: nat, k: Key, d: Data)       // a user changes an uptodate buffer
    | Overwrite(t: nat, b: nat, k: Key, d: Data)    // new_block: contents and b_uptodate set
    | Forget(t: nat, b: nat, k: Key)                // free_block: the contents no longer matter
    | Release(t: nat, b: nat)                       // brelse
    | Observe(t: nat, b: nat, k: Key, d: Data)      // a user reads what bread gave it

  ghost predicate Uses(s: Cache, t: nat, b: nat)
    requires Shape(s)
  {
    b < |s.infos| && t in s.users[b] && PcOf(s, t) == Idle
  }

  ghost predicate Enabled(s: Cache, e: Event)
    requires Shape(s) && RingOk(s)
  {
    match e
    case Start(t, k) => PcOf(s, t) == Idle && k.dev != 0
    case Run(t) =>
      (match PcOf(s, t)
       case Begin(_) => true
       case HashWait(_, b) => b < |s.infos| && s.infos[b].count > 0
       case Evict(_, b) => b < |s.infos|
       case _ => false)
    case SyncDone(t) => PcOf(s, t).Syncing? && PcOf(s, t).b < |s.infos|
    case LockFor(b, write) => b < |s.infos| && !s.infos[b].lock && s.infos[b].key.dev != 0
    case Enqueue(b) => b < |s.infos| && (s.io[b] == WaitRead || s.io[b] == WaitWrite)
    case Complete(b, _) => b < |s.infos| && (s.io[b] == Reading || s.io[b] == Writing)
    case Modify(t, b, k, _) => Uses(s, t, b) && s.infos[b].key == k && s.infos[b].uptodate
    case Overwrite(t, b, k, _) => Uses(s, t, b) && s.infos[b].key == k && !s.infos[b].lock
    case Forget(t, b, k) =>
      Uses(s, t, b) && s.infos[b].key == k && s.infos[b].count == 1 && !s.infos[b].lock
    case Release(t, b) => Uses(s, t, b)
    case Observe(t, b, k, d) =>
      Uses(s, t, b) && s.infos[b].key == k && s.infos[b].uptodate && d == s.data[b]
  }

  /** make_request: nothing to do for a clean buffer's write or an uptodate buffer's read. */
  function Locked(s: Cache, b: nat, write: bool): Cache
    requires Shape(s) && b < |s.infos|
  {
    var i := s.infos[b];
    if (write && !i.dirty) || (!write && i.uptodate) then s
    else s.(infos := s.infos[b := i.(lock := true)], io := s.io[b := if write then WaitWrite else WaitRead])
  }

  /** end_request(1): the disk has what it was given, and the buffer what the disk gave it. A
      buffer dirtied again while its write was under way may have reached the disk in any state. */
  function Completed(s: Cache, b: nat, junk: Data): Cache
    requires Shape(s) && b < |s.infos|
  {
    var i := s.infos[b];
    var done := i.(uptodate := true, lock := false);
    if s.io[b] == Reading then
      s.(infos := s.infos[b := done], io := s.io[b := NoIo], data := s.data[b := OnDisk(s, i.key)])
    else
      s.(infos := s.infos[b := done], io := s.io[b := NoIo],
         disk := s.disk[i.key := if i.dirty then junk else s.data[b]])
  }

  ghost function Step(s: Cache, e: Event): Cache
    requires Shape(s) && RingOk(s) && Enabled(s, e)
  {
    match e
    case Start(t, k) => At(s, t, Begin(k))
    case Run(t) =>
      (match PcOf(s, t)
       case Begin(k) => Attempt(s, t, k)
       case HashWait(k, b) => HashDone(s, t, k, b)
       case Evict(k, b) => TryEvict(s, t, k, b)
       case _ => s)
    case SyncDone(t) => At(s, t, Evict(PcOf(s, t).key, PcOf(s, t).b))
    case LockFor(b, write) => Locked(s, b, write)
    case Enqueue(b) =>
      s.(infos := s.infos[b := s.infos[b].(dirty := false)],
         io := s.io[b := if s.io[b] == WaitRead then Reading else Writing])
    case Complete(b, junk) => Completed(s, b, junk)
    case Modify(t, b, _, d) =>
      s.(infos := s.infos[b := s.infos[b].(dirty := true)], data := s.data[b := d])
    case Overwrite(t, b, _, d) =>
      s.(infos := s.infos[b := s.infos[b].(dirty := true, uptodate := true)], data := s.data[b := d])
    case Forget(t, b, _) =>
      Drop(SetInfo(s, b, s.infos[b].(dirty := false, uptodate := false)), t, b)
    case Release(t, b) =>
      if s.infos[b].count > 0 then Drop(s, t, b) else s
    case Observe(_, _, _, _) => s
  }

  // ----- the invariant -----

  ghost predicate Unique(s: Cache, i: nat, j: nat) {
    i < |s.infos| && j < |s.infos| && s.infos[i].key == s.infos[j].key && s.infos[i].key.dev != 0 ==> i == j
  }

  ghost predicate BufOk(s: Cache, b: nat)
    requires Shape(s) && b < |s.infos|
  {
    var i := s.infos[b];
    && i.count == |s.users[b]|
    && (i.lock <==> s.io[b] != NoIo)
    && (i.dirty ==> i.uptodate)
    && (s.io[b] == Reading || s.io[b] == WaitRead ==> !i.uptodate)
    && (s.io[b] == Writing || s.io[b] == WaitWrite ==> i.uptodate)
    && (i.uptodate && !i.dirty && s.io[b] != Writing ==> s.data[b] == OnDisk(s, i.key))
    && (i.key.dev == 0 ==> !i.uptodate && !i.lock && i.count == 0)
  }

  ghost predicate PcOk(s: Cache, t: nat)
    requires Shape(s)
  {
    match PcOf(s, t)
    case Idle => true
    case Begin(k) => k.dev != 0
    case HashWait(k, b) => k.dev != 0 && b < |s.infos| && t in s.users[b] && s.infos[b].key == k
    case Evict(k, b) => k.dev != 0 && b < |s.infos|
    case Syncing(k, b) => k.dev != 0 && b < |s.infos|
  }

  /** The free list holds every buffer once. */
  ghost predicate RingHasAll(s: Cache) {
    && RingOk(s)
    && (forall i, j :: 0 <= i < j < |s.ring| ==> s.ring[i] != s.ring[j])
    && (forall b: nat :: b < |s.infos| ==> b in s.ring)
  }

  ghost predicate Inv(s: Cache) {
    && Shape(s)
    && RingHasAll(s)
    && (forall i, j :: Unique(s, i, j))
    && (forall b: nat :: b < |s.infos| ==> BufOk(s, b))
    && (forall t :: PcOk(s, t))
  }

  /** What cache and disk together hold for a block. */
  function Content(s: Cache, k: Key): Data
    requires Shape(s)
  {
    match Find(s.infos, k)
    case None => OnDisk(s, k)
    case Some(b) => if s.infos[b].uptodate then s.data[b] else OnDisk(s, k)
  }

  lemma ContentOf(s: Cache, b: nat)
    requires Inv(s) && b < |s.infos| && s.infos[b].key.dev != 0
    ensures Content(s, s.infos[b].key) == if s.infos[b].uptodate then s.data[b] else OnDisk(s, s.infos[b].key)
  {
    var f := Find(s.infos, s.infos[b].key);
    assert Unique(s, f.value, b);
  }
}
