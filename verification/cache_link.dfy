/** The machine of the buffer cache and the linked lists of fs/buffer.c together: the lists change
    only as the code changes them, and stay well formed under any interleaving. */
module CacheLink {
  import opened CacheMachine
  import opened CacheProofs
  import CL = CacheLists
  type Lists = CL.Lists

  /** The heads carry the machine's buffers, the circular list is its free list, and the chains of
      the hash table are well formed. */
  ghost predicate Realises(l: Lists, chains: seq<seq<nat>>, s: Cache) {
    CL.ListsOk(l, s.ring, chains) && CL.InfosOf(l.h) == s.infos
  }

  ghost function WithInfos(l: Lists, infos: seq<Info>): (r: Lists)
    requires |infos| == |l.h|
    ensures |r.h| == |l.h| && forall i :: 0 <= i < |l.h| ==> r.h[i] == l.h[i].(info := infos[i])
  {
    l.(h := seq(|l.h|, i requires 0 <= i < |l.h| => l.h[i].(info := infos[i])))
  }

  /** The last lines of getblk, field by field and list by list. */
  ghost function Recycled(l: Lists, b: nat, k: Key): (r: Lists)
    requires b < |l.h| && |l.hash| == CL.NR_HASH
  {
    var i := l.h[b].info;
    var l1 := CL.Removed(l.(h := l.h[b := l.h[b].(info := Info(i.key, false, false, 1, i.lock))]), b);
    var l2 := l1.(h := l1.h[b := l1.h[b].(info := Info(k, false, false, 1, i.lock))]);
    if 0 <= l2.first < |l2.h| then CL.Inserted(l2, b) else l2
  }

  /** The buffer that the step gives to another block, and the block. */
  ghost function RekeyedBy(s: Cache, e: Event): Option<(nat, Key)>
    requires Shape(s) && RingOk(s) && Enabled(s, e)
  {
    if !e.Run? then None
    else match PcOf(s, e.t)
      case Begin(k) =>
        if Find(s.infos, k).Some? then None
        else (match Scan(s.infos, s.ring, None)
              case None => None
              case Some(b) => Evicted(s, k, b))
      case Evict(k, b) => Evicted(s, k, b)
      case _ => None
  }

  ghost function Evicted(s: Cache, k: Key, b: nat): Option<(nat, Key)>
    requires Shape(s) && b < |s.infos|
  {
    var i := s.infos[b];
    if i.lock || i.count > 0 || i.dirty || Find(s.infos, k).Some? then None else Some((b, k))
  }

  /** What a step does to heads, chains and free list. */
  ghost function ListsAfter(l: Lists, s: Cache, e: Event): (r: Lists)
    requires Inv(s) && Enabled(s, e) && |l.h| == |s.infos| && |l.hash| == CL.NR_HASH
  {
    match RekeyedBy(s, e)
    case Some(p) => if p.0 < |l.h| then Recycled(l, p.0, p.1) else l
    case None => if |Step(s, e).infos| == |l.h| then WithInfos(l, Step(s, e).infos) else l
  }

  lemma FieldsKept(l: Lists, chains: seq<seq<nat>>, s: Cache, s': Cache)
    requires Realises(l, chains, s) && RingHasAll(s) && |s'.infos| == |s.infos| > 0 && s'.ring == s.ring
    requires forall i :: 0 <= i < |s.infos| ==> s'.infos[i].key == s.infos[i].key
    ensures |l.h| == |s.infos| && Realises(WithInfos(l, s'.infos), chains, s')
  {
    var r := WithInfos(l, s'.infos);
    forall i | 0 <= i < |l.h| ensures r.h[i].info.key == l.h[i].info.key {
      assert CL.InfosOf(l.h)[i] == l.h[i].info;
    }
    CL.InfoKept(l, r, s.ring, chains, 0);
    assert CL.InfosOf(r.h) == s'.infos;
  }

  /** Removal, change of key and insertion keep every list, and make of them those of the machine's
      next state. */
  lemma RecycleKeeps(l: Lists, chains: seq<seq<nat>>, s: Cache, t: nat, b: nat, k: Key)
    returns (chains': seq<seq<nat>>)
    requires Realises(l, chains, s) && RingHasAll(s) && |s.infos| >= 2 && Shape(s) && b < |s.infos| && k.dev != 0
    ensures |l.h| == |s.infos| && |l.hash| == CL.NR_HASH
    ensures Realises(Recycled(l, b, k), chains', Rekey(s, t, b, k))
  {
    var i := l.h[b].info;
    assert CL.InfosOf(l.h)[b] == i;
    var l0 := l.(h := l.h[b := l.h[b].(info := Info(i.key, false, false, 1, i.lock))]);
    CL.InfoKept(l, l0, s.ring, chains, b);
    TwoOnRing(s);
    var chains1 := CL.RemoveKeeps(l0, s.ring, chains, b);
    var l1 := CL.Removed(l0, b);
    var l2 := l1.(h := l1.h[b := l1.h[b].(info := Info(k, false, false, 1, i.lock))]);
    CL.OutsideKept(l1, l2, Without(s.ring, b), chains1, b);
    CL.InsertKeyed(l2, Without(s.ring, b), chains1, b);
    chains' := CL.ChainsWith(chains1, k, b);
    forall x | 0 <= x < |s.infos| ensures Recycled(l, b, k).h[x].info == Rekey(s, t, b, k).infos[x] {
      assert CL.InfosOf(l.h)[x] == l.h[x].info;
      assert l1.h[x].info == l0.h[x].info;
      assert Recycled(l, b, k).h[x].info == l2.h[x].info;
    }
    assert CL.InfosOf(Recycled(l, b, k).h) == Rekey(s, t, b, k).infos;
  }

  lemma TwoOnRing(s: Cache)
    requires RingHasAll(s) && |s.infos| >= 2
    ensures |s.ring| >= 2
  {
    assert 0 in s.ring && 1 in s.ring;
    var i :| 0 <= i < |s.ring| && s.ring[i] == 0;
    var j :| 0 <= j < |s.ring| && s.ring[j] == 1;
  }

  lemma RunNotRekeyed(s: Cache, t: nat)
    requires Inv(s) && Enabled(s, Run(t)) && RekeyedBy(s, Run(t)).None?
    ensures var s' := Step(s, Run(t));
            && |s'.infos| == |s.infos| && s'.ring == s.ring
            && forall i :: 0 <= i < |s.infos| ==> s'.infos[i].key == s.infos[i].key
  {
    assert PcOk(s, t);
  }

  /** When no buffer changes hands, only fields of buffers change. */
  lemma NotRekeyed(s: Cache, e: Event)
    requires Inv(s) && Enabled(s, e) && RekeyedBy(s, e).None?
    ensures var s' := Step(s, e);
            && |s'.infos| == |s.infos| && s'.ring == s.ring
            && forall i :: 0 <= i < |s.infos| ==> s'.infos[i].key == s.infos[i].key
  {
    if e.Run? { RunNotRekeyed(s, e.t); }
  }

  lemma Rekeys(s: Cache, e: Event)
    requires Inv(s) && Enabled(s, e) && RekeyedBy(s, e).Some?
    ensures var (b, k) := RekeyedBy(s, e).value;
            && b < |s.infos| && k.dev != 0
            && Step(s, e).infos == Rekey(s, e.t, b, k).infos && Step(s, e).ring == Rekey(s, e.t, b, k).ring
  {
    assert PcOk(s, e.t);
  }

  /** Every step of a task, the disk or an interrupt leads from well-formed lists to well-formed
      lists of the next state. */
  lemma StepRealises(l: Lists, chains: seq<seq<nat>>, s: Cache, e: Event) returns (chains': seq<seq<nat>>)
    requires Realises(l, chains, s) && Inv(s) && Enabled(s, e) && |s.infos| >= 2
    ensures |l.h| == |s.infos| && |l.hash| == CL.NR_HASH && |Step(s, e).infos| == |s.infos|
    ensures Realises(ListsAfter(l, s, e), chains', Step(s, e))
  {
    StepKeeps(s, e);
    if RekeyedBy(s, e).Some? {
      Rekeys(s, e);
      var (b, k) := RekeyedBy(s, e).value;
      chains' := RecycleKeeps(l, chains, s, e.t, b, k);
    } else {
      NotRekeyed(s, e);
      FieldsKept(l, chains, s, Step(s, e));
      chains' := chains;
    }
  }

  /** The lists after a run. */
  ghost function ListsEnd(l: Lists, s: Cache, es: seq<Event>): Lists
    requires Inv(s) && Runs(s, es)
    decreases |es|
  {
    if es == [] || |l.h| != |s.infos| || |l.hash| != CL.NR_HASH then l
    else
      StepKeeps(s, es[0]);
      ListsEnd(ListsAfter(l, s, es[0]), Step(s, es[0]), es[1..])
  }

  /** Under any interleaving, hash chains and free list stay well-formed doubly linked lists of
      exactly the machine's buffers. */
  lemma {:induction false} ListsAlwaysOk(l: Lists, chains: seq<seq<nat>>, s: Cache, es: seq<Event>)
    returns (chains': seq<seq<nat>>)
    requires Realises(l, chains, s) && Inv(s) && Runs(s, es) && |s.infos| >= 2
    ensures Realises(ListsEnd(l, s, es), chains', End(s, es))
    decreases |es|
  {
    if es == [] {
      chains' := chains;
    } else {
      var chains1 := StepRealises(l, chains, s, es[0]);
      StepKeeps(s, es[0]);
      chains' := ListsAlwaysOk(ListsAfter(l, s, es[0]), chains1, Step(s, es[0]), es[1..]);
    }
  }

  /** What buffer_init builds is what the machine starts from. */
  lemma InitialRealises(l: Lists, s: Cache) returns (chains: seq<seq<nat>>)
    requires Initial(s) && CL.InfosOf(l.h) == s.infos && |l.h| >= 2 && |l.hash| == CL.NR_HASH && l.first == 0
    requires CL.FreshHeads(l.h) && forall n :: 0 <= n < CL.NR_HASH ==> l.hash[n] == CL.NULL
    ensures Realises(l, chains, s) && Inv(s)
  {
    chains := seq(CL.NR_HASH, _ => []);
    InitialInv(s);
    CL.FreshLists(l, s.ring, chains);
  }
}
