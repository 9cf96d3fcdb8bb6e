/** malloc and free_s (lib/malloc.c) in their own form, over the pages they cut up. */
module Malloc {
  import opened Buckets

  /** The blocks in use, each with the number of its class. */
  ghost function BlocksOf(h: Heap, g: Shadow): iset<(nat, nat)>
    requires Shape(h, g)
  {
    iset d: nat, a: nat | Live(h, g, d, a) :: (a, g.where[d])
  }

  ghost predicate IsBlock(h: Heap, g: Shadow, a: nat, b: nat)
    requires Shape(h, g)
  {
    exists d: nat :: Live(h, g, d, a) && g.where[d] == b
  }

  lemma BlockIff(h: Heap, g: Shadow, a: nat, b: nat)
    requires Shape(h, g)
    ensures (a, b) in BlocksOf(h, g) <==> IsBlock(h, g, a, b)
  {
  }

  lemma SameBlocks(h: Heap, g: Shadow, r: Heap, k: Shadow)
    requires Shape(h, g) && Shape(r, k)
    requires forall d: nat, a: nat :: Live(r, k, d, a) <==> Live(h, g, d, a)
    requires forall d: nat, a: nat :: Live(h, g, d, a) && Live(r, k, d, a) ==> k.where[d] == g.where[d]
    ensures BlocksOf(r, k) == BlocksOf(h, g)
  {
    forall a: nat, b: nat ensures (a, b) in BlocksOf(r, k) <==> (a, b) in BlocksOf(h, g) {
      BlockIff(h, g, a, b);
      BlockIff(r, k, a, b);
    }
  }

  /** Where a walk along list b stands after i steps. */
  ghost predicate Standing(h: Heap, g: Shadow, b: nat, i: nat, prev: nat, d: nat)
    requires Shape(h, g) && b < 10
  {
    && i <= |g.lists[b]| && prev == (if i == 0 then 0 else g.lists[b][i - 1])
    && (if i == |g.lists[b]| then d == 0 else d == g.lists[b][i] && IsDesc(h, d) && g.where[d] == b)
  }

  lemma WalkStarts(h: Heap, g: Shadow, b: nat)
    requires Inv(h, g) && b < 10
    ensures Standing(h, g, b, 0, 0, h.heads[b])
  {
    assert ListOk(h, g, b);
    if g.lists[b] != [] { ListEntry(h, g, b, 0); }
  }

  lemma WalkGoesOn(h: Heap, g: Shadow, b: nat, i: nat, prev: nat, d: nat)
    requires Inv(h, g) && b < 10 && Standing(h, g, b, i, prev, d) && d != 0
    ensures Standing(h, g, b, i + 1, d, h.desc[d].next)
  {
    ListEntry(h, g, b, i);
    if i + 1 < |g.lists[b]| { ListEntry(h, g, b, i + 1); }
  }

  lemma FreeHead(h: Heap, g: Shadow, d: nat)
    requires Inv(h, g) && IsBucket(h, g, d)
    ensures h.desc[d].freeptr == 0 <==> g.free[d] == []
    ensures d in g.lists[g.where[d]] && h.desc[d].size == SizeOf(g.where[d]) && h.desc[d].refcnt == |g.used[d]|
  {
    assert BucketOk(h, g, d);
    if g.free[d] != [] { assert Threaded(h.mem, g.free[d], 0); }
  }

  /** The words of every block in use but the one at `but`. */
  ghost predicate ContentsKept(h: Heap, g: Shadow, mem: seq<nat>, but: nat)
    requires Shape(h, g)
  {
    |mem| == |h.mem| && forall d: nat, a: nat, x: nat :: Live(h, g, d, a) && a != but ==> WordIn(h, g, mem, d, a, x)
  }

  ghost predicate WordIn(h: Heap, g: Shadow, mem: seq<nat>, d: nat, a: nat, x: nat)
    requires Shape(h, g) && Live(h, g, d, a)
  {
    a <= x < a + SizeOf(g.where[d]) && x < |h.mem| && x < |mem| ==> mem[x] == h.mem[x]
  }

  /** The class of a request: the smallest that fits, 9 when there is none. */
  ghost predicate Fits(len: nat, b: nat) {
    b <= CLASSES && (b < CLASSES ==> len <= SizeOf(b)) && (b > 0 ==> SizeOf(b - 1) < len)
  }

  /** The class is the power of two that holds the request and wastes the least: less than half of a
      block, or the block is one of the smallest. */
  lemma ClassWastes(len: nat, b: nat)
    requires Fits(len, b) && b < CLASSES
    ensures SizeOf(b) in {16, 32, 64, 128, 256, 512, 1024, 2048, 4096}
    ensures len <= SizeOf(b) && (SizeOf(b) > 16 ==> SizeOf(b) < 2 * len)
  {
    if b > 0 { assert SizeOf(b) == 2 * SizeOf(b - 1); }
  }

  lemma FitsOnce(len: nat, b: nat)
    requires Fits(len, b) && b < CLASSES
    ensures forall c: nat :: c < CLASSES && Fits(len, c) ==> c == b
  {
    forall c: nat | c < CLASSES && Fits(len, c) ensures c == b {
      if b < c { SizesGrow(b, c); } else if c < b { SizesGrow(c, b); }
    }
  }

  lemma SizesGrow(b: nat, c: nat)
    requires b < c < CLASSES
    ensures SizeOf(b) <= SizeOf(c - 1)
  {
  }

  /** The same descriptors are buckets. */
  ghost predicate SameBuckets(h: Heap, g: Shadow, h1: Heap, g1: Shadow)
    requires Shape(h, g) && Shape(h1, g1)
  {
    forall d: nat :: IsBucket(h1, g1, d) <==> IsBucket(h, g, d)
  }

  lemma SameContents(h: Heap, g: Shadow, h1: Heap, g1: Shadow, mem: seq<nat>, but: nat)
    requires Shape(h, g) && Shape(h1, g1) && h1.mem == h.mem && ContentsKept(h1, g1, mem, but)
    requires forall d: nat, a: nat :: Live(h1, g1, d, a) <==> Live(h, g, d, a)
    requires forall d: nat, a: nat :: Live(h1, g1, d, a) && Live(h, g, d, a) ==> g1.where[d] == g.where[d]
    ensures ContentsKept(h, g, mem, but)
  {
    forall d: nat, a: nat, x: nat | Live(h, g, d, a) && a != but ensures WordIn(h, g, mem, d, a, x) {
      assert Live(h1, g1, d, a);
      assert WordIn(h1, g1, mem, d, a, x);
    }
  }

  lemma OnlyPage(h: Heap, g: Shadow, d: nat)
    requires Inv(h, g) && IsBucket(h, g, d)
    ensures h.desc[d].page > 0 && forall e: nat :: IsBucket(h, g, e) && h.desc[e].page == h.desc[d].page ==> e == d
  {
    assert BucketOk(h, g, d);
    forall e: nat | IsBucket(h, g, e) && h.desc[e].page == h.desc[d].page ensures e == d { assert OwnPage(h, g, d, e); }
  }

  /** Bucket d has the page of obj, and is of a class that free_s looks at. */
  ghost predicate Candidate(h: Heap, g: Shadow, d: nat, obj: nat, size: nat)
    requires Shape(h, g)
  {
    IsBucket(h, g, d) && h.desc[d].page == obj - obj % PAGE && size <= SizeOf(g.where[d])
  }

  /** Some bucket of class b has a free slot. */
  ghost predicate HasFree(h: Heap, g: Shadow, b: nat)
    requires Shape(h, g)
  {
    exists d: nat :: IsBucket(h, g, d) && g.where[d] == b && g.free[d] != []
  }

  lemma TakeBlocks(h: Heap, g: Shadow, d: nat)
    requires Inv(h, g) && IsBucket(h, g, d) && h.desc[d].freeptr != 0
    ensures g.free[d] != [] && h.desc[d].freeptr == g.free[d][0] < |h.mem|
    ensures BlocksOf(Taken(h, d), TakenShadow(g, d)) == BlocksOf(h, g) + iset{(h.desc[d].freeptr, g.where[d])}
    ensures forall b: nat :: (h.desc[d].freeptr, b) !in BlocksOf(h, g)
    ensures NoneEmptyBut(h, g, d) ==> NoneEmpty(Taken(h, d), TakenShadow(g, d))
  {
    TakeKeeps(h, g, d);
    var r, k, p := Taken(h, d), TakenShadow(g, d), h.desc[d].freeptr;
    forall e: nat, a: nat ensures Live(r, k, e, a) <==> Live(h, g, e, a) || (e == d && a == p) {}
    forall a: nat, b: nat ensures (a, b) in BlocksOf(r, k) <==>
        (a, b) in BlocksOf(h, g) || (a == p && b == g.where[d]) {
      BlockIff(h, g, a, b);
      BlockIff(r, k, a, b);
      if IsBlock(h, g, a, b) {
        var e: nat :| Live(h, g, e, a) && g.where[e] == b;
        assert Live(r, k, e, a) && k.where[e] == b;
      }
      if a == p && b == g.where[d] { assert Live(r, k, d, p); }
    }
  }

  ghost predicate NoneEmptyBut(h: Heap, g: Shadow, but: nat)
    requires Shape(h, g)
  {
    forall d: nat :: IsBucket(h, g, d) && d != but ==> h.desc[d].refcnt > 0
  }

  lemma NewBucketKeepsContents(h: Heap, g: Shadow, b: nat, page: nat)
    requires Inv(h, g) && b < CLASSES && FreshPage(h, g, page) && h.heads[FREE] != 0
    ensures h.heads[FREE] < |h.desc| && ContentsKept(h, g, NewBucket(h, b, page).mem, 0)
  {
    NewBucketKeeps(h, g, b, page);
    NewPageOk(h.mem, page, b);
    var mem := NewBucket(h, b, page).mem;
    forall d: nat, a: nat, x: nat | Live(h, g, d, a) ensures WordIn(h, g, mem, d, a, x) {
      SlotInPage(h, g, d, a);
      if a <= x < a + SizeOf(g.where[d]) { Elsewhere(h.desc[d].page, page, x); }
    }
  }

  lemma GiveBlocks(h: Heap, g: Shadow, d: nat, p: nat)
    requires Inv(h, g) && Live(h, g, d, p)
    ensures h.desc[d].refcnt > 0 && p < |h.mem|
    ensures var r, k := Given(h, d, p), GivenShadow(g, d, p);
            && BlocksOf(r, k) == BlocksOf(h, g) - iset{(p, g.where[d])}
            && ContentsKept(h, g, r.mem, p)
            && (NoneEmpty(h, g) ==> NoneEmptyBut(r, k, d))
  {
    GiveKeeps(h, g, d, p);
    var r, k := Given(h, d, p), GivenShadow(g, d, p);
    forall e: nat, a: nat ensures Live(r, k, e, a) <==> Live(h, g, e, a) && a != p {
      if Live(h, g, e, a) && a == p && e != d { SlotsDisjoint(h, g, d, p, e, a); Exact(g.where[d]); Exact(g.where[e]); }
    }
    forall a: nat, b: nat ensures (a, b) in BlocksOf(r, k) <==> (a, b) in BlocksOf(h, g) && a != p {
      BlockIff(h, g, a, b);
      BlockIff(r, k, a, b);
      if IsBlock(h, g, a, b) && a != p {
        var e: nat :| Live(h, g, e, a) && g.where[e] == b;
        assert Live(r, k, e, a) && k.where[e] == b;
      }
    }
    forall b: nat | (p, b) in BlocksOf(h, g) ensures b == g.where[d] {
      BlockIff(h, g, p, b);
      var e: nat :| Live(h, g, e, p) && g.where[e] == b;
      if e != d { SlotsDisjoint(h, g, d, p, e, p); Exact(g.where[d]); Exact(g.where[e]); }
    }
    forall e: nat, a: nat, x: nat | Live(h, g, e, a) && a != p ensures WordIn(h, g, r.mem, e, a, x) {
      SlotsDisjoint(h, g, d, p, e, a);
      Exact(g.where[d]);
    }
  }

  // ----- any run of malloc, free_s and stores -----

  datatype St = St(h: Heap, g: Shadow)

  datatype Op = Alloc(len: nat, r: nat) | Free(obj: nat) | Store(x: nat, v: nat)

  /** What the contracts of malloc and free_s promise, and what users may do. */
  ghost predicate Step(s: St, op: Op, t: St) {
    && Inv(s.h, s.g) && Inv(t.h, t.g)
    && var before, after := BlocksOf(s.h, s.g), BlocksOf(t.h, t.g);
    match op
    case Alloc(len, r) =>
      && (exists b: nat :: b < CLASSES && Fits(len, b) && after == before + iset{(r, b)})
      && (forall b: nat :: (r, b) !in before) && ContentsKept(s.h, s.g, t.h.mem, 0)
    case Free(obj) =>
      && (exists b: nat :: (obj, b) in before && after == before - iset{(obj, b)})
      && ContentsKept(s.h, s.g, t.h.mem, obj)
    case Store(x, v) => after == before && x < |s.h.mem| && t.h.mem == s.h.mem[x := v]
  }

  ghost predicate StepAt(states: seq<St>, ops: seq<Op>, k: nat)
    requires k < |ops| && |states| == |ops| + 1
  {
    Step(states[k], ops[k], states[k + 1])
  }

  ghost predicate Run(states: seq<St>, ops: seq<Op>) {
    |states| == |ops| + 1 && forall k :: 0 <= k < |ops| ==> StepAt(states, ops, k)
  }

  ghost predicate HeldAt(states: seq<St>, k: nat, a: nat, b: nat)
    requires k < |states|
  {
    Inv(states[k].h, states[k].g) && (a, b) in BlocksOf(states[k].h, states[k].g)
  }

  /** A block that stays allocated keeps every word its owner does not store to, whatever else is
      allocated, freed and stored meanwhile. */
  lemma {:induction false} BlockIsPrivate(states: seq<St>, ops: seq<Op>, k: nat, a: nat, b: nat, x: nat)
    requires Run(states, ops) && k <= |ops| && b < CLASSES && a <= x < a + SizeOf(b)
    requires forall j :: 0 <= j <= k ==> HeldAt(states, j, a, b)
    requires forall j :: 0 <= j < k && ops[j].Store? ==> ops[j].x != x
    ensures x < |states[0].h.mem| && x < |states[k].h.mem| && states[k].h.mem[x] == states[0].h.mem[x]
  {
    assert HeldAt(states, k, a, b);
    InMemory(states[k].h, states[k].g, a, b, x);
    if k > 0 {
      BlockIsPrivate(states, ops, k - 1, a, b, x);
      assert StepAt(states, ops, k - 1) && HeldAt(states, k - 1, a, b);
      OneStepPrivate(states[k - 1], ops[k - 1], states[k], a, b, x);
    }
  }

  lemma InMemory(h: Heap, g: Shadow, a: nat, b: nat, x: nat)
    requires Inv(h, g) && (a, b) in BlocksOf(h, g) && b < CLASSES && a <= x < a + SizeOf(b)
    ensures x < |h.mem| && a > 0
  {
    BlockIff(h, g, a, b);
    var d: nat :| Live(h, g, d, a) && g.where[d] == b;
    SlotInPage(h, g, d, a);
  }

  lemma OneStepPrivate(s: St, op: Op, t: St, a: nat, b: nat, x: nat)
    requires Step(s, op, t) && b < CLASSES && a <= x < a + SizeOf(b)
    requires (a, b) in BlocksOf(s.h, s.g) && (a, b) in BlocksOf(t.h, t.g) && (op.Store? ==> op.x != x)
    ensures x < |s.h.mem| && x < |t.h.mem| && t.h.mem[x] == s.h.mem[x]
  {
    InMemory(s.h, s.g, a, b, x);
    InMemory(t.h, t.g, a, b, x);
    BlockIff(s.h, s.g, a, b);
    var d: nat :| Live(s.h, s.g, d, a) && s.g.where[d] == b;
    match op
    case Alloc(_, _) => assert WordIn(s.h, s.g, t.h.mem, d, a, x);
    case Store(_, _) =>
    case Free(obj) =>
      if obj == a {
        var b1: nat :| (obj, b1) in BlocksOf(s.h, s.g) && BlocksOf(t.h, t.g) == BlocksOf(s.h, s.g) - iset{(obj, b1)};
        OneClass(s.h, s.g, a, b, b1);
      }
      assert WordIn(s.h, s.g, t.h.mem, d, a, x);
  }

  lemma OneClass(h: Heap, g: Shadow, a: nat, b: nat, c: nat)
    requires Inv(h, g) && (a, b) in BlocksOf(h, g) && (a, c) in BlocksOf(h, g)
    ensures b == c
  {
    BlockIff(h, g, a, b);
    BlockIff(h, g, a, c);
    var d: nat :| Live(h, g, d, a) && g.where[d] == b;
    var e: nat :| Live(h, g, e, a) && g.where[e] == c;
    SlotsDisjoint(h, g, d, a, e, a);
    Exact(b);
    Exact(c);
  }

  class Allocator {
    const mem: array<nat>
    const heads: array<nat>
    var desc: seq<Desc>
    ghost var g: Shadow

    ghost function H(): Heap
      reads this, mem, heads
    {
      Heap(mem[..], desc, heads[..])
    }

    ghost predicate Valid()
      reads this, mem, heads
    {
      mem != heads && Inv(H(), g) && NoneEmpty(H(), g)
    }

    ghost function Blocks(): iset<(nat, nat)>
      requires Shape(H(), g)
      reads this, mem, heads
    {
      BlocksOf(H(), g)
    }

    /** The first loop of malloc. */
    method ClassFor(len: nat) returns (b: nat)
      ensures Fits(len, b)
    {
      b := 0;
      while b < CLASSES && SizeOf(b) < len
        invariant b <= CLASSES && (b > 0 ==> SizeOf(b - 1) < len)
      {
        b := b + 1;
      }
    }

    /** The first bucket of the chain with a free slot; 0 when there is none. */
    method FindFree(b: nat) returns (d: nat)
      requires Valid() && b < CLASSES
      ensures d != 0 ==> IsBucket(H(), g, d) && g.where[d] == b && desc[d].freeptr != 0
      ensures d == 0 <==> !HasFree(H(), g, b)
    {
      WalkStarts(H(), g, b);
      d := heads[b];
      ghost var i, prev := 0, 0;
      while d != 0
        invariant Standing(H(), g, b, i, prev, d)
        invariant forall j :: 0 <= j < i ==> g.lists[b][j] < |desc| && desc[g.lists[b][j]].freeptr == 0
        decreases |g.lists[b]| - i
      {
        if desc[d].freeptr != 0 {
          FreeHead(H(), g, d);
          return;
        }
        WalkGoesOn(H(), g, b, i, prev, d);
        i, prev, d := i + 1, d, desc[d].next;
      }
      forall e: nat | IsBucket(H(), g, e) && g.where[e] == b ensures g.free[e] == [] { FreeHead(H(), g, e); }
    }

    method InitBucketDesc()
      requires mem != heads && Inv(H(), g)
      modifies this, heads
      ensures H() == AddDescs(old(H())) && g == AddShadow(old(g), old(|desc|))
    {
      ghost var h := H();
      var n := |desc|;
      var more := [];
      var i := 0;
      while i < 256
        invariant i <= 256 && |more| == i && desc == h.desc && heads[..] == h.heads && g == old(g)
        invariant forall k :: 0 <= k < i ==> more[k] == Desc(0, if k < 255 then n + k + 1 else h.heads[FREE], 0, 0, 0)
      {
        more := more + [Desc(0, if i < 255 then n + i + 1 else heads[FREE], 0, 0, 0)];
        i := i + 1;
      }
      desc := desc + more;
      heads[FREE] := n;
      g := AddShadow(g, n);
      assert desc == AddDescs(h).desc;
      assert heads[..] == AddDescs(h).heads;
    }

    /** The loop that sets up the chain of free objects. */
    method ThreadPage(page: nat, size: nat, n: nat)
      requires 0 < n && page + n * size <= mem.Length && 0 < size
      modifies mem
      ensures mem[..] == Thread(old(mem[..]), page, size, n)
    {
      ghost var was := mem[..];
      var cp: nat, i := page, n;
      assert i * size + page == cp + i * size;
      while i > 1
        invariant 1 <= i <= n && cp + i * size <= mem.Length
        invariant Thread(mem[..], cp, size, i) == Thread(was, page, size, n)
      {
        assert i * size == (i - 1) * size + size && (i - 1) * size >= size
            by { assert (i - 1) * size == (i - 2) * size + size && (i - 2) * size >= 0; }
        ghost var now := mem[..];
        mem[cp] := cp + size;
        var next: nat := cp + size;
        assert mem[..] == now[cp := next];
        cp := cp + size;
        i := i - 1;
      }
      assert 1 * size == size;
      ghost var now := mem[..];
      mem[cp] := 0;
      assert mem[..] == now[cp := 0];
    }

    /** A new bucket at the head of the chain of class b. */
    method MakeBucket(b: nat, page: nat) returns (d: nat)
      requires mem != heads && Inv(H(), g) && b < CLASSES && FreshPage(H(), g, page) && heads[FREE] != 0
      modifies this, mem, heads
      ensures heads[b] == d == old(heads[FREE]) < old(|desc|)
      ensures |old(g).lists| == 10 && old(g).lists[FREE] != [] &&
              old(g).lists[FREE][0] < |old(g).where| == |old(g).free|
      ensures H() == NewBucket(old(H()), b, page) && g == NewShadow(old(g), b, page)
    {
      ghost var h := H();
      NewBucketKeeps(h, g, b, page);
      NewPageOk(h.mem, page, b);
      Exact(b);
      d := heads[FREE];
      heads[FREE] := desc[d].next;
      ThreadPage(page, SizeOf(b), PAGE / SizeOf(b));
      desc := desc[d := Desc(page, heads[b], page, 0, SizeOf(b))];
      heads[b] := d;
      g := NewShadow(g, b, page);
      assert heads[..] == NewBucket(h, b, page).heads;
      assert desc == NewBucket(h, b, page).desc;
    }

    method TakeSlot(d: nat) returns (r: nat)
      requires mem != heads && Inv(H(), g) && IsBucket(H(), g, d) && desc[d].freeptr != 0
      modifies this
      ensures r == old(desc[d].freeptr) < mem.Length && old(g).free[d] != []
      ensures H() == Taken(old(H()), d) && g == TakenShadow(old(g), d)
    {
      ghost var h := H();
      TakeKeeps(h, g, d);
      r := desc[d].freeptr;
      desc := desc[d := desc[d].(freeptr := mem[r])];
      desc := desc[d := desc[d].(refcnt := desc[d].refcnt + 1)];
      g := TakenShadow(g, d);
      assert desc == Taken(h, d).desc;
    }

    /** A descriptor on the free list; false where init_bucket_desc panics. */
    method EnsureDesc(descPage: nat) returns (ok: bool)
      requires Valid()
      modifies this, heads
      ensures !ok <==> old(heads[FREE]) == 0 && descPage == 0
      ensures mem[..] == old(mem[..])
      ensures ok ==> Valid() && Blocks() == old(Blocks()) && heads[FREE] != 0
      ensures ok ==> forall d: nat, a: nat :: Live(H(), g, d, a) <==> Live(old(H()), old(g), d, a)
      ensures ok ==> forall d: nat, a: nat :: Live(H(), g, d, a) && Live(old(H()), old(g), d, a) ==>
              g.where[d] == old(g).where[d]
      ensures ok ==> forall p: nat :: FreshPage(old(H()), old(g), p) ==> FreshPage(H(), g, p)
    {
      if heads[FREE] != 0 {
        return true;
      }
      if descPage == 0 {
        return false;
      }
      ghost var h0, g0 := H(), g;
      AddDescsKeeps(h0, g0);
      InitBucketDesc();
      SameBlocks(h0, g0, H(), g);
      ok := true;
    }

    /** The bucket made when no bucket of the class has a free slot; 0 where malloc panics. */
    method AddBucket(b: nat, descPage: nat, page: nat) returns (d: nat)
      requires Valid() && b < CLASSES && (page != 0 ==> FreshPage(H(), g, page))
      modifies this, mem, heads
      ensures d == 0 <==> page == 0 || (old(heads[FREE]) == 0 && descPage == 0)
      ensures d != 0 ==> && mem != heads && Inv(H(), g) && NoneEmptyBut(H(), g, d) && Blocks() == old(Blocks())
                         && IsBucket(H(), g, d) && g.where[d] == b && desc[d].freeptr != 0
                         && ContentsKept(old(H()), old(g), mem[..], 0)
    {
      ghost var h0, g0 := H(), g;
      var ok := EnsureDesc(descPage);
      if !ok || page == 0 {
        return 0;
      }
      ghost var h1, g1 := H(), g;
      NewBucketKeeps(h1, g1, b, page);
      NewBucketKeepsContents(h1, g1, b, page);
      d := MakeBucket(b, page);
      SameBlocks(h1, g1, H(), g);
      SameContents(h0, g0, h1, g1, mem[..], 0);
    }

    /** The part of malloc that finds or makes a bucket with a free slot; 0 where it panics. */
    method BucketFor(b: nat, descPage: nat, page: nat) returns (d: nat)
      requires Valid() && b < CLASSES && (page != 0 ==> FreshPage(H(), g, page))
      modifies this, mem, heads
      ensures d == 0 <==> !HasFree(old(H()), old(g), b) && (page == 0 || (old(heads[FREE]) == 0 && descPage == 0))
      ensures d != 0 ==> && mem != heads && Inv(H(), g) && NoneEmptyBut(H(), g, d) && Blocks() == old(Blocks())
                         && IsBucket(H(), g, d) && g.where[d] == b && desc[d].freeptr != 0
                         && ContentsKept(old(H()), old(g), mem[..], 0)
      ensures HasFree(old(H()), old(g), b) ==> H() == old(H()) && g == old(g)
    {
      d := FindFree(b);
      if d == 0 {
        d := AddBucket(b, descPage, page);
      }
    }

    /** malloc; 0 where it panics. The pages are what get_free_page would give, 0 for none. */
    method Malloc(len: nat, descPage: nat, page: nat) returns (r: nat)
      requires Valid() && (page != 0 ==> FreshPage(H(), g, page))
      modifies this, mem, heads
      ensures r == 0 <==> len > PAGE || exists b: nat :: b < CLASSES && Fits(len, b) && !HasFree(old(H()), old(g), b)
                                                        && (page == 0 || (old(heads[FREE]) == 0 && descPage == 0))
      ensures r != 0 ==> Valid() && Step(St(old(H()), old(g)), Alloc(len, r), St(H(), g))
      ensures r != 0 && (exists b: nat :: b < CLASSES && Fits(len, b) && HasFree(old(H()), old(g), b)) ==>
                SameBuckets(old(H()), old(g), H(), g)
    {
      var b := ClassFor(len);
      if b == CLASSES {
        return 0;
      }
      var d := BucketFor(b, descPage, page);
      if d == 0 {
        return 0;
      }
      FitsOnce(len, b);
      TakeBlocks(H(), g, d);
      TakeKeeps(H(), g, d);
      r := TakeSlot(d);
    }

    /** The owner of block (a, b) stores into it. */
    method StoreWord(ghost a: nat, ghost b: nat, x: nat, v: nat)
      requires Valid() && (a, b) in Blocks() && b < CLASSES && a <= x < a + SizeOf(b)
      modifies mem
      ensures Valid() && Step(St(old(H()), old(g)), Store(x, v), St(H(), g))
    {
      ghost var h := H();
      BlockIff(h, g, a, b);
      ghost var d: nat :| Live(h, g, d, a) && g.where[d] == b;
      StoreKeeps(h, g, d, a, x, v);
      mem[x] := v;
      assert H() == h.(mem := h.mem[x := v]);
      SameBlocks(h, g, H(), g);
    }

    /** The search of free_s: the bucket of the page, among those not smaller than size, and the one
        before it on its chain; 0 when there is none. */
    method FindPage(page: nat, size: nat) returns (b: nat, prev: nat, d: nat, ghost i: nat)
      requires Valid()
      ensures d != 0 ==> b < CLASSES && i < |g.lists[b]| && d == g.lists[b][i] && prev == Before(g.lists[b], i)
      ensures d != 0 ==> IsBucket(H(), g, d) && desc[d].page == page && size <= SizeOf(g.where[d]) && g.where[d] == b
      ensures d == 0 ==> forall e: nat :: IsBucket(H(), g, e) && desc[e].page == page ==> SizeOf(g.where[e]) < size
    {
      b := 0;
      while b < CLASSES
        invariant b <= CLASSES
        invariant forall e: nat :: IsBucket(H(), g, e) && desc[e].page == page && g.where[e] < b ==>
                  SizeOf(g.where[e]) < size
      {
        if size <= SizeOf(b) {
          prev, d, i := FindOnChain(page, b);
          if d != 0 {
            return;
          }
        }
        b := b + 1;
      }
      prev, d, i := 0, 0, 0;
    }

    method FindOnChain(page: nat, b: nat) returns (prev: nat, d: nat, ghost i: nat)
      requires Valid() && b < CLASSES
      ensures d != 0 ==> i < |g.lists[b]| && d == g.lists[b][i] && prev == Before(g.lists[b], i)
      ensures d != 0 ==> IsBucket(H(), g, d) && desc[d].page == page && g.where[d] == b
      ensures d == 0 ==> forall e: nat :: IsBucket(H(), g, e) && g.where[e] == b ==> desc[e].page != page
    {
      WalkStarts(H(), g, b);
      prev, d, i := 0, heads[b], 0;
      while d != 0
        invariant Standing(H(), g, b, i, prev, d)
        invariant forall j :: 0 <= j < i ==> g.lists[b][j] < |desc| && desc[g.lists[b][j]].page != page
        decreases |g.lists[b]| - i
      {
        if desc[d].page == page {
          return;
        }
        WalkGoesOn(H(), g, b, i, prev, d);
        prev, d, i := d, desc[d].next, i + 1;
      }
      forall e: nat | IsBucket(H(), g, e) && g.where[e] == b ensures desc[e].page != page { FreeHead(H(), g, e); }
    }

    method GiveSlot(d: nat, obj: nat)
      requires mem != heads && Inv(H(), g) && Live(H(), g, d, obj)
      modifies this, mem
      ensures old(desc[d].refcnt) > 0 && obj < mem.Length && d < old(|desc|)
      ensures H() == Given(old(H()), d, obj) && g == GivenShadow(old(g), d, obj)
    {
      ghost var h := H();
      GiveKeeps(h, g, d, obj);
      mem[obj] := desc[d].freeptr;
      desc := desc[d := desc[d].(freeptr := obj)];
      desc := desc[d := desc[d].(refcnt := desc[d].refcnt - 1)];
      g := GivenShadow(g, d, obj);
      assert mem[..] == Given(h, d, obj).mem;
      assert desc == Given(h, d, obj).desc;
    }

    /** Taking an empty bucket off its chain. */
    method Release(b: nat, prev: nat, d: nat, ghost i: nat)
      requires mem != heads && Inv(H(), g) && b < CLASSES && i < |g.lists[b]|
      requires d == g.lists[b][i] && prev == Before(g.lists[b], i) && d < |g.used| && g.used[d] == {}
      modifies this, heads
      ensures d < old(|desc|) && prev < old(|desc|) && prev != d && d < |old(g).where|
      ensures H() == Moved(old(H()), b, prev, d, FREE) && g == MovedShadow(old(g), b, i, FREE)
    {
      ghost var h := H();
      ListEntry(h, g, b, i);
      if prev != 0 {
        desc := desc[prev := desc[prev].(next := desc[d].next)];
      } else {
        heads[b] := desc[d].next;
      }
      desc := desc[d := desc[d].(next := heads[FREE])];
      heads[FREE] := d;
      g := MovedShadow(g, b, i, FREE);
      assert desc == Moved(h, b, prev, d, FREE).desc;
      assert heads[..] == Moved(h, b, prev, d, FREE).heads;
    }

    /** free_s; `ok` is false where it panics, and `freed` is the page handed to free_page, 0 when
        the page still holds other blocks. */
    method FreeS(obj: nat, size: nat) returns (ok: bool, freed: nat)
      requires Valid()
      requires forall d: nat :: Candidate(H(), g, d, obj, size) ==> Live(H(), g, d, obj)
      modifies this, mem, heads
      ensures Valid()
      ensures ok <==> exists d: nat :: Candidate(old(H()), old(g), d, obj, size)
      ensures !ok ==> H() == old(H()) && g == old(g)
      ensures ok ==> Step(St(old(H()), old(g)), Free(obj), St(H(), g))
      ensures freed != 0 ==> freed == obj - obj % PAGE
      ensures freed != 0 <==> ok && forall d: nat :: IsBucket(H(), g, d) ==> desc[d].page != obj - obj % PAGE
    {
      var page := obj - obj % PAGE;
      var b, prev, d;
      ghost var i;
      b, prev, d, i := FindPage(page, size);
      freed := 0;
      if d == 0 {
        return false, 0;
      }
      OnlyPage(H(), g, d);
      ghost var h0, g0 := H(), g;
      assert Candidate(h0, g0, d, obj, size);
      GiveKeeps(h0, g0, d, obj);
      GiveBlocks(h0, g0, d, obj);
      BlockIff(h0, g0, obj, b);
      GiveSlot(d, obj);
      ok := true;
      FreeHead(H(), g, d);
      if desc[d].refcnt == 0 {
        ghost var h1, g1 := H(), g;
        ReleaseKeeps(h1, g1, b, i);
        Release(b, prev, d, i);
        SameBlocks(h1, g1, H(), g);
        freed := page;
      }
    }
  }
}
