/** The bucket allocator (lib/malloc.c) as values: pages cut into slots of one size, free slots
    threaded through their own first words, and descriptors on singly linked lists. */
module Buckets {
  import opened Collections

  const PAGE := 4096
  const CLASSES := 9
  /** The list of free descriptors, kept behind the nine bucket chains. */
  const FREE := 9

  /** bucket_dir[b].size */
  function SizeOf(b: nat): nat
    requires b < CLASSES
  {
    [16, 32, 64, 128, 256, 512, 1024, 2048, 4096][b]
  }

  /** struct bucket_desc; `next` is a descriptor's number, 0 for null. */
  datatype Desc = Desc(page: nat, next: nat, freeptr: nat, refcnt: nat, size: nat)

  /** mem[a] is the word at address a, for the addresses that are multiples of 4; heads are the
      nine chains of bucket_dir and free_bucket_desc. Descriptor 0 stands for null. */
  datatype Heap = Heap(mem: seq<nat>, desc: seq<Desc>, heads: seq<nat>)

  /** What the pointers describe: the descriptors on each list, which list each descriptor is on,
      and the free slots and the blocks in use of its page. */
  datatype Shadow = Shadow(lists: seq<seq<nat>>, where: seq<nat>, free: seq<seq<nat>>, used: seq<set<nat>>)

  // ----- slots of a page -----

  function Slots(at: nat, size: nat, n: nat): (r: seq<nat>)
    ensures |r| == n
    decreases n
  {
    if n == 0 then [] else [at] + Slots(at + size, size, n - 1)
  }

  lemma {:induction false} SlotsApart(at: nat, size: nat, n: nat, i: nat, j: nat, end: nat)
    requires i <= j < n && at + n * size <= end
    ensures at <= Slots(at, size, n)[i] && Slots(at, size, n)[j] + size <= end
    ensures i < j ==> Slots(at, size, n)[i] + size <= Slots(at, size, n)[j]
    decreases n
  {
    assert n * size == (n - 1) * size + size;
    if j > 0 {
      SlotsApart(at + size, size, n - 1, if i == 0 then 0 else i - 1, j - 1, end);
    } else {
      assert (n - 1) * size >= 0;
    }
  }

  lemma Exact(b: nat)
    requires b < CLASSES
    ensures PAGE / SizeOf(b) * SizeOf(b) == PAGE && 1 <= PAGE / SizeOf(b) <= 256 && 16 <= SizeOf(b) <= PAGE
  {
  }

  function SlotsOf(page: nat, b: nat): (r: seq<nat>)
    requires b < CLASSES
    ensures |r| == PAGE / SizeOf(b)
  {
    Slots(page, SizeOf(b), PAGE / SizeOf(b))
  }

  /** Slots lie in their page, and different ones do not overlap. */
  lemma TwoSlots(page: nat, b: nat, x: nat, y: nat)
    requires b < CLASSES && x in SlotsOf(page, b) && y in SlotsOf(page, b)
    ensures page <= x && x + SizeOf(b) <= page + PAGE
    ensures x != y ==> x + SizeOf(b) <= y || y + SizeOf(b) <= x
  {
    var s := SlotsOf(page, b);
    var i :| 0 <= i < |s| && s[i] == x;
    var j :| 0 <= j < |s| && s[j] == y;
    Exact(b);
    if i <= j { SlotsApart(page, SizeOf(b), |s|, i, j, page + PAGE);
      SlotsApart(page, SizeOf(b), |s|, i, i, page + PAGE);
    }
    else { SlotsApart(page, SizeOf(b), |s|, j, i, page + PAGE); SlotsApart(page, SizeOf(b), |s|, i, i, page + PAGE); }
  }

  // ----- the invariant -----

  function Head(s: seq<nat>): nat { if s == [] then 0 else s[0] }

  function After(s: seq<nat>, i: nat): nat { if i + 1 < |s| then s[i + 1] else 0 }

  /** The free slots s of a page are linked from `first` through their first words. */
  predicate Threaded(mem: seq<nat>, s: seq<nat>, i: nat)
    requires i < |s|
  {
    0 < s[i] < |mem| && mem[s[i]] == After(s, i)
  }

  predicate Shape(h: Heap, g: Shadow) {
    && |h.heads| == 10 && |g.lists| == 10 && |h.desc| > 0
    && |g.where| == |h.desc| && |g.free| == |h.desc| && |g.used| == |h.desc|
  }

  predicate IsDesc(h: Heap, d: nat) { 0 < d < |h.desc| }

  /** Entry i of list b is a descriptor that belongs there, linked to the next. */
  predicate Linked(h: Heap, g: Shadow, b: nat, i: nat)
    requires Shape(h, g) && b < 10 && i < |g.lists[b]|
  {
    var d := g.lists[b][i];
    IsDesc(h, d) && g.where[d] == b && h.desc[d].next == After(g.lists[b], i)
  }

  ghost predicate ListOk(h: Heap, g: Shadow, b: nat)
    requires Shape(h, g) && b < 10
  {
    && h.heads[b] == Head(g.lists[b]) && Distinct(g.lists[b])
    && forall i :: 0 <= i < |g.lists[b]| ==> Linked(h, g, b, i)
  }

  /** A bucket of class b at page: its free slots are threaded from freeptr. */
  ghost predicate PageOk(mem: seq<nat>, free: seq<nat>, used: set<nat>, page: nat, b: nat)
    requires b < CLASSES
  {
    && page % PAGE == 0 && 0 < page && page + PAGE <= |mem|
    && Distinct(free)
    && (forall i :: 0 <= i < |free| ==> Threaded(mem, free, i))
    && (forall a :: a in free ==> a in SlotsOf(page, b) && a !in used)
    && (forall a :: a in used ==> a in SlotsOf(page, b))
    && |used| + |free| == PAGE / SizeOf(b)
  }

  predicate IsBucket(h: Heap, g: Shadow, d: nat)
    requires Shape(h, g)
  {
    IsDesc(h, d) && g.where[d] < CLASSES
  }

  ghost predicate BucketOk(h: Heap, g: Shadow, d: nat)
    requires Shape(h, g)
  {
    IsDesc(h, d) ==>
      && g.where[d] < 10 && d in g.lists[g.where[d]]
      && (g.where[d] == FREE ==> g.used[d] == {})
      && (g.where[d] < CLASSES ==>
            var x := h.desc[d];
            && x.size == SizeOf(g.where[d]) && x.freeptr == Head(g.free[d]) && x.refcnt == |g.used[d]|
            && PageOk(h.mem, g.free[d], g.used[d], x.page, g.where[d]))
  }

  ghost predicate OwnPage(h: Heap, g: Shadow, d: nat, e: nat)
    requires Shape(h, g)
  {
    IsBucket(h, g, d) && IsBucket(h, g, e) && h.desc[d].page == h.desc[e].page ==> d == e
  }

  /** Every list is well linked, and every descriptor is on one; every bucket has its own page, and
      its blocks in use and its free slots together are the slots of that page. */
  ghost predicate Inv(h: Heap, g: Shadow) {
    && Shape(h, g)
    && (forall b: nat :: b < 10 ==> ListOk(h, g, b))
    && (forall d: nat :: BucketOk(h, g, d))
    && (forall d: nat, e: nat :: OwnPage(h, g, d, e))
  }

  /** At the start all lists are empty; nothing is in use. */
  lemma InitialInv(h: Heap) returns (g: Shadow)
    requires |h.heads| == 10 && |h.desc| == 1 && forall b :: 0 <= b < 10 ==> h.heads[b] == 0
    ensures Inv(h, g) && NoneEmpty(h, g) && forall d: nat, a: nat :: !Live(h, g, d, a)
  {
    g := Shadow(seq(10, _ => []), [FREE], [[]], [{}]);
    forall b: nat | b < 10 ensures ListOk(h, g, b) {}
  }

  /** Every bucket holds a block in use: empty pages have been given back. */
  ghost predicate NoneEmpty(h: Heap, g: Shadow)
    requires Shape(h, g)
  {
    forall d: nat :: IsBucket(h, g, d) ==> h.desc[d].refcnt > 0
  }

  /** Address a is a block in use in the page of d; its size is that of d's class. */
  predicate Live(h: Heap, g: Shadow, d: nat, a: nat)
    requires Shape(h, g)
  {
    IsBucket(h, g, d) && a in g.used[d]
  }

  lemma PagesApart(p: nat, x: nat, m: nat, q: nat, y: nat, n: nat)
    requires p % PAGE == 0 && q % PAGE == 0 && p != q
    requires p <= x && x + m <= p + PAGE && q <= y && y + n <= q + PAGE && 0 < m && 0 < n
    ensures x + m <= y || y + n <= x
  {
    assert p == p / PAGE * PAGE && q == q / PAGE * PAGE;
  }

  lemma SlotInPage(h: Heap, g: Shadow, d: nat, x: nat)
    requires Inv(h, g) && IsBucket(h, g, d) && (x in g.used[d] || x in g.free[d])
    ensures x in SlotsOf(h.desc[d].page, g.where[d])
    ensures var p := h.desc[d].page; p <= x && x + SizeOf(g.where[d]) <= p + PAGE <= |h.mem| && p % PAGE == 0 && 0 < p
  {
    assert BucketOk(h, g, d);
    TwoSlots(h.desc[d].page, g.where[d], x, x);
  }

  /** Slots of any two buckets do not overlap unless they are the same. */
  lemma SlotsDisjoint(h: Heap, g: Shadow, d: nat, x: nat, e: nat, y: nat)
    requires Inv(h, g) && IsBucket(h, g, d) && IsBucket(h, g, e)
    requires x in g.used[d] || x in g.free[d]
    requires y in g.used[e] || y in g.free[e]
    ensures x != y || d != e ==> x + SizeOf(g.where[d]) <= y || y + SizeOf(g.where[e]) <= x
  {
    SlotInPage(h, g, d, x);
    SlotInPage(h, g, e, y);
    Exact(g.where[d]);
    Exact(g.where[e]);
    if d == e {
      TwoSlots(h.desc[d].page, g.where[d], x, y);
    } else {
      assert OwnPage(h, g, d, e);
      PagesApart(h.desc[d].page, x, SizeOf(g.where[d]), h.desc[e].page, y, SizeOf(g.where[e]));
    }
  }

  /** Blocks in use do not overlap. */
  lemma LiveDisjoint(h: Heap, g: Shadow, d: nat, x: nat, e: nat, y: nat)
    requires Inv(h, g) && Live(h, g, d, x) && Live(h, g, e, y) && x != y
    ensures x + SizeOf(g.where[d]) <= y || y + SizeOf(g.where[e]) <= x
  {
    SlotsDisjoint(h, g, d, x, e, y);
  }

  // ----- changes to memory alone -----

  ghost predicate WordKept(h: Heap, g: Shadow, mem: seq<nat>, e: nat, f: nat)
    requires Shape(h, g)
  {
    IsBucket(h, g, e) && f in g.free[e] ==> f < |h.mem| && f < |mem| && mem[f] == h.mem[f]
  }

  /** Memory may change everywhere but in the first words of free slots. */
  lemma MemoryChanges(h: Heap, g: Shadow, mem: seq<nat>)
    requires Inv(h, g) && |mem| == |h.mem|
    requires forall e: nat, f: nat :: WordKept(h, g, mem, e, f)
    ensures Inv(h.(mem := mem), g)
  {
    var r := h.(mem := mem);
    forall b: nat | b < 10 ensures ListOk(r, g, b) {
      assert ListOk(h, g, b);
      forall i | 0 <= i < |g.lists[b]| ensures Linked(r, g, b, i) { assert Linked(h, g, b, i); }
    }
    forall d: nat ensures BucketOk(r, g, d) {
      assert BucketOk(h, g, d);
      if IsBucket(h, g, d) {
        forall i | 0 <= i < |g.free[d]| ensures Threaded(mem, g.free[d], i) {
          assert Threaded(h.mem, g.free[d], i);
          assert WordKept(h, g, mem, d, g.free[d][i]);
        }
      }
    }
    forall d: nat, e: nat ensures OwnPage(r, g, d, e) { assert OwnPage(h, g, d, e); }
  }

  /** A free slot is no part of any block in use. */
  lemma FreeApartLive(h: Heap, g: Shadow, d: nat, a: nat, e: nat, f: nat)
    requires Inv(h, g) && Live(h, g, d, a) && IsBucket(h, g, e) && f in g.free[e]
    ensures f + SizeOf(g.where[e]) <= a || a + SizeOf(g.where[d]) <= f
  {
    assert BucketOk(h, g, d);
    SlotsDisjoint(h, g, d, a, e, f);
  }

  /** What users store into their own blocks upsets nothing. */
  lemma StoreKeeps(h: Heap, g: Shadow, d: nat, a: nat, at: nat, v: nat)
    requires Inv(h, g) && Live(h, g, d, a) && a <= at < a + SizeOf(g.where[d])
    ensures at < |h.mem| && Inv(h.(mem := h.mem[at := v]), g)
  {
    SlotInPage(h, g, d, a);
    var mem := h.mem[at := v];
    forall e: nat, f: nat ensures WordKept(h, g, mem, e, f) {
      if IsBucket(h, g, e) && f in g.free[e] {
        Exact(g.where[e]);
        SlotInPage(h, g, e, f);
        FreeApartLive(h, g, d, a, e, f);
      }
    }
    MemoryChanges(h, g, mem);
  }

  // ----- taking and giving back a slot -----

  function Taken(h: Heap, d: nat): Heap
    requires d < |h.desc| && h.desc[d].freeptr < |h.mem|
  {
    h.(desc := h.desc[d := h.desc[d].(freeptr := h.mem[h.desc[d].freeptr], refcnt := h.desc[d].refcnt + 1)])
  }

  function TakenShadow(g: Shadow, d: nat): Shadow
    requires d < |g.free| && d < |g.used| && g.free[d] != []
  {
    g.(free := g.free[d := g.free[d][1..]], used := g.used[d := g.used[d] + {g.free[d][0]}])
  }

  function Given(h: Heap, d: nat, a: nat): Heap
    requires d < |h.desc| && a < |h.mem| && h.desc[d].refcnt > 0
  {
    h.(mem := h.mem[a := h.desc[d].freeptr],
       desc := h.desc[d := h.desc[d].(freeptr := a, refcnt := h.desc[d].refcnt - 1)])
  }

  function GivenShadow(g: Shadow, d: nat, a: nat): Shadow
    requires d < |g.free| && d < |g.used|
  {
    g.(free := g.free[d := [a] + g.free[d]], used := g.used[d := g.used[d] - {a}])
  }

  /** Only the counts and the free list of d, and memory outside all other free slots, have changed. */
  lemma OneBucketChanges(h: Heap, g: Shadow, r: Heap, k: Shadow, d: nat)
    requires Inv(h, g) && IsBucket(h, g, d) && Shape(r, k)
    requires r.heads == h.heads && k.lists == g.lists && k.where == g.where && |r.desc| == |h.desc| &&
             |r.mem| == |h.mem|
    requires forall e: nat :: e < |h.desc| && e != d ==>
             r.desc[e] == h.desc[e] && k.free[e] == g.free[e] && k.used[e] == g.used[e]
    requires r.desc[d].next == h.desc[d].next && r.desc[d].page == h.desc[d].page
    requires forall e: nat, f: nat :: e != d ==> WordKept(h, g, r.mem, e, f)
    requires BucketOk(r, k, d)
    ensures Inv(r, k)
  {
    forall b: nat | b < 10 ensures ListOk(r, k, b) {
      assert ListOk(h, g, b);
      forall i | 0 <= i < |g.lists[b]| ensures Linked(r, k, b, i) { assert Linked(h, g, b, i); }
    }
    forall e: nat ensures BucketOk(r, k, e) {
      assert BucketOk(h, g, e);
      if IsBucket(h, g, e) && e != d {
        forall i | 0 <= i < |g.free[e]| ensures Threaded(r.mem, g.free[e], i) {
          assert Threaded(h.mem, g.free[e], i);
          assert WordKept(h, g, r.mem, e, g.free[e][i]);
        }
      }
    }
    forall e: nat, c: nat ensures OwnPage(r, k, e, c) { assert OwnPage(h, g, e, c); }
  }

  lemma TakeKeeps(h: Heap, g: Shadow, d: nat)
    requires Inv(h, g) && IsBucket(h, g, d) && h.desc[d].freeptr != 0
    ensures g.free[d] != [] && h.desc[d].freeptr == g.free[d][0] < |h.mem|
    ensures Inv(Taken(h, d), TakenShadow(g, d))
    ensures Live(Taken(h, d), TakenShadow(g, d), d, h.desc[d].freeptr)
    ensures forall e: nat, a: nat :: Live(h, g, e, a) ==> a != h.desc[d].freeptr
  {
    assert BucketOk(h, g, d);
    var s, a := g.free[d], h.desc[d].freeptr;
    assert Threaded(h.mem, s, 0) && a in s;
    var r, k := Taken(h, d), TakenShadow(g, d);
    forall i | 0 <= i < |s| - 1 ensures Threaded(h.mem, s[1..], i) { assert Threaded(h.mem, s, i + 1); }
    forall e: nat, f: nat ensures WordKept(h, g, r.mem, e, f) {
      if IsBucket(h, g, e) && f in g.free[e] { SlotInPage(h, g, e, f); Exact(g.where[e]); }
    }
    assert BucketOk(r, k, d);
    OneBucketChanges(h, g, r, k, d);
    forall e: nat, x: nat | Live(h, g, e, x) ensures x != a {
      FreeApartLive(h, g, e, x, d, a);
      Exact(g.where[d]);
      Exact(g.where[e]);
    }
  }

  lemma GivenPage(mem: seq<nat>, free: seq<nat>, used: set<nat>, page: nat, b: nat, a: nat)
    requires b < CLASSES && PageOk(mem, free, used, page, b) && a in used && 0 < a < |mem|
    ensures PageOk(mem[a := Head(free)], [a] + free, used - {a}, page, b)
  {
    var m, s := mem[a := Head(free)], [a] + free;
    forall i | 0 <= i < |s| ensures Threaded(m, s, i) {
      if i > 0 { assert Threaded(mem, free, i - 1) && free[i - 1] in free && s[i] == free[i - 1]; }
    }
    forall i, j | 0 <= i < j < |s| ensures s[i] != s[j] { assert s[j] == free[j - 1] && free[j - 1] in free; }
  }

  lemma GiveKeeps(h: Heap, g: Shadow, d: nat, a: nat)
    requires Inv(h, g) && Live(h, g, d, a)
    ensures h.desc[d].refcnt > 0 && a < |h.mem| && Inv(Given(h, d, a), GivenShadow(g, d, a))
  {
    assert BucketOk(h, g, d);
    SlotInPage(h, g, d, a);
    Exact(g.where[d]);
    var r, k := Given(h, d, a), GivenShadow(g, d, a);
    forall e: nat, f: nat ensures WordKept(h, g, r.mem, e, f) {
      if IsBucket(h, g, e) && f in g.free[e] {
        SlotInPage(h, g, e, f);
        Exact(g.where[e]);
        FreeApartLive(h, g, d, a, e, f);
      }
    }
    GivenPage(h.mem, g.free[d], g.used[d], h.desc[d].page, g.where[d], a);
    assert BucketOk(r, k, d);
    OneBucketChanges(h, g, r, k, d);
  }

  // ----- moving descriptors between lists -----

  /** Descriptor d goes from list b, where prev comes before it, to the front of list c. */
  function Moved(h: Heap, b: nat, prev: nat, d: nat, c: nat): (r: Heap)
    requires b < 10 && c < 10 && |h.heads| == 10 && d < |h.desc| && prev < |h.desc| && prev != d
    ensures |r.heads| == 10 && |r.desc| == |h.desc| && r.mem == h.mem
  {
    var next := h.desc[d].next;
    var h1 := if prev != 0 then h.(desc := h.desc[prev := h.desc[prev].(next := next)])
        else h.(heads := h.heads[b := next]);
    h1.(desc := h1.desc[d := h1.desc[d].(next := h1.heads[c])], heads := h1.heads[c := d])
  }

  function MovedShadow(g: Shadow, b: nat, i: nat, c: nat): (k: Shadow)
    requires |g.lists| == 10 && b < 10 && c < 10 && b != c && i < |g.lists[b]| && g.lists[b][i] < |g.where|
  {
    g.(lists := g.lists[b := Cut(g.lists[b], i)][c := [g.lists[b][i]] + g.lists[c]],
       where := g.where[g.lists[b][i] := c])
  }

  function Before(s: seq<nat>, i: nat): nat
    requires i < |s|
  {
    if i == 0 then 0 else s[i - 1]
  }

  lemma ListEntry(h: Heap, g: Shadow, b: nat, i: nat)
    requires Inv(h, g) && b < 10 && i < |g.lists[b]|
    ensures var d, prev := g.lists[b][i], Before(g.lists[b], i);
            && IsDesc(h, d) && g.where[d] == b && prev < |h.desc| && prev != d
            && h.desc[d].next == After(g.lists[b], i)
            && (i > 0 ==> prev != 0 && g.where[prev] == b && h.desc[prev].next == d)
  {
    assert ListOk(h, g, b) && Linked(h, g, b, i);
    if i > 0 { assert Linked(h, g, b, i - 1); }
  }

  lemma MovedFrom(h: Heap, g: Shadow, b: nat, i: nat, c: nat)
    requires Inv(h, g) && b < 10 && c < 10 && b != c && i < |g.lists[b]|
    ensures var d, prev := g.lists[b][i], Before(g.lists[b], i);
            && d < |h.desc| && d < |g.where| && prev < |h.desc| && prev != d
            && Shape(Moved(h, b, prev, d, c), MovedShadow(g, b, i, c))
            && ListOk(Moved(h, b, prev, d, c), MovedShadow(g, b, i, c), b)
  {
    ListEntry(h, g, b, i);
    var s := g.lists[b];
    var r, k := Moved(h, b, Before(s, i), s[i], c), MovedShadow(g, b, i, c);
    var s1 := k.lists[b];
    assert ListOk(h, g, b);
    forall j | 0 <= j < |s1| ensures Linked(r, k, b, j) {
      var j0 := if j < i then j else j + 1;
      assert s1[j] == s[j0] && s[j0] != s[i];
      assert Linked(h, g, b, j0);
    }
    assert forall j :: 0 <= j < |s1| ==> s1[j] == s[if j < i then j else j + 1];
  }

  lemma MovedTo(h: Heap, g: Shadow, b: nat, i: nat, c: nat)
    requires Inv(h, g) && b < 10 && c < 10 && b != c && i < |g.lists[b]|
    ensures var d, prev := g.lists[b][i], Before(g.lists[b], i);
            && d < |h.desc| && d < |g.where| && prev < |h.desc| && prev != d
            && Shape(Moved(h, b, prev, d, c), MovedShadow(g, b, i, c))
            && ListOk(Moved(h, b, prev, d, c), MovedShadow(g, b, i, c), c)
  {
    ListEntry(h, g, b, i);
    var s, t := g.lists[b], g.lists[c];
    var r, k := Moved(h, b, Before(s, i), s[i], c), MovedShadow(g, b, i, c);
    assert ListOk(h, g, c);
    assert k.lists[c] == [s[i]] + t;
    forall j | 0 <= j < |t| + 1 ensures Linked(r, k, c, j) {
      if j > 0 { assert Linked(h, g, c, j - 1); } else if t != [] { assert Linked(h, g, c, 0); }
    }
    forall j | 0 <= j < |t| ensures t[j] != s[i] { assert Linked(h, g, c, j); }
  }

  lemma MovedOther(h: Heap, g: Shadow, b: nat, i: nat, c: nat, x: nat)
    requires Inv(h, g) && b < 10 && c < 10 && b != c && i < |g.lists[b]| && x < 10 && x != b && x != c
    ensures var d, prev := g.lists[b][i], Before(g.lists[b], i);
            && d < |h.desc| && d < |g.where| && prev < |h.desc| && prev != d
            && Shape(Moved(h, b, prev, d, c), MovedShadow(g, b, i, c))
            && ListOk(Moved(h, b, prev, d, c), MovedShadow(g, b, i, c), x)
  {
    ListEntry(h, g, b, i);
    var r, k := Moved(h, b, Before(g.lists[b], i), g.lists[b][i], c), MovedShadow(g, b, i, c);
    assert ListOk(h, g, x);
    forall j | 0 <= j < |g.lists[x]| ensures Linked(r, k, x, j) { assert Linked(h, g, x, j); }
  }

  lemma MovedLists(h: Heap, g: Shadow, b: nat, i: nat, c: nat)
    requires Inv(h, g) && b < 10 && c < 10 && b != c && i < |g.lists[b]|
    ensures var d, prev := g.lists[b][i], Before(g.lists[b], i);
            && IsDesc(h, d) && d < |g.where| && prev < |h.desc| && prev != d
            && var r, k := Moved(h, b, prev, d, c), MovedShadow(g, b, i, c);
            && Shape(r, k) && (forall x: nat :: x < 10 ==> ListOk(r, k, x))
            && (forall e: nat :: IsDesc(h, e) && e != d ==>
                k.where[e] == g.where[e] &&
                    (g.where[e] < 10 && e in g.lists[g.where[e]] ==> e in k.lists[g.where[e]]))
  {
    ListEntry(h, g, b, i);
    MovedFrom(h, g, b, i, c);
    MovedTo(h, g, b, i, c);
    var d := g.lists[b][i];
    var r, k := Moved(h, b, Before(g.lists[b], i), d, c), MovedShadow(g, b, i, c);
    forall x: nat | x < 10 ensures ListOk(r, k, x) {
      if x != b && x != c { MovedOther(h, g, b, i, c, x); }
    }
    forall e: nat | IsDesc(h, e) && e != d && g.where[e] < 10 && e in g.lists[g.where[e]]
      ensures e in k.lists[g.where[e]] {
      if g.where[e] == b {
        var j :| 0 <= j < |g.lists[b]| && g.lists[b][j] == e;
        assert k.lists[b][if j < i then j else j - 1] == e;
      }
    }
  }

  // ----- a bucket given back -----

  /** The last block of a bucket was freed: its descriptor joins the free ones. */
  lemma ReleaseKeeps(h: Heap, g: Shadow, b: nat, i: nat)
    requires Inv(h, g) && b < CLASSES && i < |g.lists[b]|
    requires g.lists[b][i] < |g.used| && g.used[g.lists[b][i]] == {}
    ensures var d, prev := g.lists[b][i], Before(g.lists[b], i);
            && d < |h.desc| && d < |g.where| && prev < |h.desc| && prev != d
            && Inv(Moved(h, b, prev, d, FREE), MovedShadow(g, b, i, FREE))
            && (forall e: nat, a: nat :: Live(Moved(h, b, prev, d, FREE), MovedShadow(g, b, i, FREE), e, a) <==>
                Live(h, g, e, a))
  {
    MovedLists(h, g, b, i, FREE);
    ListEntry(h, g, b, i);
    var d := g.lists[b][i];
    var r, k := Moved(h, b, Before(g.lists[b], i), d, FREE), MovedShadow(g, b, i, FREE);
    forall e: nat ensures BucketOk(r, k, e) {
      assert BucketOk(h, g, e);
      if IsBucket(r, k, e) {
        forall j | 0 <= j < |g.free[e]| ensures Threaded(r.mem, g.free[e], j) { assert Threaded(h.mem, g.free[e], j); }
      }
    }
    forall e: nat, c: nat ensures OwnPage(r, k, e, c) { assert OwnPage(h, g, e, c); }
  }

  // ----- a new bucket -----

  /** The loop that threads the slots of a new page. */
  function Thread(mem: seq<nat>, at: nat, size: nat, n: nat): (r: seq<nat>)
    requires 0 < n && at + n * size <= |mem| && 0 < size
    ensures |r| == |mem|
    decreases n
  {
    assert n * size == (n - 1) * size + size;
    if n == 1 then mem[at := 0] else
      assert (n - 1) * size >= 0;
      Thread(mem[at := at + size], at + size, size, n - 1)
  }

  lemma {:induction false} ThreadWorks(mem: seq<nat>, at: nat, size: nat, n: nat)
    requires 0 < n && at + n * size <= |mem| && 0 < size && 0 < at
    ensures forall i :: 0 <= i < n ==> Threaded(Thread(mem, at, size, n), Slots(at, size, n), i)
    ensures forall x :: 0 <= x < |mem| && !(at <= x < at + n * size) ==> Thread(mem, at, size, n)[x] == mem[x]
    decreases n
  {
    assert n * size == (n - 1) * size + size;
    if n > 1 {
      var m := mem[at := at + size];
      ThreadWorks(m, at + size, size, n - 1);
      var r, s, t := Thread(mem, at, size, n), Slots(at, size, n), Slots(at + size, size, n - 1);
      assert r == Thread(m, at + size, size, n - 1);
      forall i | 0 <= i < n ensures Threaded(r, s, i) {
        if i > 0 { assert Threaded(r, t, i - 1); } else { assert r[at] == m[at]; assert s[1] == t[0] == at + size; }
      }
    }
  }

  /** bdesc->next is set by Moved; the rest of the new descriptor, and its page. */
  function NewBucket(h: Heap, b: nat, page: nat): (r: Heap)
    requires |h.heads| == 10 && b < CLASSES && 0 < h.heads[FREE] < |h.desc| && page + PAGE <= |h.mem| && 0 < |h.desc|
  {
    var d := h.heads[FREE];
    var h1 := Moved(h, FREE, 0, d, b);
    Exact(b);
    h1.(desc := h1.desc[d := Desc(page, h1.desc[d].next, page, 0, SizeOf(b))],
        mem := Thread(h.mem, page, SizeOf(b), PAGE / SizeOf(b)))
  }

  function NewShadow(g: Shadow, b: nat, page: nat): Shadow
    requires |g.lists| == 10 && b < CLASSES && g.lists[FREE] != [] && g.lists[FREE][0] < |g.where| == |g.free|
  {
    var k := MovedShadow(g, FREE, 0, b);
    k.(free := k.free[g.lists[FREE][0] := SlotsOf(page, b)])
  }

  ghost predicate FreshPage(h: Heap, g: Shadow, page: nat)
    requires Shape(h, g)
  {
    0 < page && page % PAGE == 0 && page + PAGE <= |h.mem| && forall d: nat :: IsBucket(h, g, d) ==>
        h.desc[d].page != page
  }

  lemma SlotsDistinct(page: nat, b: nat)
    requires b < CLASSES
    ensures Distinct(SlotsOf(page, b))
  {
    Exact(b);
    var s := SlotsOf(page, b);
    forall i, j | 0 <= i < j < |s| ensures s[i] != s[j] { SlotsApart(page, SizeOf(b), |s|, i, j, page + PAGE); }
  }

  lemma NewPageOk(mem: seq<nat>, page: nat, b: nat)
    requires b < CLASSES && 0 < page && page % PAGE == 0 && page + PAGE <= |mem|
    ensures PAGE / SizeOf(b) > 0 && page + PAGE / SizeOf(b) * SizeOf(b) <= |mem|
    ensures PageOk(Thread(mem, page, SizeOf(b), PAGE / SizeOf(b)), SlotsOf(page, b), {}, page, b)
    ensures forall x :: 0 <= x < |mem| && !(page <= x < page + PAGE) ==>
            Thread(mem, page, SizeOf(b), PAGE / SizeOf(b))[x] == mem[x]
  {
    Exact(b);
    SlotsDistinct(page, b);
    ThreadWorks(mem, page, SizeOf(b), PAGE / SizeOf(b));
  }

  lemma NewBucketKeeps(h: Heap, g: Shadow, b: nat, page: nat)
    requires Inv(h, g) && b < CLASSES && FreshPage(h, g, page) && h.heads[FREE] != 0
    ensures var d := h.heads[FREE];
            && IsDesc(h, d) && g.lists[FREE] != [] && g.lists[FREE][0] == d
            && Inv(NewBucket(h, b, page), NewShadow(g, b, page))
            && IsBucket(NewBucket(h, b, page), NewShadow(g, b, page), d) && NewShadow(g, b, page).where[d] == b
            && NewBucket(h, b, page).desc[d].freeptr == page
            && (forall e: nat, a: nat :: Live(NewBucket(h, b, page), NewShadow(g, b, page), e, a) <==> Live(h, g, e, a))
            && (forall e: nat, a: nat :: Live(h, g, e, a) ==> e != d && NewShadow(g, b, page).where[e] == g.where[e])
  {
    assert ListOk(h, g, FREE);
    var d := h.heads[FREE];
    assert g.lists[FREE] != [] && g.lists[FREE][0] == d;
    assert Linked(h, g, FREE, 0);
    assert BucketOk(h, g, d);
    MovedLists(h, g, FREE, 0, b);
    NewPageOk(h.mem, page, b);
    Exact(b);
    var h1, k1 := Moved(h, FREE, 0, d, b), MovedShadow(g, FREE, 0, b);
    var r, k := NewBucket(h, b, page), NewShadow(g, b, page);
    forall x: nat | x < 10 ensures ListOk(r, k, x) {
      assert ListOk(h1, k1, x);
      forall i | 0 <= i < |k.lists[x]| ensures Linked(r, k, x, i) { assert Linked(h1, k1, x, i); }
    }
    forall e: nat ensures BucketOk(r, k, e) { NewBucketOther(h, g, b, page, e); }
    forall e: nat, c: nat ensures OwnPage(r, k, e, c) { assert OwnPage(h, g, e, c); }
  }

  lemma NewBucketOther(h: Heap, g: Shadow, b: nat, page: nat, e: nat)
    requires Inv(h, g) && b < CLASSES && FreshPage(h, g, page) && h.heads[FREE] != 0
    ensures IsDesc(h, h.heads[FREE]) && g.lists[FREE] != [] && g.lists[FREE][0] == h.heads[FREE]
    ensures Shape(NewBucket(h, b, page), NewShadow(g, b, page)) &&
            BucketOk(NewBucket(h, b, page), NewShadow(g, b, page), e)
  {
    assert ListOk(h, g, FREE);
    assert g.lists[FREE] != [];
    assert Linked(h, g, FREE, 0);
    var d := h.heads[FREE];
    MovedLists(h, g, FREE, 0, b);
    NewPageOk(h.mem, page, b);
    assert BucketOk(h, g, e);
    var r, k := NewBucket(h, b, page), NewShadow(g, b, page);
    if e != d && IsBucket(h, g, e) {
      forall i | 0 <= i < |g.free[e]| ensures Threaded(r.mem, g.free[e], i) {
        var f := g.free[e][i];
        assert Threaded(h.mem, g.free[e], i);
        SlotInPage(h, g, e, f);
        Exact(g.where[e]);
        Elsewhere(h.desc[e].page, page, f);
      }
    }
  }

  lemma Elsewhere(p: nat, q: nat, x: nat)
    requires p % PAGE == 0 && q % PAGE == 0 && p != q && p <= x < p + PAGE
    ensures !(q <= x < q + PAGE)
  {
    if q <= x < q + PAGE { PagesApart(p, x, 1, q, x, 1); }
  }

  // ----- more descriptors -----

  /** init_bucket_desc on an empty free list: the next 256 descriptors, linked in order. */
  function AddDescs(h: Heap): (r: Heap)
    requires |h.heads| == 10
  {
    var n := |h.desc|;
    h.(desc := h.desc
         + seq(256, i requires 0 <= i < 256 => Desc(0, if i < 255 then n + i + 1 else h.heads[FREE], 0, 0, 0)),
       heads := h.heads[FREE := n])
  }

  function AddShadow(g: Shadow, n: nat): Shadow
    requires |g.lists| == 10
  {
    g.(lists := g.lists[FREE := seq(256, i requires 0 <= i < 256 => n + i) + g.lists[FREE]],
       where := g.where + seq(256, _ => FREE), free := g.free + seq(256, _ => []), used := g.used + seq(256, _ => {}))
  }

  lemma AddDescsKeeps(h: Heap, g: Shadow)
    requires Inv(h, g)
    ensures Inv(AddDescs(h), AddShadow(g, |h.desc|)) && AddDescs(h).heads[FREE] != 0
    ensures forall e: nat, a: nat :: Live(AddDescs(h), AddShadow(g, |h.desc|), e, a) <==> Live(h, g, e, a)
    ensures forall page: nat :: FreshPage(h, g, page) ==> FreshPage(AddDescs(h), AddShadow(g, |h.desc|), page)
  {
    var n := |h.desc|;
    var r, k := AddDescs(h), AddShadow(g, n);
    forall b: nat | b < 10 ensures ListOk(r, k, b) {
      assert ListOk(h, g, b);
      forall i | 0 <= i < |k.lists[b]| ensures Linked(r, k, b, i) {
        if b != FREE { assert Linked(h, g, b, i); }
        else if i >= 256 { assert Linked(h, g, FREE, i - 256); }
        else if i == 255 && g.lists[FREE] != [] { assert Linked(h, g, FREE, 0); }
      }
      if b == FREE {
        forall i, j | 0 <= i < j < |k.lists[b]| ensures k.lists[b][i] != k.lists[b][j] {
          if j >= 256 { assert Linked(h, g, FREE, j - 256); }
        }
      }
    }
    forall d: nat ensures BucketOk(r, k, d) {
      assert BucketOk(h, g, d);
      if n <= d < n + 256 { assert k.lists[FREE][d - n] == d; }
      if IsBucket(h, g, d) {
        forall i | 0 <= i < |g.free[d]| ensures Threaded(r.mem, k.free[d], i) { assert Threaded(h.mem, g.free[d], i); }
      } else if IsDesc(h, d) {
        assert d in g.lists[FREE];
      }
    }
    forall d: nat, e: nat ensures OwnPage(r, k, d, e) { assert OwnPage(h, g, d, e); }
  }
}
