/** The doubly linked lists of fs/buffer.c: the hash chains and the circular free list that run
    through the same buffer heads, with their in-place removal and insertion. */
module CacheLists {
  import opened CacheMachine
  import opened Collections
  import CacheProofs

  const NR_HASH := 307
  const NULL := -1

  /** A buffer_head; the four links are indices into the array of heads, or NULL. */
  datatype Head = Head(info: Info, prev: int, next: int, prevFree: int, nextFree: int)

  /** The exclusive or of two numbers, bit by bit. */
  function Xor(a: nat, b: nat): nat {
    if a == 0 && b == 0 then 0 else 2 * Xor(a / 2, b / 2) + (if a % 2 == b % 2 then 0 else 1)
  }

  /** _hashfn */
  function Hash(k: Key): (n: nat)
    ensures n < NR_HASH
  {
    Xor(k.dev, k.block) % NR_HASH
  }

  // ----- one chain, one ring -----

  ghost predicate ChainLink(h: seq<Head>, c: seq<nat>, i: nat) {
    && i < |c| && c[i] < |h|
    && h[c[i]].next == (if i + 1 < |c| then c[i + 1] else NULL)
    && h[c[i]].prev == (if i > 0 then c[i - 1] else NULL)
  }

  ghost predicate RingLink(h: seq<Head>, r: seq<nat>, i: nat) {
    && i < |r| && r[i] < |h|
    && h[r[i]].nextFree == (if i + 1 < |r| then r[i + 1] else r[0])
    && h[r[i]].prevFree == (if i > 0 then r[i - 1] else r[|r| - 1])
  }

  ghost predicate ChainOk(h: seq<Head>, c: seq<nat>, first: int) {
    && Distinct(c)
    && first == (if c == [] then NULL else c[0])
    && (forall i :: 0 <= i < |c| ==> ChainLink(h, c, i))
  }

  ghost predicate RingOk(h: seq<Head>, r: seq<nat>, first: int) {
    && Distinct(r) && r != []
    && first == r[0]
    && (forall i :: 0 <= i < |r| ==> RingLink(h, r, i))
  }

  lemma CutMembers(s: seq<nat>, k: nat)
    requires Distinct(s) && k < |s|
    ensures forall x :: x in Cut(s, k) <==> x in s && x != s[k]
  {
    var c := Cut(s, k);
    forall x ensures x in c <==> x in s && x != s[k] {
      if x in s && x != s[k] {
        var i :| 0 <= i < |s| && s[i] == x;
        assert c[if i < k then i else i - 1] == x;
      }
    }
  }

  lemma TailDistinct(s: seq<nat>)
    requires Distinct(s) && s != []
    ensures Distinct(s[1..])
    ensures forall i :: 0 < i < |s| ==> s[i] != s[0]
  {
  }

  lemma {:induction false} CutIsWithout(s: seq<nat>, k: nat)
    requires Distinct(s) && k < |s|
    ensures s[..k] + s[k + 1..] == Without(s, s[k])
  {
    TailDistinct(s);
    if k > 0 {
      var rest := s[1..];
      CutIsWithout(rest, k - 1);
      assert s[..k] + s[k + 1..] == [s[0]] + (rest[..k - 1] + rest[k..]);
    } else {
      assert s[..0] + s[1..] == s[1..];
    }
  }

  // ----- remove_from_queues -----

  /** "remove from hash-queue", the two neighbours */
  function Unchained(h: seq<Head>, b: nat): (r: seq<Head>)
    requires b < |h|
    ensures |r| == |h|
  {
    var n, p := h[b].next, h[b].prev;
    var h1 := if 0 <= n < |h| then h[n := h[n].(prev := p)] else h;
    if 0 <= p < |h| then h1[p := h1[p].(next := n)] else h1
  }

  /** "remove from free list" */
  function Unringed(h: seq<Head>, b: nat): (r: seq<Head>)
    requires b < |h|
    ensures |r| == |h|
  {
    var n, p := h[b].nextFree, h[b].prevFree;
    var h1 := if 0 <= p < |h| then h[p := h[p].(nextFree := n)] else h;
    if 0 <= n < |h| then h1[n := h1[n].(prevFree := p)] else h1
  }

  /** "put at end of free list" */
  function Enringed(h: seq<Head>, b: nat, first: int): (r: seq<Head>)
    requires b < |h| && 0 <= first < |h|
    ensures |r| == |h|
  {
    var last := h[first].prevFree;
    var h1 := h[b := h[b].(nextFree := first, prevFree := last)];
    var h2 := if 0 <= last < |h| then h1[last := h1[last].(nextFree := b)] else h1;
    h2[first := h2[first].(prevFree := b)]
  }

  /** "put the buffer in new hash-queue", at its head */
  function Enchained(h: seq<Head>, b: nat, first: int): (r: seq<Head>)
    requires b < |h|
    ensures |r| == |h|
  {
    var h1 := h[b := h[b].(prev := NULL, next := first)];
    if 0 <= first < |h| then h1[first := h1[first].(prev := b)] else h1
  }

  lemma UnchainLink(h: seq<Head>, c: seq<nat>, k: nat, i: nat)
    requires (forall j :: 0 <= j < |c| ==> ChainLink(h, c, j)) && Distinct(c) && k < |c| && i < |c| - 1
    requires c[k] < |h|
    ensures ChainLink(Unchained(h, c[k]), Cut(c, k), i)
  {
    var o := if i < k then i else i + 1;
    assert ChainLink(h, c, k) && ChainLink(h, c, o);
    assert c[o] != c[k];
    if k > 0 { assert ChainLink(h, c, k - 1); assert c[k - 1] != c[k]; assert o != k - 1 ==> c[o] != c[k - 1]; }
    if k + 1 < |c| { assert ChainLink(h, c, k + 1); assert o != k + 1 ==> c[o] != c[k + 1]; }
  }

  lemma UnchainKeeps(h: seq<Head>, c: seq<nat>, first: int, k: nat)
    requires ChainOk(h, c, first) && k < |c|
    ensures c[k] < |h|
    ensures ChainOk(Unchained(h, c[k]), Cut(c, k), if first == c[k] then h[c[k]].next else first)
  {
    assert ChainLink(h, c, k);
    CutDistinct(c, k);
    forall i | 0 <= i < |c| - 1 ensures ChainLink(Unchained(h, c[k]), Cut(c, k), i) { UnchainLink(h, c, k, i); }
    assert k > 0 ==> c[0] != c[k];
  }

  /** The neighbours of place k on a ring of n. */
  function Before(n: nat, k: nat): (p: nat)
    requires k < n
    ensures p < n
  {
    if k > 0 then k - 1 else n - 1
  }

  function After(n: nat, k: nat): (p: nat)
    requires k < n
    ensures p < n
  {
    if k + 1 < n then k + 1 else 0
  }

  /** What "remove from free list" does to the head at place o. */
  lemma UnringAt(h: seq<Head>, r: seq<nat>, k: nat, o: nat)
    requires RingLink(h, r, k) && Distinct(r) && k < |r| && o < |r| && o != k && r[o] < |h|
    requires r[After(|r|, k)] < |h| && r[Before(|r|, k)] < |h|
    ensures var n, p := After(|r|, k), Before(|r|, k);
            && Unringed(h, r[k])[r[o]].nextFree == (if o == p then r[n] else h[r[o]].nextFree)
            && Unringed(h, r[k])[r[o]].prevFree == (if o == n then r[p] else h[r[o]].prevFree)
  {
  }

  /** Where the neighbours of a place are once place k has been cut out. */
  lemma CutPlaces(r: seq<nat>, k: nat, i: nat)
    requires k < |r| && i < |r| - 1
    ensures var o, c := if i < k then i else i + 1, Cut(r, k);
            && c[i] == r[o] && |c| == |r| - 1
            && c[After(|c|, i)] == r[if After(|r|, o) == k then After(|r|, k) else After(|r|, o)]
            && c[Before(|c|, i)] == r[if Before(|r|, o) == k then Before(|r|, k) else Before(|r|, o)]
  {
  }

  lemma UnringLink(h: seq<Head>, r: seq<nat>, k: nat, i: nat)
    requires (forall j :: 0 <= j < |r| ==> RingLink(h, r, j)) && Distinct(r) && k < |r| && i < |r| - 1
    requires r[k] < |h|
    ensures RingLink(Unringed(h, r[k]), Cut(r, k), i)
  {
    var o := if i < k then i else i + 1;
    assert RingLink(h, r, k) && RingLink(h, r, o);
    assert RingLink(h, r, After(|r|, k)) && RingLink(h, r, Before(|r|, k));
    UnringAt(h, r, k, o);
    CutPlaces(r, k, i);
  }

  lemma UnringKeeps(h: seq<Head>, r: seq<nat>, first: int, k: nat)
    requires RingOk(h, r, first) && k < |r| && |r| >= 2
    ensures r[k] < |h|
    ensures RingOk(Unringed(h, r[k]), Cut(r, k), if first == r[k] then h[r[k]].nextFree else first)
  {
    assert RingLink(h, r, k);
    CutDistinct(r, k);
    assert k > 0 ==> r[0] != r[k];
    forall i | 0 <= i < |r| - 1 ensures RingLink(Unringed(h, r[k]), Cut(r, k), i) { UnringLink(h, r, k, i); }
  }

  lemma EnringKeeps(h: seq<Head>, r: seq<nat>, first: int, b: nat)
    requires RingOk(h, r, first) && b < |h| && b !in r
    ensures 0 <= first < |h|
    ensures RingOk(Enringed(h, b, first), r + [b], first)
  {
    assert RingLink(h, r, 0) && RingLink(h, r, |r| - 1);
    var h', r' := Enringed(h, b, first), r + [b];
    forall i | 0 <= i < |r'| ensures RingLink(h', r', i) {
      if i < |r| {
        assert RingLink(h, r, i);
        assert i > 0 ==> r[0] != r[i];
        assert i < |r| - 1 ==> r[i] != r[|r| - 1];
      }
    }
  }

  lemma EnchainKeeps(h: seq<Head>, c: seq<nat>, first: int, b: nat)
    requires ChainOk(h, c, first) && b < |h| && b !in c
    ensures ChainOk(Enchained(h, b, first), [b] + c, b)
  {
    if c != [] { assert ChainLink(h, c, 0); }
    var h', c' := Enchained(h, b, first), [b] + c;
    forall i | 0 <= i < |c'| ensures ChainLink(h', c', i) {
      if i > 0 {
        assert ChainLink(h, c, i - 1);
        assert i > 1 ==> c[0] != c[i - 1];
      }
    }
  }

  // ----- all lists together -----

  /** The heads, hash_table and free_list. */
  datatype Lists = Lists(h: seq<Head>, hash: seq<int>, first: int)

  ghost predicate Belongs(h: seq<Head>, ring: seq<nat>, n: nat, x: nat) {
    x in ring && x < |h| && h[x].info.key.dev != 0 && Hash(h[x].info.key) == n
  }

  /** The chain of hash value n is well formed and holds exactly the listed buffers that belong. */
  ghost predicate BucketOk(l: Lists, ring: seq<nat>, c: seq<nat>, n: nat) {
    n < |l.hash| && ChainOk(l.h, c, l.hash[n]) && (forall x :: x in c <==> Belongs(l.h, ring, n, x))
  }

  ghost predicate Unkeyed(h: seq<Head>, x: nat) {
    x < |h| && (h[x].info.key.dev == 0 ==> h[x].prev == NULL && h[x].next == NULL)
  }

  /** `ring` lists the buffers of the free list, and chains[n] those of hash value n. */
  ghost predicate ListsOk(l: Lists, ring: seq<nat>, chains: seq<seq<nat>>) {
    && |l.hash| == |chains| == NR_HASH
    && RingOk(l.h, ring, l.first)
    && (forall x :: x in ring ==> Unkeyed(l.h, x))
    && (forall n :: 0 <= n < NR_HASH ==> BucketOk(l, ring, chains[n], n))
  }

  /** remove_from_queues */
  function Removed(l: Lists, b: nat): (r: Lists)
    requires b < |l.h| && |l.hash| == NR_HASH
    ensures |r.h| == |l.h| && |r.hash| == NR_HASH
  {
    var n := Hash(l.h[b].info.key);
    var h1 := Unchained(l.h, b);
    var hash1 := if l.hash[n] == b then l.hash[n := h1[b].next] else l.hash;
    Lists(Unringed(h1, b), hash1, if l.first == b then h1[b].nextFree else l.first)
  }

  /** insert_into_queues; the source's store through an empty chain's NULL is left out. */
  function Inserted(l: Lists, b: nat): (r: Lists)
    requires b < |l.h| && |l.hash| == NR_HASH && 0 <= l.first < |l.h|
    ensures |r.h| == |l.h| && |r.hash| == NR_HASH
  {
    var h1 := Enringed(l.h, b, l.first);
    var h2 := h1[b := h1[b].(prev := NULL, next := NULL)];
    if l.h[b].info.key.dev == 0 then l.(h := h2)
    else
      var n := Hash(l.h[b].info.key);
      Lists(Enchained(h2, b, l.hash[n]), l.hash[n := b], l.first)
  }

  ghost function ChainsWithout(chains: seq<seq<nat>>, n: nat, b: nat): seq<seq<nat>>
    requires n < |chains|
  {
    chains[n := Without(chains[n], b)]
  }

  ghost function ChainsWith(chains: seq<seq<nat>>, k: Key, b: nat): seq<seq<nat>>
    requires |chains| == NR_HASH
  {
    if k.dev == 0 then chains else chains[Hash(k) := [b] + chains[Hash(k)]]
  }

  ghost predicate SameInfo(h: seq<Head>, h': seq<Head>) {
    |h'| == |h| && forall i :: 0 <= i < |h| ==> h'[i].info == h[i].info
  }

  ghost predicate SameFree(h: seq<Head>, h': seq<Head>, x: nat) {
    x < |h| == |h'| && h'[x].nextFree == h[x].nextFree && h'[x].prevFree == h[x].prevFree
  }

  ghost predicate SameHash(h: seq<Head>, h': seq<Head>, x: nat) {
    x < |h| == |h'| && h'[x].next == h[x].next && h'[x].prev == h[x].prev
  }

  /** Another hash value's chain does not notice changes to buffers that do not belong to it. */
  lemma OtherBucket(l: Lists, l': Lists, ring: seq<nat>, ring': seq<nat>, c: seq<nat>, n: nat)
    requires BucketOk(l, ring, c, n) && n < |l'.hash| && l'.hash[n] == l.hash[n] && |l'.h| == |l.h|
    requires forall x :: x in c ==> SameHash(l.h, l'.h, x)
    requires forall x :: Belongs(l.h, ring, n, x) <==> Belongs(l'.h, ring', n, x)
    ensures BucketOk(l', ring', c, n)
  {
    forall i | 0 <= i < |c| ensures ChainLink(l'.h, c, i) {
      assert ChainLink(l.h, c, i);
      assert SameHash(l.h, l'.h, c[i]);
    }
  }

  /** Unlinking the neighbours of a chain's member touches nothing outside the chain. */
  lemma UnchainedFrame(h: seq<Head>, c: seq<nat>, first: int, k: nat, x: nat)
    requires ChainOk(h, c, first) && k < |c| && x < |h|
    ensures c[k] < |h| && SameInfo(h, Unchained(h, c[k])) && SameFree(h, Unchained(h, c[k]), x)
    ensures x !in c ==> SameHash(h, Unchained(h, c[k]), x)
  {
    assert ChainLink(h, c, k);
  }

  /** The chain part of remove_from_queues, for a buffer at place m of its chain. */
  lemma ChainGone(l: Lists, ring: seq<nat>, chains: seq<seq<nat>>, b: nat, m: nat)
    requires ListsOk(l, ring, chains) && b in ring && b < |l.h| && l.h[b].info.key.dev != 0
    requires var c := chains[Hash(l.h[b].info.key)]; m < |c| && c[m] == b
    ensures var n := Hash(l.h[b].info.key);
            var r := Removed(l, b);
            && ChainOk(Unchained(l.h, b), Cut(chains[n], m), r.hash[n])
            && SameInfo(l.h, Unchained(l.h, b))
            && (forall x: nat :: x < |l.h| ==> SameFree(l.h, Unchained(l.h, b), x))
            && (forall x: nat :: x < |l.h| && x !in chains[n] ==> SameHash(l.h, Unchained(l.h, b), x))
  {
    var n := Hash(l.h[b].info.key);
    assert BucketOk(l, ring, chains[n], n);
    UnchainKeeps(l.h, chains[n], l.hash[n], m);
    UnchainedFrame(l.h, chains[n], l.hash[n], m, b);
    forall x: nat | x < |l.h|
      ensures SameFree(l.h, Unchained(l.h, b), x)
      ensures x !in chains[n] ==> SameHash(l.h, Unchained(l.h, b), x)
    {
      UnchainedFrame(l.h, chains[n], l.hash[n], m, x);
    }
    assert Unchained(l.h, b)[b].next == l.h[b].next by {
      assert ChainLink(l.h, chains[n], m);
      if m > 0 { assert chains[n][m - 1] != b; }
      if m + 1 < |chains[n]| { assert chains[n][m + 1] != b; }
    }
  }

  lemma FreeFrame(h: seq<Head>, b: nat, x: nat)
    requires b < |h| && x < |h|
    ensures SameInfo(h, Unringed(h, b)) && SameHash(h, Unringed(h, b), x)
  {
  }

  /** A chain keeps its shape when only the free list's links change. */
  lemma ChainOnly(h: seq<Head>, h': seq<Head>, c: seq<nat>, first: int)
    requires ChainOk(h, c, first) && |h'| == |h| && forall x: nat :: x < |h| ==> SameHash(h, h', x)
    ensures ChainOk(h', c, first)
  {
    forall i | 0 <= i < |c| ensures ChainLink(h', c, i) {
      assert ChainLink(h, c, i);
      assert SameHash(h, h', c[i]);
    }
  }

  lemma RingOnly(h: seq<Head>, h': seq<Head>, r: seq<nat>, first: int)
    requires RingOk(h, r, first) && |h'| == |h| && forall x: nat :: x < |h| ==> SameFree(h, h', x)
    ensures RingOk(h', r, first)
  {
    forall i | 0 <= i < |r| ensures RingLink(h', r, i) {
      assert RingLink(h, r, i);
      assert SameFree(h, h', r[i]);
    }
  }

  /** remove_from_queues of a buffer with a device. */
  lemma RemoveKeyed(l: Lists, ring: seq<nat>, chains: seq<seq<nat>>, b: nat, k: nat)
    requires ListsOk(l, ring, chains) && k < |ring| && ring[k] == b && |ring| >= 2 && b < |l.h|
    requires l.h[b].info.key.dev != 0
    ensures var n := Hash(l.h[b].info.key);
            && SameInfo(l.h, Removed(l, b).h)
            && ListsOk(Removed(l, b), Cut(ring, k), ChainsWithout(chains, n, b))
  {
    var n, r, ring' := Hash(l.h[b].info.key), Removed(l, b), Cut(ring, k);
    var c := chains[n];
    assert BucketOk(l, ring, c, n);
    assert Belongs(l.h, ring, n, b);
    var m :| 0 <= m < |c| && c[m] == b;
    ChainGone(l, ring, chains, b, m);
    var h1 := Unchained(l.h, b);
    RingOnly(l.h, h1, ring, l.first);
    UnringKeeps(h1, ring, l.first, k);
    forall x: nat | x < |l.h| ensures SameHash(h1, r.h, x) && SameInfo(h1, r.h) { FreeFrame(h1, b, x); }
    CutMembers(ring, k);
    CutIsWithout(c, m);
    RemoveFromBucket(l, r, h1, ring, ring', c, n, b, m);
    forall i | 0 <= i < NR_HASH && i != n ensures BucketOk(r, ring', chains[i], i) {
      RemoveOther(l, r, ring, ring', chains, b, i);
    }
    forall x | x in ring' ensures Unkeyed(r.h, x) {
      assert Unkeyed(l.h, x);
      if l.h[x].info.key.dev == 0 {
        assert x in c <==> Belongs(l.h, ring, n, x);
        assert SameHash(l.h, h1, x) && SameHash(h1, r.h, x);
      }
    }
  }

  lemma RemoveFromBucket(l: Lists, r: Lists, h1: seq<Head>, ring: seq<nat>, ring': seq<nat>, c: seq<nat>, n: nat,
      b: nat, m: nat)
    requires BucketOk(l, ring, c, n) && m < |c| && c[m] == b && n < |r.hash|
    requires ChainOk(h1, Cut(c, m), r.hash[n]) && |h1| == |r.h| && SameInfo(l.h, r.h)
    requires forall x: nat :: x < |h1| ==> SameHash(h1, r.h, x)
    requires forall x :: x in ring' <==> x in ring && x != b
    ensures BucketOk(r, ring', Cut(c, m), n)
  {
    CutMembers(c, m);
    ChainOnly(h1, r.h, Cut(c, m), r.hash[n]);
    forall x ensures x in Cut(c, m) <==> Belongs(r.h, ring', n, x) {
      assert x in c <==> Belongs(l.h, ring, n, x);
    }
  }

  lemma RemoveOther(l: Lists, r: Lists, ring: seq<nat>, ring': seq<nat>, chains: seq<seq<nat>>, b: nat, i: nat)
    requires ListsOk(l, ring, chains) && b in ring && b < |l.h| && i < NR_HASH && i != Hash(l.h[b].info.key)
    requires |r.hash| == NR_HASH && r.hash[i] == l.hash[i] && SameInfo(l.h, r.h)
    requires forall x :: x in ring' <==> x in ring && x != b
    requires var h1 := Unchained(l.h, b);
             && (forall x: nat :: x < |l.h| && x !in chains[Hash(l.h[b].info.key)] ==> SameHash(l.h, h1, x))
             && (forall x: nat :: x < |l.h| ==> SameHash(h1, r.h, x))
    ensures BucketOk(r, ring', chains[i], i)
  {
    var n, h1 := Hash(l.h[b].info.key), Unchained(l.h, b);
    assert BucketOk(l, ring, chains[i], i) && BucketOk(l, ring, chains[n], n);
    forall x | x in chains[i] ensures SameHash(l.h, r.h, x) {
      assert Belongs(l.h, ring, i, x) && !Belongs(l.h, ring, n, x);
      assert SameHash(l.h, h1, x) && SameHash(h1, r.h, x);
    }
    OtherBucket(l, r, ring, ring', chains[i], i);
  }

  /** remove_from_queues of a buffer that never had a device: it is in no chain. */
  lemma RemoveUnkeyed(l: Lists, ring: seq<nat>, chains: seq<seq<nat>>, b: nat, k: nat)
    requires ListsOk(l, ring, chains) && k < |ring| && ring[k] == b && |ring| >= 2 && b < |l.h|
    requires l.h[b].info.key.dev == 0
    ensures SameInfo(l.h, Removed(l, b).h)
    ensures ListsOk(Removed(l, b), Cut(ring, k), chains)
  {
    var n, r, ring' := Hash(l.h[b].info.key), Removed(l, b), Cut(ring, k);
    assert Unkeyed(l.h, b);
    assert Unchained(l.h, b) == l.h;
    assert BucketOk(l, ring, chains[n], n);
    assert b !in chains[n];
    UnringKeeps(l.h, ring, l.first, k);
    forall x: nat | x < |l.h| ensures SameHash(l.h, r.h, x) && SameInfo(l.h, r.h) { FreeFrame(l.h, b, x); }
    CutMembers(ring, k);
    forall i | 0 <= i < NR_HASH ensures BucketOk(r, ring', chains[i], i) {
      assert BucketOk(l, ring, chains[i], i);
      forall x ensures Belongs(l.h, ring, i, x) <==> Belongs(r.h, ring', i, x) { }
      OtherBucket(l, r, ring, ring', chains[i], i);
    }
    forall x | x in ring' ensures Unkeyed(r.h, x) { assert Unkeyed(l.h, x) && SameHash(l.h, r.h, x); }
  }

  // ----- insert_into_queues -----

  lemma EnringFrame(h: seq<Head>, b: nat, first: int, x: nat)
    requires b < |h| && 0 <= first < |h| && x < |h|
    ensures SameInfo(h, Enringed(h, b, first)) && SameHash(h, Enringed(h, b, first), x)
  {
  }

  lemma EnchainFrame(h: seq<Head>, c: seq<nat>, first: int, b: nat, x: nat)
    requires ChainOk(h, c, first) && b < |h| && x < |h|
    ensures SameInfo(h, Enchained(h, b, first)) && SameFree(h, Enchained(h, b, first), x)
    ensures x !in c && x != b ==> SameHash(h, Enchained(h, b, first), x)
  {
  }

  /** The middle of insert_into_queues: on the free list, in no chain. */
  ghost predicate Halfway(l: Lists, h: seq<Head>, ring: seq<nat>, b: nat)
    requires b < |l.h|
  {
    && SameInfo(l.h, h) && RingOk(h, ring + [b], l.first)
    && (forall x: nat :: x < |l.h| && x != b ==> SameHash(l.h, h, x))
    && h[b].prev == NULL && h[b].next == NULL
  }

  lemma InsertHalf(l: Lists, ring: seq<nat>, chains: seq<seq<nat>>, b: nat)
    requires ListsOk(l, ring, chains) && b < |l.h| && b !in ring
    ensures 0 <= l.first < |l.h|
    ensures var h1 := Enringed(l.h, b, l.first);
            Halfway(l, h1[b := h1[b].(prev := NULL, next := NULL)], ring, b)
  {
    EnringKeeps(l.h, ring, l.first, b);
    var h1 := Enringed(l.h, b, l.first);
    var h2 := h1[b := h1[b].(prev := NULL, next := NULL)];
    RingOnly(h1, h2, ring + [b], l.first);
    forall x: nat | x < |l.h| ensures SameInfo(l.h, h1) && SameHash(l.h, h1, x) { EnringFrame(l.h, b, l.first, x); }
    forall x: nat | x < |l.h| && x != b ensures SameHash(l.h, h2, x) { assert SameHash(l.h, h1, x); }
  }

  /** A bucket that b does not belong to. */
  lemma InsertOther(l: Lists, r: Lists, ring: seq<nat>, c: seq<nat>, b: nat, i: nat)
    requires BucketOk(l, ring, c, i) && b < |l.h| && b !in ring && SameInfo(l.h, r.h)
    requires i < |r.hash| && r.hash[i] == l.hash[i] && !Belongs(l.h, [b], i, b)
    requires forall x :: x in c ==> SameHash(l.h, r.h, x)
    ensures BucketOk(r, ring + [b], c, i)
  {
    forall x ensures Belongs(l.h, ring, i, x) <==> Belongs(r.h, ring + [b], i, x) {
      assert x in [b] <==> x == b;
    }
    OtherBucket(l, r, ring, ring + [b], c, i);
  }

  lemma InsertUnkeyed(l: Lists, ring: seq<nat>, chains: seq<seq<nat>>, b: nat)
    requires ListsOk(l, ring, chains) && b < |l.h| && b !in ring && l.h[b].info.key.dev == 0
    ensures 0 <= l.first < |l.h|
    ensures SameInfo(l.h, Inserted(l, b).h) && ListsOk(Inserted(l, b), ring + [b], chains)
  {
    InsertHalf(l, ring, chains, b);
    var r := Inserted(l, b);
    forall i | 0 <= i < NR_HASH ensures BucketOk(r, ring + [b], chains[i], i) {
      assert BucketOk(l, ring, chains[i], i);
      forall x | x in chains[i] ensures SameHash(l.h, r.h, x) { assert Belongs(l.h, ring, i, x); }
      InsertOther(l, r, ring, chains[i], b, i);
    }
    forall x | x in ring + [b] ensures Unkeyed(r.h, x) {
      if x != b { assert Unkeyed(l.h, x) && SameHash(l.h, r.h, x); }
    }
  }

  lemma InsertKeyed(l: Lists, ring: seq<nat>, chains: seq<seq<nat>>, b: nat)
    requires ListsOk(l, ring, chains) && b < |l.h| && b !in ring && l.h[b].info.key.dev != 0
    ensures 0 <= l.first < |l.h|
    ensures SameInfo(l.h, Inserted(l, b).h)
    ensures ListsOk(Inserted(l, b), ring + [b], ChainsWith(chains, l.h[b].info.key, b))
  {
    InsertHalf(l, ring, chains, b);
    var n, r := Hash(l.h[b].info.key), Inserted(l, b);
    var c := chains[n];
    var h1 := Enringed(l.h, b, l.first);
    var h2 := h1[b := h1[b].(prev := NULL, next := NULL)];
    assert BucketOk(l, ring, c, n);
    forall x | x in c ensures x != b && SameHash(l.h, h2, x) { assert Belongs(l.h, ring, n, x); }
    InsertChainFrame(l.h, h2, c, l.hash[n]);
    EnchainKeeps(h2, c, l.hash[n], b);
    forall x: nat | x < |l.h|
      ensures SameInfo(h2, r.h) && SameFree(h2, r.h, x)
      ensures x !in c && x != b ==> SameHash(h2, r.h, x)
    {
      EnchainFrame(h2, c, l.hash[n], b, x);
    }
    RingOnly(h2, r.h, ring + [b], l.first);
    forall x ensures x in [b] + c <==> Belongs(r.h, ring + [b], n, x) {
      assert x in c <==> Belongs(l.h, ring, n, x);
    }
    forall i | 0 <= i < NR_HASH && i != n ensures BucketOk(r, ring + [b], chains[i], i) {
      assert BucketOk(l, ring, chains[i], i);
      forall x | x in chains[i] ensures SameHash(l.h, r.h, x) {
        assert Belongs(l.h, ring, i, x) && !Belongs(l.h, ring, n, x);
        assert SameHash(l.h, h2, x) && SameHash(h2, r.h, x);
      }
      InsertOther(l, r, ring, chains[i], b, i);
    }
    forall x | x in ring + [b] ensures Unkeyed(r.h, x) {
      if x != b && l.h[x].info.key.dev == 0 {
        assert Unkeyed(l.h, x) && !Belongs(l.h, ring, n, x);
        assert SameHash(l.h, h2, x) && SameHash(h2, r.h, x);
      }
    }
  }

  lemma InsertChainFrame(h: seq<Head>, h': seq<Head>, c: seq<nat>, first: int)
    requires ChainOk(h, c, first) && forall x :: x in c ==> SameHash(h, h', x)
    ensures ChainOk(h', c, first)
  {
    forall i | 0 <= i < |c| ensures ChainLink(h', c, i) {
      assert ChainLink(h, c, i);
      assert SameHash(h, h', c[i]);
    }
  }

  lemma RemoveKeeps(l: Lists, ring: seq<nat>, chains: seq<seq<nat>>, b: nat) returns (chains': seq<seq<nat>>)
    requires ListsOk(l, ring, chains) && b in ring && |ring| >= 2 && b < |l.h|
    ensures SameInfo(l.h, Removed(l, b).h)
    ensures ListsOk(Removed(l, b), Without(ring, b), chains')
    ensures forall x :: x in Without(ring, b) <==> x in ring && x != b
  {
    var k :| 0 <= k < |ring| && ring[k] == b;
    CutMembers(ring, k);
    CutIsWithout(ring, k);
    if l.h[b].info.key.dev != 0 {
      RemoveKeyed(l, ring, chains, b, k);
      chains' := ChainsWithout(chains, Hash(l.h[b].info.key), b);
    } else {
      RemoveUnkeyed(l, ring, chains, b, k);
      chains' := chains;
    }
  }

  ghost predicate FreshHead(h: Head, prevFree: int, nextFree: int) {
    h == Head(Info(Key(0, h.info.key.block), false, false, 0, false), NULL, NULL, prevFree, nextFree)
  }

  ghost predicate FreshHeads(h: seq<Head>) {
    forall b :: 0 <= b < |h| ==>
      FreshHead(h[b], if b > 0 then b - 1 else |h| - 1, if b + 1 < |h| then b + 1 else 0)
  }

  lemma FreshLists(l: Lists, ring: seq<nat>, chains: seq<seq<nat>>)
    requires |l.h| >= 2 && |l.hash| == |chains| == NR_HASH && l.first == 0 && FreshHeads(l.h) && |ring| == |l.h|
    requires forall n :: 0 <= n < NR_HASH ==> l.hash[n] == NULL && chains[n] == []
    requires forall i :: 0 <= i < |ring| ==> ring[i] == i
    ensures ListsOk(l, ring, chains)
    ensures forall b: nat :: b < |l.h| ==> b in ring
  {
    forall i | 0 <= i < |ring| ensures RingLink(l.h, ring, i) { }
    forall n | 0 <= n < NR_HASH ensures BucketOk(l, ring, chains[n], n) { }
    forall b: nat | b < |l.h| ensures b in ring { assert ring[b] == b; }
  }

  // ----- the queues as the source changes them -----

  ghost function InfosOf(h: seq<Head>): (r: seq<Info>)
    ensures |r| == |h| && forall i :: 0 <= i < |h| ==> r[i] == h[i].info
  {
    seq(|h|, i requires 0 <= i < |h| => h[i].info)
  }

  class BufferQueues {
    const heads: array<Head>
    const hashTable: array<int>
    var freeList: int
    ghost var ring: seq<nat>
    ghost var chains: seq<seq<nat>>

    ghost function L(): Lists
      reads this, heads, hashTable
    {
      Lists(heads[..], hashTable[..], freeList)
    }

    /** Every buffer is on the free list, and in the chain of its key if it has a device. */
    ghost predicate Valid()
      reads this, heads, hashTable
    {
      && heads as object != hashTable
      && ListsOk(L(), ring, chains)
      && (forall b: nat :: b < heads.Length ==> b in ring)
      && (forall i :: 0 <= i < |ring| ==> ring[i] < heads.Length)
    }

    ghost function Infos(): (r: seq<Info>)
      reads heads
      ensures |r| == heads.Length
    {
      InfosOf(heads[..])
    }

    /** The heads of buffer_init, each linked to its neighbours. */
    method LinkHeads()
      requires heads.Length >= 2
      modifies heads
      ensures FreshHeads(heads[..])
    {
      var i := 0;
      while i < heads.Length
        invariant 0 <= i <= heads.Length
        invariant forall b :: 0 <= b < i ==> FreshHead(heads[b], b - 1, b + 1)
      {
        heads[i] := Head(Info(Key(0, heads[i].info.key.block), false, false, 0, false), NULL, NULL, i - 1, i + 1);
        i := i + 1;
      }
      heads[0] := heads[0].(prevFree := heads.Length - 1);
      heads[heads.Length - 1] := heads[heads.Length - 1].(nextFree := 0);
    }

    /** buffer_init: every head on the free list in order, none with a device. */
    method BufferInit()
      requires heads as object != hashTable && heads.Length >= 2 && hashTable.Length == NR_HASH
      modifies this`freeList, this`ring, this`chains, heads, hashTable
      ensures Valid() && FreshHeads(heads[..])
      ensures |ring| == heads.Length && forall i :: 0 <= i < |ring| ==> ring[i] == i
    {
      LinkHeads();
      freeList := 0;
      var i := 0;
      while i < NR_HASH
        invariant 0 <= i <= NR_HASH
        invariant forall n :: 0 <= n < i ==> hashTable[n] == NULL
        modifies hashTable
      {
        hashTable[i] := NULL;
        i := i + 1;
      }
      ring := seq(heads.Length, b => b);
      chains := seq(NR_HASH, n => []);
      FreshLists(L(), ring, chains);
    }

    /** "remove from hash-queue" */
    method RemoveFromHashQueue(b: nat)
      requires heads as object != hashTable && hashTable.Length == NR_HASH && b < heads.Length
      modifies heads, hashTable
      ensures heads[..] == Unchained(old(heads[..]), b)
      ensures hashTable[..] == (var n := Hash(old(heads[b]).info.key);
                                if old(hashTable[n]) == b then old(hashTable[..])[n := heads[b].next]
                                    else old(hashTable[..]))
    {
      var bh := heads[b];
      if 0 <= bh.next < heads.Length {
        heads[bh.next] := heads[bh.next].(prev := bh.prev);
      }
      if 0 <= bh.prev < heads.Length {
        heads[bh.prev] := heads[bh.prev].(next := bh.next);
      }
      var n := Hash(heads[b].info.key);
      if hashTable[n] == b {
        hashTable[n] := heads[b].next;
      }
    }

    /** "remove from free list" */
    method RemoveFromFreeList(b: nat)
      requires heads as object != hashTable && b < heads.Length
      modifies this`freeList, heads
      ensures heads[..] == Unringed(old(heads[..]), b)
      ensures freeList == if old(freeList) == b then old(heads[b]).nextFree else old(freeList)
    {
      var bh := heads[b];
      if 0 <= bh.prevFree < heads.Length {
        heads[bh.prevFree] := heads[bh.prevFree].(nextFree := bh.nextFree);
      }
      if 0 <= bh.nextFree < heads.Length {
        heads[bh.nextFree] := heads[bh.nextFree].(prevFree := bh.prevFree);
      }
      if freeList == b {
        freeList := bh.nextFree;
      }
    }

    /** remove_from_queues */
    method RemoveFromQueues(b: nat)
      requires heads as object != hashTable && ListsOk(L(), ring, chains)
      requires b < heads.Length && b in ring && |ring| >= 2
      modifies this`freeList, this`ring, this`chains, heads, hashTable
      ensures ListsOk(L(), ring, chains) && ring == Without(old(ring), b)
      ensures forall x :: x in ring <==> x in old(ring) && x != b
      ensures Infos() == old(Infos())
    {
      ghost var l := L();
      RemoveFromHashQueue(b);
      RemoveFromFreeList(b);
      assert L() == Removed(l, b);
      chains := RemoveKeeps(l, ring, chains, b);
      ring := Without(ring, b);
    }

    /** insert_into_queues */
    method InsertIntoQueues(b: nat)
      requires heads as object != hashTable && ListsOk(L(), ring, chains)
      requires b < heads.Length && b !in ring
      modifies this`ring, this`chains, heads, hashTable
      ensures ListsOk(L(), ring, chains) && ring == old(ring) + [b]
      ensures Infos() == old(Infos())
    {
      ghost var l := L();
      if l.h[b].info.key.dev == 0 {
        InsertUnkeyed(l, ring, chains, b);
      } else {
        InsertKeyed(l, ring, chains, b);
      }
      assert RingLink(l.h, ring, 0) && RingLink(l.h, ring, |ring| - 1);
      var last := heads[freeList].prevFree;
      heads[b] := heads[b].(nextFree := freeList, prevFree := last);
      heads[last] := heads[last].(nextFree := b);
      heads[freeList] := heads[freeList].(prevFree := b);
      assert heads[..] == Enringed(l.h, b, freeList);
      heads[b] := heads[b].(prev := NULL, next := NULL);
      ring := ring + [b];
      if heads[b].info.key.dev == 0 {
        assert L() == Inserted(l, b);
        return;
      }
      ghost var h2 := heads[..];
      var n := Hash(heads[b].info.key);
      heads[b] := heads[b].(next := hashTable[n]);
      hashTable[n] := b;
      var next := heads[b].next;
      if 0 <= next < heads.Length {
        heads[next] := heads[next].(prev := b);
      }
      assert h2[b].(prev := NULL, next := l.hash[n]) == h2[b].(next := l.hash[n]);
      assert heads[..] == Enchained(h2, b, l.hash[n]);
      assert L() == Inserted(l, b);
      chains := ChainsWith(chains, l.h[b].info.key, b);
    }

    ghost predicate UniqueKeys()
      reads heads
    {
      forall i, j :: 0 <= i < j < heads.Length && heads[i].info.key == heads[j].info.key ==> heads[i].info.key.dev == 0
    }

    /** find_buffer: the walk along one chain finds what a search of all buffers would find. */
    method FindBuffer(k: Key) returns (r: int)
      requires Valid() && UniqueKeys() && k.dev != 0
      ensures r == NULL || 0 <= r < heads.Length
      ensures Find(Infos(), k) == if r == NULL then None else Some(r)
    {
      ghost var n := Hash(k);
      ghost var c := chains[n];
      assert BucketOk(L(), ring, c, n);
      ghost var i := 0;
      var tmp := hashTable[Hash(k)];
      while tmp != NULL
        invariant 0 <= i <= |c| && tmp == if i < |c| then c[i] else NULL
        invariant forall j :: 0 <= j < i ==> c[j] < heads.Length && heads[c[j]].info.key != k
        decreases |c| - i
      {
        assert ChainLink(heads[..], c, i);
        if heads[tmp].info.key == k {
          ghost var f := Find(Infos(), k);
          assert Infos()[tmp].key == k;
          assert heads[f.value].info.key == k;
          return tmp;
        }
        tmp := heads[tmp].next;
        i := i + 1;
      }
      forall b | 0 <= b < heads.Length ensures heads[b].info.key != k {
        if heads[b].info.key == k {
          assert Belongs(heads[..], ring, n, b);
        }
      }
      r := NULL;
    }

    /** getblk's choice: the first unused buffer of least badness on the free list. */
    method FindVictim() returns (r: int)
      requires Valid()
      ensures r == NULL || 0 <= r < heads.Length
      ensures Scan(Infos(), ring, None) == if r == NULL then None else Some(r)
      ensures r == NULL <==> forall j :: 0 <= j < |ring| ==> Infos()[ring[j]].count > 0
      ensures r != NULL ==> exists i :: 0 <= i < |ring| && ring[i] == r && CacheProofs.IsVictim(Infos(), ring, i)
    {
      var tmp := freeList;
      r := NULL;
      ghost var i := 0;
      ghost var infos := Infos();
      CacheProofs.ScanFindsVictim(infos, ring);
      while true
        invariant 0 <= i < |ring| && tmp == ring[i] && -1 <= r < heads.Length
        invariant Scan(infos, ring, None) == Scan(infos, ring[i..], if r == NULL then None else Some(r))
        decreases |ring| - i
      {
        assert RingLink(heads[..], ring, i);
        assert ring[i..][0] == ring[i] && ring[i..][1..] == ring[i + 1..];
        if heads[tmp].info.count == 0 {
          if r == NULL || Badness(heads[tmp].info) < Badness(heads[r].info) {
            r := tmp;
            if Badness(heads[tmp].info) == 0 {
              break;
            }
          }
        }
        tmp := heads[tmp].nextFree;
        i := i + 1;
        if tmp == freeList {
          break;
        }
      }
    }

    /** The last lines of getblk: the buffer becomes the one for block k and moves to the end of
        the free list. */
    method Recycle(b: nat, k: Key)
      requires Valid() && b < heads.Length && |ring| >= 2
      modifies this`freeList, this`ring, this`chains, heads, hashTable
      ensures Valid()
      ensures Infos() == old(Infos())[b := Info(k, false, false, 1, old(heads[b].info.lock))]
      ensures ring == Without(old(ring), b) + [b]
    {
      var i := heads[b].info;
      heads[b] := heads[b].(info := Info(i.key, false, false, 1, i.lock));
      InfoKept(old(L()), L(), ring, chains, b);
      RemoveFromQueues(b);
      ghost var l := L();
      heads[b] := heads[b].(info := Info(k, false, false, 1, i.lock));
      OutsideKept(l, L(), ring, chains, b);
      InsertIntoQueues(b);
      forall j | 0 <= j < |ring| ensures ring[j] < heads.Length {
        assert ring[j] in ring;
      }
    }

    // ----- getblk between two sleeps -----

    /** The heads and the free list are those of the machine's state s. */
    ghost predicate Shows(s: Cache)
      reads this, heads, hashTable
    {
      Valid() && heads.Length >= 2 && CacheMachine.Inv(s) && Infos() == s.infos && ring == s.ring
    }

    lemma KeysUnique(s: Cache)
      requires Shows(s)
      ensures UniqueKeys()
    {
      forall i, j | 0 <= i < j < heads.Length && heads[i].info.key == heads[j].info.key
        ensures heads[i].info.key.dev == 0 {
        assert Infos()[i] == heads[i].info && Infos()[j] == heads[j].info;
        assert Unique(s, i, j);
      }
    }

    /** `bh->b_count++` */
    method Count(b: nat)
      requires Valid() && b < heads.Length
      modifies heads
      ensures Valid() && Infos() == old(Infos())[b := old(heads[b]).info.(count := old(heads[b]).info.count + 1)]
    {
      var i := heads[b].info;
      heads[b] := heads[b].(info := i.(count := i.count + 1));
      InfoKept(old(L()), L(), ring, chains, b);
    }

    /** getblk from `wait_on_buffer(bh)` on, up to its next sleep or its return: what the machine's
        TryEvict does to the heads, the free list and the task. */
    method TryEvict(t: nat, k: Key, b: nat, ghost s: Cache) returns (pc: Pc)
      requires Shows(s) && b < heads.Length && k.dev != 0
      modifies this`freeList, this`ring, this`chains, heads, hashTable
      ensures Valid() && Infos() == CacheMachine.TryEvict(s, t, k, b).infos &&
              ring == CacheMachine.TryEvict(s, t, k, b).ring
      ensures pc == PcOf(CacheMachine.TryEvict(s, t, k, b), t)
    {
      assert Infos()[b] == heads[b].info;
      if heads[b].info.lock {
        return Evict(k, b);
      }
      if heads[b].info.count > 0 {
        return Begin(k);
      }
      if heads[b].info.dirty {
        return Syncing(k, b);
      }
      KeysUnique(s);
      var other := FindBuffer(k);
      if other != NULL {
        return Begin(k);
      }
      RingSize();
      Recycle(b, k);
      pc := Idle;
    }

    lemma RingSize()
      requires Valid() && heads.Length >= 2
      ensures |ring| >= 2
    {
      assert 0 in ring && 1 in ring;
      var i :| 0 <= i < |ring| && ring[i] == 0;
      var j :| 0 <= j < |ring| && ring[j] == 1;
    }

    /** getblk from `repeat` on, up to its next sleep or its return: what the machine's Attempt does,
        through the hash chains and the free list. */
    method Attempt(t: nat, k: Key, ghost s: Cache) returns (pc: Pc)
      requires Shows(s) && k.dev != 0
      modifies this`freeList, this`ring, this`chains, heads, hashTable
      ensures Valid() && Infos() == CacheMachine.Attempt(s, t, k).infos && ring == CacheMachine.Attempt(s, t, k).ring
      ensures pc == PcOf(CacheMachine.Attempt(s, t, k), t)
    {
      KeysUnique(s);
      var b := FindBuffer(k);
      if b != NULL {
        var locked := heads[b].info.lock;
        assert Infos()[b] == heads[b].info;
        Count(b);
        return if locked then HashWait(k, b) else Idle;
      }
      var victim := FindVictim();
      if victim == NULL {
        return Begin(k);
      }
      pc := TryEvict(t, k, victim, s);
    }
  }

  /** Fields that are no keys and no links do not matter to the lists. */
  lemma InfoKept(l: Lists, l': Lists, ring: seq<nat>, chains: seq<seq<nat>>, b: nat)
    requires ListsOk(l, ring, chains) && b < |l.h| && l'.hash == l.hash && l'.first == l.first
    requires |l'.h| == |l.h| && forall x :: 0 <= x < |l.h| ==>
             l'.h[x] == l.h[x].(info := l'.h[x].info) && l'.h[x].info.key == l.h[x].info.key
    ensures ListsOk(l', ring, chains)
  {
    RingOnly(l.h, l'.h, ring, l.first);
    forall n | 0 <= n < NR_HASH ensures BucketOk(l', ring, chains[n], n) {
      assert BucketOk(l, ring, chains[n], n);
      forall x | x in chains[n] ensures SameHash(l.h, l'.h, x) { assert Belongs(l.h, ring, n, x); }
      forall x ensures Belongs(l.h, ring, n, x) <==> Belongs(l'.h, ring, n, x) { }
      OtherBucket(l, l', ring, ring, chains[n], n);
    }
    forall x | x in ring ensures Unkeyed(l'.h, x) { assert Unkeyed(l.h, x); }
  }

  /** Nor does anything in a buffer that is on no list. */
  lemma OutsideKept(l: Lists, l': Lists, ring: seq<nat>, chains: seq<seq<nat>>, b: nat)
    requires ListsOk(l, ring, chains) && b < |l.h| && b !in ring && l'.hash == l.hash && l'.first == l.first
    requires |l'.h| == |l.h| && l'.h == l.h[b := l'.h[b]]
    ensures ListsOk(l', ring, chains)
  {
    forall i | 0 <= i < |ring| ensures RingLink(l'.h, ring, i) {
      assert RingLink(l.h, ring, i) && ring[i] in ring;
    }
    forall n | 0 <= n < NR_HASH ensures BucketOk(l', ring, chains[n], n) {
      assert BucketOk(l, ring, chains[n], n);
      forall x | x in chains[n] ensures SameHash(l.h, l'.h, x) { assert Belongs(l.h, ring, n, x); }
      forall x ensures Belongs(l.h, ring, n, x) <==> Belongs(l'.h, ring, n, x) { }
      OtherBucket(l, l', ring, ring, chains[n], n);
    }
    forall x | x in ring ensures Unkeyed(l'.h, x) { assert Unkeyed(l.h, x); }
  }
}
