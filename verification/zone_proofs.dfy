/** What allocating blocks keeps: the trees and the bitmap agree, every other block of every file
    stays where it is, and no byte of any file changes. */
module ZoneProofs {
  import opened ZoneTree

  ghost predicate SamePlaces(s: Fs, s': Fs) {
    && Shape(s) && Shape(s') && s'.first == s.first && s'.nzones == s.nzones
    && |s'.bits| == |s.bits| && |s'.inodes| == |s.inodes|
    && (forall n :: 0 <= n < |s.inodes| ==>
          s'.inodes[n].isFile == s.inodes[n].isFile && s'.inodes[n].size == s.inodes[n].size)
  }

  lemma ParentIsPos(s: Fs, p: Pos)
    requires IsPos(s, p) && !p.Top?
    ensures IsPos(s, Parent(p)) && IsTable(Parent(p)) && Rank(Parent(p)) < Rank(p)
  {
  }

  /** Two places of one index block that lie at the same index are one. */
  lemma Siblings(p: Pos, q: Pos)
    requires !p.Top? && !q.Top? && Parent(p) == Parent(q) && IndexIn(p) == IndexIn(q)
    ensures p == q
  {
  }

  // ----- new_block -----

  /** A zone whose bit was clear was nobody's, so nobody's tree changes. */
  lemma {:induction false} NewBlockAt(s: Fs, q: Pos)
    requires Inv(s) && IsPos(s, q)
    ensures ZoneAt(NewBlock(s).0, q) == ZoneAt(s, q)
    decreases Rank(q)
  {
    NewBlockZone(s);
    if !q.Top? {
      ParentIsPos(s, q);
      NewBlockAt(s, Parent(q));
      assert PosOk(s, Parent(q));
    }
  }

  /** The new zone z has been hung up at p. */
  lemma {:induction false} AttachAt(s: Fs, p: Pos, q: Pos)
    requires Inv(s) && IsPos(s, p) && IsPos(s, q) && ZoneAt(s, p) == 0
    requires !p.Top? ==> ZoneAt(s, Parent(p)) != 0
    requires NewBlock(s).1 != 0
    ensures var (s1, z) := NewBlock(s);
            z < 65536 && ZoneAt(Attach(s1, p, z), q) == if q == p then z else ZoneAt(s, q)
    decreases Rank(q)
  {
    NewBlockZone(s);
    var (s1, z) := NewBlock(s);
    NewBlockAt(s, q);
    if !p.Top? {
      ParentIsPos(s, p);
      NewBlockAt(s, Parent(p));
      assert PosOk(s, Parent(p));
    }
    if !q.Top? {
      var s2 := Attach(s1, p, z);
      ParentIsPos(s, q);
      AttachAt(s, p, Parent(q));
      NewBlockAt(s, Parent(q));
      assert PosOk(s, Parent(q));
      var t := ZoneAt(s2, Parent(q));
      if Parent(q) == p {
        assert t == z;
        assert s2.blocks[z] == ZeroBlock() by {
          if !p.Top? { assert ZoneAt(s1, Parent(p)) != z; }
        }
      } else if !p.Top? && t == ZoneAt(s, Parent(p)) {
        assert Apart(s, Parent(q), Parent(p));
        EntrySet(s1.blocks[t], IndexIn(p), z, IndexIn(q));
        if IndexIn(p) == IndexIn(q) { Siblings(p, q); }
      }
    }
  }

  /** A block that holds data is not an index block. */
  lemma AttachData(s: Fs, p: Pos, q: Pos)
    requires Inv(s) && IsPos(s, p) && IsPos(s, q) && ZoneAt(s, p) == 0 && !IsTable(q)
    requires !p.Top? ==> ZoneAt(s, Parent(p)) != 0
    requires NewBlock(s).1 != 0
    ensures var (s1, z) := NewBlock(s);
            var zq := ZoneAt(s, q);
            && z < 65536
            && (zq != 0 ==> InZones(s, zq) && zq != z && Attach(s1, p, z).blocks[zq] == s.blocks[zq])
            && Attach(s1, p, z).blocks[z] == ZeroBlock()
  {
    NewBlockZone(s);
    assert PosOk(s, q);
    if !p.Top? {
      ParentIsPos(s, p);
      NewBlockAt(s, Parent(p));
      assert PosOk(s, Parent(p));
      assert Apart(s, q, Parent(p));
    }
  }

  /** The new zone z is at p and nowhere else; all other places are as they were. */
  ghost predicate Hung(s: Fs, r: Fs, p: Pos, z: nat) {
    && SamePlaces(s, r) && InZones(s, z) && !Used(s, z) && r.bits == s.bits[BitOf(s, z) := true]
    && IsPos(s, p) && ZoneAt(s, p) == 0
    && (forall q :: IsPos(s, q) ==> HungAt(s, r, p, z, q))
  }

  ghost predicate HungAt(s: Fs, r: Fs, p: Pos, z: nat, q: Pos)
    requires Shape(s) && Shape(r) && IsPos(s, q)
  {
    IsPos(r, q) && ZoneAt(r, q) == if q == p then z else ZoneAt(s, q)
  }

  lemma HungPlaces(s: Fs, r: Fs, p: Pos, z: nat, q: Pos, q': Pos)
    requires Inv(s) && Hung(s, r, p, z)
    ensures PosOk(r, q) && Apart(r, q, q')
  {
    assert PosOk(s, q) && PosOk(s, q') && Apart(s, q, q');
    if IsPos(r, q) { assert HungAt(s, r, p, z, q); }
    if IsPos(r, q') { assert HungAt(s, r, p, z, q'); }
  }

  lemma HungOwner(s: Fs, r: Fs, p: Pos, z: nat, x: nat)
    requires Inv(s) && Hung(s, r, p, z) && InZones(r, x) && Used(r, x)
    ensures HasOwner(r, x)
  {
    if x == z {
      assert HungAt(s, r, p, z, p);
      assert Owns(r, p, x);
    } else {
      assert Accounted(s, x);
      var q :| Owns(s, q, x);
      assert HungAt(s, r, p, z, q);
      assert Owns(r, q, x);
    }
  }

  lemma AttachInv(s: Fs, p: Pos)
    requires Inv(s) && IsPos(s, p) && ZoneAt(s, p) == 0
    requires !p.Top? ==> ZoneAt(s, Parent(p)) != 0
    requires NewBlock(s).1 != 0
    ensures var (s1, z) := NewBlock(s);
            z < 65536 && Inv(Attach(s1, p, z)) && SamePlaces(s, Attach(s1, p, z))
  {
    NewBlockZone(s);
    var (s1, z) := NewBlock(s);
    var r := Attach(s1, p, z);
    forall q | IsPos(s, q) ensures HungAt(s, r, p, z, q) { AttachAt(s, p, q); }
    assert Hung(s, r, p, z);
    forall q ensures PosOk(r, q) { HungPlaces(s, r, p, z, q, q); }
    forall q, q' ensures Apart(r, q, q') { HungPlaces(s, r, p, z, q, q'); }
    forall x ensures Accounted(r, x) {
      if InZones(r, x) && Used(r, x) { HungOwner(s, r, p, z, x); }
    }
  }

  // ----- Ensure -----

  /** Between s and s' only the hole at p may have been filled. */
  ghost predicate Grown(s: Fs, s': Fs, p: Pos, q: Pos)
    requires SamePlaces(s, s')
  {
    IsPos(s, q) ==>
      && IsPos(s', q)
      && (q != p ==> ZoneAt(s', q) == ZoneAt(s, q))
      && (!IsTable(q) && ZoneAt(s, q) != 0 ==>
            InZones(s, ZoneAt(s, q)) && ZoneAt(s', q) == ZoneAt(s, q) &&
                s'.blocks[ZoneAt(s, q)] == s.blocks[ZoneAt(s, q)])
      && (!IsTable(q) && ZoneAt(s, q) == 0 && ZoneAt(s', q) != 0 ==>
            InZones(s, ZoneAt(s', q)) && s'.blocks[ZoneAt(s', q)] == ZeroBlock())
  }

  lemma EnsureKeeps(s: Fs, p: Pos)
    requires Inv(s) && IsPos(s, p)
    requires !p.Top? ==> ZoneAt(s, Parent(p)) != 0
    ensures var (s', z) := Ensure(s, p);
            && Inv(s') && SamePlaces(s, s') && IsPos(s', p)
            && ZoneAt(s', p) == z
            && (forall q :: Grown(s, s', p, q))
            && (z == 0 ==> s' == s && forall k :: 0 <= k < |s.bits| ==> s.bits[k])
  {
    NewBlockZone(s);
    var (s', z) := Ensure(s, p);
    if ZoneAt(s, p) == 0 && NewBlock(s).1 != 0 {
      AttachInv(s, p);
      AttachAt(s, p, p);
      forall q ensures Grown(s, s', p, q) {
        if IsPos(s, q) {
          AttachAt(s, p, q);
          if !IsTable(q) { AttachData(s, p, q); }
        }
      }
    } else {
      forall q ensures Grown(s, s', p, q) { assert PosOk(s, q); }
    }
  }

  /** Filling holes changes no byte of any file. */
  lemma GrownBytes(s: Fs, s': Fs, p: Pos, n: nat, off: nat)
    requires Inv(s) && Inv(s') && SamePlaces(s, s') && (forall q :: Grown(s, s', p, q))
    requires IsFile(s, n) && off < MAX_BLOCKS * BLOCK_SIZE
    ensures ByteAt(s', n, off) == ByteAt(s, n, off)
  {
    var q := PlaceOf(n, off / BLOCK_SIZE);
    PlaceIsPos(s, n, off / BLOCK_SIZE);
    assert Grown(s, s', p, q);
    assert PosOk(s, q);
  }

  // ----- create_block -----

  /** What create_block promises the rest of the file system. */
  ghost predicate Created(s: Fs, s': Fs, n: nat, b: nat)
    requires b < MAX_BLOCKS
  {
    && SamePlaces(s, s') && Inv(s')
    && (forall m: nat, c: nat :: IsFile(s, m) && c < MAX_BLOCKS && (m, c) != (n, b) ==> Bmap(s', m, c) == Bmap(s, m, c))
    && (forall m: nat, off: nat :: IsFile(s, m) && off < MAX_BLOCKS * BLOCK_SIZE ==>
        ByteAt(s', m, off) == ByteAt(s, m, off))
  }

  lemma EnsureCreated(s: Fs, p: Pos, n: nat, b: nat)
    requires Inv(s) && IsPos(s, p) && b < MAX_BLOCKS && (IsTable(p) || p == PlaceOf(n, b))
    requires !p.Top? ==> ZoneAt(s, Parent(p)) != 0
    ensures Created(s, Ensure(s, p).0, n, b)
  {
    EnsureKeeps(s, p);
    var s' := Ensure(s, p).0;
    forall m: nat, c: nat | IsFile(s, m) && c < MAX_BLOCKS && (m, c) != (n, b) ensures Bmap(s', m, c) == Bmap(s, m, c) {
      PlaceIsPos(s, m, c);
      if PlaceOf(m, c) == PlaceOf(n, b) { PlacesApart(m, c, n, b); }
      assert Grown(s, s', p, PlaceOf(m, c));
    }
    forall m: nat, off: nat | IsFile(s, m) && off < MAX_BLOCKS * BLOCK_SIZE
      ensures ByteAt(s', m, off) == ByteAt(s, m, off) {
      GrownBytes(s, s', p, m, off);
    }
  }

  lemma CreatedTrans(s: Fs, s1: Fs, s2: Fs, n: nat, b: nat)
    requires Shape(s) && b < MAX_BLOCKS && Created(s, s1, n, b) && Created(s1, s2, n, b)
    ensures Created(s, s2, n, b)
  {
  }

  /** create_block adds block b of inode n to the map and leaves every other block of every inode,
      and every byte of every file, as it was; later lookups agree with its answer. It fails only
      when the bitmap is full. */
  lemma CreateBlockKeeps(s: Fs, n: nat, b: nat)
    requires Inv(s) && IsFile(s, n) && b < MAX_BLOCKS
    ensures var (s', z) := CreateBlock(s, n, b);
            && Created(s, s', n, b)
            && Bmap(s', n, b) == z
            && (Bmap(s, n, b) != 0 ==> z == Bmap(s, n, b))
            && (z == 0 ==> forall k :: 0 <= k < |s'.bits| ==> s'.bits[k])
  {
    var p := PlaceOf(n, b);
    PlaceIsPos(s, n, b);
    if p.Top? {
      EnsureKeeps(s, p);
      EnsureCreated(s, p, n, b);
    } else if p.Single? {
      CreateBelow(s, Top(n, 7), n, b);
    } else {
      EnsureKeeps(s, Top(n, 8));
      EnsureCreated(s, Top(n, 8), n, b);
      var (s1, t) := Ensure(s, Top(n, 8));
      assert Grown(s, s1, Top(n, 8), p);
      if t != 0 {
        CreateBelow(s1, Parent(p), n, b);
        var (s2, m) := Ensure(s1, Parent(p));
        CreatedTrans(s, s1, CreateBlock(s, n, b).0, n, b);
      } else {
        HoleBelow(s1, p);
      }
    }
  }

  /** Below a missing index block there are only holes. */
  lemma HoleBelow(s: Fs, p: Pos)
    requires Shape(s) && IsPos(s, p) && !p.Top?
    requires ZoneAt(s, Parent(p)) == 0 || (p.Leaf? && ZoneAt(s, Top(p.n, 8)) == 0)
    ensures ZoneAt(s, p) == 0
  {
    if p.Leaf? && ZoneAt(s, Top(p.n, 8)) == 0 { assert ZoneAt(s, Parent(p)) == 0; }
  }

  /** The last two levels: the index block at t, then the block itself. */
  lemma CreateBelow(s: Fs, t: Pos, n: nat, b: nat)
    requires Inv(s) && IsFile(s, n) && b < MAX_BLOCKS && !PlaceOf(n, b).Top? && t == Parent(PlaceOf(n, b))
    requires IsPos(s, t) && (!t.Top? ==> ZoneAt(s, Parent(t)) != 0)
    ensures var (s1, m) := Ensure(s, t);
            && IsFile(s1, n) && IsPos(s1, PlaceOf(n, b))
            && var (s', z) := if m == 0 then (s1, 0) else Ensure(s1, PlaceOf(n, b));
            && Created(s, s', n, b)
            && Bmap(s', n, b) == z
            && (Bmap(s, n, b) != 0 ==> z == Bmap(s, n, b))
            && (z == 0 ==> forall k :: 0 <= k < |s'.bits| ==> s'.bits[k])
  {
    var p := PlaceOf(n, b);
    PlaceIsPos(s, n, b);
    EnsureKeeps(s, t);
    EnsureCreated(s, t, n, b);
    var (s1, m) := Ensure(s, t);
    assert Grown(s, s1, t, p);
    if m != 0 {
      EnsureKeeps(s1, p);
      EnsureCreated(s1, p, n, b);
      CreatedTrans(s, s1, Ensure(s1, p).0, n, b);
    } else {
      HoleBelow(s, p);
    }
  }

  /** Asking again changes nothing. */
  lemma CreateBlockIdempotent(s: Fs, n: nat, b: nat)
    requires Inv(s) && IsFile(s, n) && b < MAX_BLOCKS && Bmap(s, n, b) != 0
    ensures CreateBlock(s, n, b) == (s, Bmap(s, n, b))
  {
    var p := PlaceOf(n, b);
    PlaceIsPos(s, n, b);
    if !p.Top? {
      if ZoneAt(s, Parent(p)) == 0 || (p.Leaf? && ZoneAt(s, Top(n, 8)) == 0) { HoleBelow(s, p); }
    }
  }

  /** The block map is injective: no two blocks of any files share a zone. */
  lemma BmapInjective(s: Fs, n: nat, b: nat, m: nat, c: nat)
    requires Inv(s) && IsFile(s, n) && IsFile(s, m) && b < MAX_BLOCKS && c < MAX_BLOCKS
    requires Bmap(s, n, b) == Bmap(s, m, c) != 0
    ensures n == m && b == c
  {
    PlaceIsPos(s, n, b);
    PlaceIsPos(s, m, c);
    assert Apart(s, PlaceOf(n, b), PlaceOf(m, c));
    PlacesApart(n, b, m, c);
  }

  // ----- an empty device -----

  /** As made: no inode has blocks, and only the bits that are no data zone's are set. */
  ghost predicate Fresh(s: Fs) {
    && Shape(s)
    && (forall k :: 0 <= k < |s.bits| ==> (s.bits[k] <==> k == 0 || s.nzones - s.first < k))
    && (forall n, k :: 0 <= n < |s.inodes| && 0 <= k < 9 ==> s.inodes[n].zone[k] == 0)
  }

  lemma {:induction false} FreshPlace(s: Fs, p: Pos)
    requires Fresh(s) && IsPos(s, p)
    ensures ZoneAt(s, p) == 0
    decreases ZoneTree.Rank(p)
  {
    if !p.Top? { FreshPlace(s, Parent(p)); }
  }

  lemma FreshInv(s: Fs)
    requires Fresh(s)
    ensures Inv(s) && forall n: nat, b: nat :: IsFile(s, n) && b < MAX_BLOCKS ==> Bmap(s, n, b) == 0
  {
    forall p ensures PosOk(s, p) { if IsPos(s, p) { FreshPlace(s, p); } }
    forall p, q ensures Apart(s, p, q) { if IsPos(s, p) { FreshPlace(s, p); } }
    forall z ensures Accounted(s, z) {}
    forall n: nat, b: nat | IsFile(s, n) && b < MAX_BLOCKS ensures Bmap(s, n, b) == 0 {
      PlaceIsPos(s, n, b);
      FreshPlace(s, PlaceOf(n, b));
    }
  }
}
