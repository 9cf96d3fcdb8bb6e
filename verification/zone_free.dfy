/** What freeing and writing blocks do to the trees: the steps of truncate (fs/truncate.c), which
    work on a tree whose zones are already partly freed, and a store into a data block. */
module ZoneFree {
  import opened ZoneTree
  import opened ZoneProofs

  // ----- free_block -----

  /** The bit is cleared, and whatever the cache had of the block is dropped. */
  function FreedBlock(s: Fs, z: nat, junk: Block): (r: Fs)
    requires Shape(s) && InZones(s, z)
    ensures Shape(r)
  {
    s.(bits := s.bits[BitOf(s, z) := false], blocks := s.blocks[z := junk])
  }

  ghost predicate Gone(s: Fs, done: iset<Pos>, z: nat)
    requires Shape(s)
  {
    exists p :: p in done && Owns(s, p, z)
  }

  /** s is s0 with the zones of the places in `done` freed; the places themselves still stand. */
  ghost predicate FreedTo(s0: Fs, s: Fs, done: iset<Pos>) {
    && Shape(s0) && Shape(s) && s.first == s0.first && s.nzones == s0.nzones
    && s.inodes == s0.inodes && |s.bits| == |s0.bits|
    && (forall k :: 0 <= k < |s.bits| && !InZones(s0, k + s0.first - 1) ==> s.bits[k] == s0.bits[k])
    && (forall z :: FreedZone(s0, s, done, z))
  }

  ghost predicate FreedZone(s0: Fs, s: Fs, done: iset<Pos>, z: nat)
    requires Shape(s0) && Shape(s) && s.first == s0.first && s.nzones == s0.nzones
  {
    InZones(s0, z) ==>
      && (Used(s, z) <==> Used(s0, z) && !Gone(s0, done, z))
      && (!Gone(s0, done, z) ==> s.blocks[z] == s0.blocks[z])
  }

  lemma OnlyOwner(s: Fs, p: Pos, q: Pos)
    requires Inv(s) && IsPos(s, p) && ZoneAt(s, p) != 0 && Owns(s, q, ZoneAt(s, p))
    ensures q == p
  {
    assert Apart(s, p, q);
  }

  /** The zone of a place not yet done is still in use, so free_block finds its bit set; and the
      block still holds what it held. */
  lemma StillThere(s0: Fs, s: Fs, done: iset<Pos>, p: Pos)
    requires Inv(s0) && FreedTo(s0, s, done) && IsPos(s0, p) && p !in done && ZoneAt(s0, p) != 0
    ensures var z := ZoneAt(s0, p);
            InZones(s0, z) && Used(s, z) && s.blocks[z] == s0.blocks[z] && !Gone(s0, done, z)
  {
    var z := ZoneAt(s0, p);
    assert PosOk(s0, p);
    forall q | Owns(s0, q, z) ensures q == p { OnlyOwner(s0, p, q); }
    assert FreedZone(s0, s, done, z);
  }

  lemma GoneMore(s0: Fs, done: iset<Pos>, p: Pos, z: nat)
    requires Shape(s0) && IsPos(s0, p)
    ensures Gone(s0, done + iset{p}, z) <==> Gone(s0, done, z) || z == ZoneAt(s0, p)
  {
    if Gone(s0, done, z) {
      var q :| q in done && Owns(s0, q, z);
      assert q in done + iset{p};
    }
    if z == ZoneAt(s0, p) {
      assert p in done + iset{p} && Owns(s0, p, z);
    }
  }

  lemma FreeStepZone(s0: Fs, s: Fs, done: iset<Pos>, p: Pos, junk: Block, z: nat)
    requires Inv(s0) && FreedTo(s0, s, done) && IsPos(s0, p) && InZones(s0, ZoneAt(s0, p))
    ensures FreedZone(s0, FreedBlock(s, ZoneAt(s0, p), junk), done + iset{p}, z)
  {
    assert FreedZone(s0, s, done, z);
    GoneMore(s0, done, p, z);
  }

  lemma FreeStep(s0: Fs, s: Fs, done: iset<Pos>, p: Pos, junk: Block)
    requires Inv(s0) && FreedTo(s0, s, done) && IsPos(s0, p) && p !in done && ZoneAt(s0, p) != 0
    ensures InZones(s0, ZoneAt(s0, p)) && Used(s, ZoneAt(s0, p))
    ensures FreedTo(s0, FreedBlock(s, ZoneAt(s0, p), junk), done + iset{p})
  {
    StillThere(s0, s, done, p);
    forall z ensures FreedZone(s0, FreedBlock(s, ZoneAt(s0, p), junk), done + iset{p}, z) {
      FreeStepZone(s0, s, done, p, junk, z);
    }
  }

  /** Places without a zone can be counted as done. */
  lemma SkipHoles(s0: Fs, s: Fs, done: iset<Pos>, holes: iset<Pos>)
    requires FreedTo(s0, s, done)
    requires forall q :: q in holes && IsPos(s0, q) ==> ZoneAt(s0, q) == 0
    ensures FreedTo(s0, s, done + holes)
  {
    forall z ensures FreedZone(s0, s, done + holes, z) {
      assert FreedZone(s0, s, done, z);
      if Gone(s0, done, z) {
        var q :| q in done && Owns(s0, q, z);
        assert q in done + holes;
      }
    }
  }

  // ----- what lies below a place -----

  function Child(p: Pos, i: nat): Pos
    requires IsTable(p) && i < PER_BLOCK
  {
    if p.Mid? then Leaf(p.n, p.i, i) else if p.k == 7 then Single(p.n, i) else Mid(p.n, i)
  }

  /** The first i entries of the index block at p. */
  ghost function Children(p: Pos, i: nat): iset<Pos> {
    iset q: Pos | !q.Top? && Parent(q) == p && IndexIn(q) < i
  }

  lemma ChildrenGrow(p: Pos, i: nat)
    requires IsTable(p) && i < PER_BLOCK && (p.Top? ==> p.k <= 8)
    ensures Children(p, i + 1) == Children(p, i) + iset{Child(p, i)}
    ensures Child(p, i) !in Children(p, i)
    ensures Parent(Child(p, i)) == p && IndexIn(Child(p, i)) == i
  {
    forall q ensures q in Children(p, i + 1) <==> q in Children(p, i) + iset{Child(p, i)} {
      if q in Children(p, i + 1) && IndexIn(q) == i { Siblings(q, Child(p, i)); }
    }
  }

  /** The first i subtrees of the double index block. */
  ghost function Subtrees(n: nat, i: nat): iset<Pos> {
    iset q: Pos | q.n == n && (q.Mid? || (q.Leaf? && q.j < PER_BLOCK)) && q.i < i
  }

  lemma SubtreesGrow(n: nat, i: nat)
    ensures Subtrees(n, i + 1) == Subtrees(n, i) + Children(Mid(n, i), PER_BLOCK) + iset{Mid(n, i)}
  {
  }

  /** Only places of the tree matter. */
  lemma SameDone(s0: Fs, s: Fs, done: iset<Pos>, done': iset<Pos>)
    requires FreedTo(s0, s, done)
    requires forall q :: IsPos(s0, q) ==> (q in done <==> q in done')
    ensures FreedTo(s0, s, done')
  {
    forall z ensures FreedZone(s0, s, done', z) {
      assert FreedZone(s0, s, done, z);
      assert Gone(s0, done, z) <==> Gone(s0, done', z);
    }
  }

  // ----- the inode let go -----

  ghost function AllOf(n: nat): iset<Pos> { iset q: Pos | q.n == n }

  function Emptied(s: Fs, n: nat): (r: Fs)
    requires Shape(s) && n < |s.inodes|
    ensures Shape(r)
  {
    s.(inodes := s.inodes[n := s.inodes[n].(zone := seq(9, _ => 0), size := 0)])
  }

  /** A place of another inode keeps its zone: its index blocks were not among those freed. */
  lemma {:induction false} OtherPlace(s0: Fs, s: Fs, n: nat, q: Pos)
    requires Inv(s0) && FreedTo(s0, s, AllOf(n)) && n < |s0.inodes| && IsPos(s0, q) && q.n != n
    ensures ZoneAt(Emptied(s, n), q) == ZoneAt(s0, q)
    decreases ZoneTree.Rank(q)
  {
    if !q.Top? {
      var p := Parent(q);
      ParentIsPos(s0, q);
      OtherPlace(s0, s, n, p);
      if ZoneAt(s0, p) != 0 { StillThere(s0, s, AllOf(n), p); }
    }
  }

  lemma {:induction false} OwnPlace(s: Fs, n: nat, q: Pos)
    requires Shape(s) && n < |s.inodes| && IsPos(s, q) && q.n == n
    ensures ZoneAt(Emptied(s, n), q) == 0
    decreases ZoneTree.Rank(q)
  {
    if !q.Top? {
      ParentIsPos(s, q);
      OwnPlace(s, n, Parent(q));
    }
  }

  ghost predicate OwnedBy(s: Fs, n: nat, z: nat)
    requires Shape(s)
  {
    exists p: Pos :: p.n == n && Owns(s, p, z)
  }

  lemma TruncatedBit(s0: Fs, s: Fs, n: nat, z: nat)
    requires Inv(s0) && FreedTo(s0, s, AllOf(n)) && n < |s0.inodes| && InZones(s0, z)
    ensures Used(s, z) <==> Used(s0, z) && !OwnedBy(s0, n, z)
    ensures Used(s, z) ==> HasOwner(Emptied(s, n), z)
  {
    assert FreedZone(s0, s, AllOf(n), z);
    assert Gone(s0, AllOf(n), z) <==> OwnedBy(s0, n, z) by {
      if OwnedBy(s0, n, z) {
        var p: Pos :| p.n == n && Owns(s0, p, z);
        assert p in AllOf(n);
      }
    }
    if Used(s, z) {
      assert Accounted(s0, z);
      var q :| Owns(s0, q, z);
      assert q !in AllOf(n);
      OtherPlace(s0, s, n, q);
      assert Owns(Emptied(s, n), q, z);
    }
  }

  lemma TruncatedPlace(s0: Fs, s: Fs, n: nat, q: Pos)
    requires Inv(s0) && FreedTo(s0, s, AllOf(n)) && IsFile(s0, n)
    ensures PosOk(Emptied(s, n), q)
    ensures IsPos(Emptied(s, n), q) ==>
              IsPos(s0, q) && ZoneAt(Emptied(s, n), q) == if q.n == n then 0 else ZoneAt(s0, q)
  {
    if IsPos(s0, q) {
      if q.n == n {
        OwnPlace(s, n, q);
      } else {
        OtherPlace(s0, s, n, q);
        if ZoneAt(s0, q) != 0 { StillThere(s0, s, AllOf(n), q); }
      }
    }
  }

  lemma TruncatedApart(s0: Fs, s: Fs, n: nat, q: Pos, q': Pos)
    requires Inv(s0) && FreedTo(s0, s, AllOf(n)) && IsFile(s0, n)
    ensures Apart(Emptied(s, n), q, q')
  {
    TruncatedPlace(s0, s, n, q);
    TruncatedPlace(s0, s, n, q');
    assert Apart(s0, q, q');
  }

  lemma TruncatedInv(s0: Fs, s: Fs, n: nat)
    requires Inv(s0) && FreedTo(s0, s, AllOf(n)) && IsFile(s0, n)
    ensures Inv(Emptied(s, n))
  {
    var r := Emptied(s, n);
    forall q ensures PosOk(r, q) { TruncatedPlace(s0, s, n, q); }
    forall q, q' ensures Apart(r, q, q') { TruncatedApart(s0, s, n, q, q'); }
    forall z ensures Accounted(r, z) {
      if InZones(r, z) { TruncatedBit(s0, s, n, z); }
    }
    forall k | s0.nzones - s0.first < k < |s0.bits| ensures r.bits[k] { assert !InZones(s0, k + s0.first - 1); }
    assert !InZones(s0, 0 + s0.first - 1);
  }

  /** File m has the blocks and the bytes it had. */
  ghost predicate FileKept(s: Fs, r: Fs, m: nat)
    requires Shape(s) && Shape(r) && IsFile(s, m) && IsFile(r, m)
  {
    && (forall b: nat :: b < MAX_BLOCKS ==> Bmap(r, m, b) == Bmap(s, m, b))
    && (forall off: nat :: off < MAX_BLOCKS * BLOCK_SIZE ==> ByteAt(r, m, off) == ByteAt(s, m, off))
  }

  lemma TruncatedOther(s0: Fs, s: Fs, n: nat, m: nat)
    requires Inv(s0) && FreedTo(s0, s, AllOf(n)) && IsFile(s0, n) && IsFile(s0, m) && m != n
    ensures FileKept(s0, Emptied(s, n), m)
  {
    forall b: nat | b < MAX_BLOCKS ensures Bmap(Emptied(s, n), m, b) == Bmap(s0, m, b) {
      PlaceIsPos(s0, m, b);
      OtherPlace(s0, s, n, PlaceOf(m, b));
    }
    forall off: nat | off < MAX_BLOCKS * BLOCK_SIZE ensures ByteAt(Emptied(s, n), m, off) == ByteAt(s0, m, off) {
      OtherByte(s0, s, n, m, off);
    }
  }

  /** truncate frees exactly the zones the inode reached, each once; afterwards the inode has no
      blocks, no other file has changed, and bits and places still agree. */
  lemma TruncateKeeps(s0: Fs, s: Fs, n: nat)
    requires Inv(s0) && FreedTo(s0, s, AllOf(n)) && IsFile(s0, n)
    ensures var r := Emptied(s, n);
            && Inv(r)
            && (forall b: nat :: b < MAX_BLOCKS ==> Bmap(r, n, b) == 0)
            && (forall m: nat :: IsFile(s0, m) && m != n ==> FileKept(s0, r, m))
            && (forall z: nat :: InZones(s0, z) ==> (Used(r, z) <==> Used(s0, z) && !OwnedBy(s0, n, z)))
  {
    TruncatedInv(s0, s, n);
    forall z: nat | InZones(s0, z) ensures Used(Emptied(s, n), z) <==> Used(s0, z) && !OwnedBy(s0, n, z) {
      TruncatedBit(s0, s, n, z);
    }
    forall b: nat | b < MAX_BLOCKS ensures Bmap(Emptied(s, n), n, b) == 0 {
      PlaceIsPos(s, n, b);
      OwnPlace(s, n, PlaceOf(n, b));
    }
    forall m: nat | IsFile(s0, m) && m != n ensures FileKept(s0, Emptied(s, n), m) {
      TruncatedOther(s0, s, n, m);
    }
  }

  lemma OtherByte(s0: Fs, s: Fs, n: nat, m: nat, off: nat)
    requires Inv(s0) && FreedTo(s0, s, AllOf(n)) && IsFile(s0, n) && IsFile(s0, m) && m != n
    requires off < MAX_BLOCKS * BLOCK_SIZE
    ensures ByteAt(Emptied(s, n), m, off) == ByteAt(s0, m, off)
  {
    var q := PlaceOf(m, off / BLOCK_SIZE);
    PlaceIsPos(s0, m, off / BLOCK_SIZE);
    OtherPlace(s0, s, n, q);
    if ZoneAt(s0, q) != 0 { StillThere(s0, s, AllOf(n), q); }
  }

  // ----- a store into a data block -----

  function Patched(s: Fs, z: nat, blk: Block): (r: Fs)
    requires Shape(s) && InZones(s, z)
    ensures Shape(r)
  {
    s.(blocks := s.blocks[z := blk])
  }

  lemma {:induction false} PatchPlace(s: Fs, p: Pos, blk: Block, q: Pos)
    requires Inv(s) && IsPos(s, p) && !IsTable(p) && InZones(s, ZoneAt(s, p)) && IsPos(s, q)
    ensures ZoneAt(Patched(s, ZoneAt(s, p), blk), q) == ZoneAt(s, q)
    decreases ZoneTree.Rank(q)
  {
    if !q.Top? {
      ParentIsPos(s, q);
      PatchPlace(s, p, blk, Parent(q));
      assert Apart(s, Parent(q), p);
    }
  }

  /** Storing into block b of file n changes the bytes of that block only. */
  lemma PatchKeeps(s: Fs, n: nat, b: nat, blk: Block)
    requires Inv(s) && IsFile(s, n) && b < MAX_BLOCKS && Bmap(s, n, b) != 0
    ensures InZones(s, Bmap(s, n, b))
    ensures var r := Patched(s, Bmap(s, n, b), blk);
            && Inv(r) && SamePlaces(s, r)
            && (forall m: nat, off: nat :: IsFile(s, m) && off < MAX_BLOCKS * BLOCK_SIZE ==>
                  ByteAt(r, m, off) == if m == n && off / BLOCK_SIZE == b then blk[off % BLOCK_SIZE]
                      else ByteAt(s, m, off))
  {
    var p := PlaceOf(n, b);
    PlaceIsPos(s, n, b);
    assert PosOk(s, p);
    var r := Patched(s, Bmap(s, n, b), blk);
    forall q | IsPos(s, q) ensures IsPos(r, q) && ZoneAt(r, q) == ZoneAt(s, q) { PatchPlace(s, p, blk, q); }
    forall q ensures PosOk(r, q) { assert PosOk(s, q); }
    forall q, q' ensures Apart(r, q, q') { assert Apart(s, q, q'); }
    forall z ensures Accounted(r, z) {
      assert Accounted(s, z);
      if InZones(r, z) && Used(r, z) {
        var q :| Owns(s, q, z);
        assert Owns(r, q, z);
      }
    }
    forall m: nat, off: nat | IsFile(s, m) && off < MAX_BLOCKS * BLOCK_SIZE
      ensures ByteAt(r, m, off) == if m == n && off / BLOCK_SIZE == b then blk[off % BLOCK_SIZE] else ByteAt(s, m, off)
    {
      PlaceIsPos(s, m, off / BLOCK_SIZE);
      assert Apart(s, p, PlaceOf(m, off / BLOCK_SIZE));
      if PlaceOf(m, off / BLOCK_SIZE) == p { PlacesApart(n, b, m, off / BLOCK_SIZE); }
    }
  }
}
