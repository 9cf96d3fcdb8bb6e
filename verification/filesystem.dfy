/** fs/bitmap.c, `_bmap` of fs/inode.c, fs/truncate.c and fs/file_dev.c in their own form: arrays
    changed in place, on top of the zone tree. A block is the block the buffer cache shows. */
module FileSystem {
  import opened ZoneTree
  import opened ZoneProofs
  import opened ZoneFree
  import opened FileBytes

  /** new_block when j is the first clear bit, or when there is none. */
  lemma NewBlockIs(s: Fs, j: nat)
    requires Inv(s) && j <= |s.bits| && (forall k :: 0 <= k < j ==> s.bits[k]) && (j < |s.bits| ==> !s.bits[j])
    ensures j == |s.bits| ==> ZoneTree.NewBlock(s) == (s, 0)
    ensures j < |s.bits| ==> var z := j + s.first - 1;
              && j > 0 && InZones(s, z)
              && ZoneTree.NewBlock(s) == (s.(bits := s.bits[j := true], blocks := s.blocks[z := ZeroBlock()]), z)
  {
    NewBlockZone(s);
    assert FirstZero(s.bits) == j;
  }

  /** struct file: f_pos, and whether f_flags has O_APPEND. */
  class OpenFile {
    var pos: nat
    const append: bool

    constructor (append: bool)
      ensures pos == 0 && this.append == append
    {
      pos := 0;
      this.append := append;
    }
  }

  class Device {
    const blocks: array<Block>
    const zmap: array<bool>
    const inodes: array<Inode>
    const first: nat
    const nzones: nat

    ghost function S(): Fs
      reads blocks, zmap, inodes
    {
      Fs(blocks[..], zmap[..], inodes[..], first, nzones)
    }

    ghost predicate Valid()
      reads blocks, zmap, inodes
    {
      && blocks as object != zmap && blocks as object != inodes && zmap as object != inodes
      && Inv(S())
    }

    // ----- bitmap.c -----

    /** find_first_zero in one slot of the zone bitmap; 8192 when the slot is full. */
    method FindFirstZero(slot: nat) returns (j: nat)
      requires (slot + 1) * 8192 <= zmap.Length
      ensures j <= 8192
      ensures forall k :: slot * 8192 <= k < slot * 8192 + j ==> zmap[k]
      ensures j < 8192 ==> !zmap[slot * 8192 + j]
    {
      j := 0;
      while j < 8192 && zmap[slot * 8192 + j]
        invariant 0 <= j <= 8192
        invariant forall k :: slot * 8192 <= k < slot * 8192 + j ==> zmap[k]
      {
        j := j + 1;
      }
    }

    /** new_block */
    method NewBlock() returns (z: nat)
      requires Valid()
      modifies blocks, zmap
      ensures (S(), z) == ZoneTree.NewBlock(old(S()))
    {
      ghost var s := S();
      var i, j := 0, 8192;
      while i < 8
        invariant 0 <= i <= 8
        invariant forall k :: 0 <= k < i * 8192 && k < |s.bits| ==> s.bits[k]
        modifies {}
      {
        assert zmap[..] == s.bits;
        if (i + 1) * 8192 <= zmap.Length {
          j := FindFirstZero(i);
          assert forall k :: i * 8192 <= k < i * 8192 + j ==> s.bits[k];
          if j < 8192 {
            break;
          }
        }
        i := i + 1;
      }
      if i >= 8 || j >= 8192 {
        assert zmap.Length <= 8 * 8192;
        NewBlockIs(s, zmap.Length);
        assert S() == s;
        return 0;
      }
      NewBlockIs(s, i * 8192 + j);
      zmap[i * 8192 + j] := true;
      z := i * 8192 + j + first - 1;
      blocks[z] := ZeroBlock();
      assert zmap[..] == s.bits[i * 8192 + j := true];
      assert blocks[..] == s.blocks[z := ZeroBlock()];
    }

    /** free_block; false where the source panics. It leaves a block alone whose buffer somebody
        else uses. `junk` is what later readers of the freed block find on disk. */
    method FreeBlock(z: nat, junk: Block, inUse: bool) returns (ok: bool)
      requires blocks as object != zmap && blocks as object != inodes && zmap as object != inodes && Shape(S())
      modifies blocks, zmap
      ensures ok <==> first <= z < nzones && (inUse || Used(old(S()), z))
      ensures ok ==> S() == if inUse then old(S()) else FreedBlock(old(S()), z, junk)
    {
      ghost var s := S();
      if z < first || z >= nzones {
        return false;
      }
      if inUse {
        return true;
      }
      blocks[z] := junk;
      var bit := z - (first - 1);
      if !zmap[bit] {
        return false;
      }
      zmap[bit] := false;
      assert zmap[..] == s.bits[bit := false];
      assert blocks[..] == s.blocks[z := junk];
      return true;
    }

    // ----- inode.c -----

    /** `if (create && !i_zone[k]) i_zone[k] = new_block()` */
    method ZoneOfInode(n: nat, k: nat) returns (z: nat)
      requires Valid() && IsFile(S(), n) && k < 9
      modifies blocks, zmap, inodes
      ensures (S(), z) == Ensure(old(S()), Top(n, k))
    {
      ghost var s := S();
      NewBlockZone(s);
      z := inodes[n].zone[k];
      if z == 0 {
        z := NewBlock();
        if z != 0 {
          inodes[n] := inodes[n].(zone := inodes[n].zone[k := z]);
          assert inodes[..] == s.inodes[n := s.inodes[n].(zone := s.inodes[n].zone[k := z])];
        }
      }
    }

    /** The same for entry i of the index block t. */
    method ZoneOfEntry(t: nat, i: nat, ghost p: Pos) returns (z: nat)
      requires Valid() && IsPos(S(), p) && !p.Top? && t != 0 && t == ZoneAt(S(), Parent(p)) && i == IndexIn(p)
      modifies blocks, zmap
      ensures (S(), z) == Ensure(old(S()), p)
    {
      ghost var s := S();
      ParentIsPos(s, p);
      assert PosOk(s, Parent(p));
      NewBlockZone(s);
      z := Entry(blocks[t], i);
      if z == 0 {
        z := NewBlock();
        if z != 0 {
          NewBlockAt(s, Parent(p));
          ghost var s1 := S();
          blocks[t] := SetEntry(blocks[t], i, z);
          assert blocks[..] == s1.blocks[t := SetEntry(s1.blocks[t], i, z)];
        }
      }
    }

    /** The last level: the block itself, under the index block t. */
    method BlockUnder(t: nat, n: nat, block: nat) returns (z: nat)
      requires Valid() && IsFile(S(), n) && DIRECT <= block < MAX_BLOCKS
      requires var p := PlaceOf(n, block); IsPos(S(), Parent(p)) && t != 0 && t == ZoneAt(S(), Parent(p))
      modifies blocks, zmap
      ensures IsPos(old(S()), PlaceOf(n, block)) && (S(), z) == Ensure(old(S()), PlaceOf(n, block))
    {
      PlaceIsPos(S(), n, block);
      var b := block - 7;
      z := ZoneOfEntry(t, if b < 512 then b else (b - 512) % 512, PlaceOf(n, block));
    }

    /** create_block: _bmap with create set. */
    method CreateBlock(n: nat, block: nat) returns (z: nat)
      requires Valid() && IsFile(S(), n) && block < MAX_BLOCKS
      modifies blocks, zmap, inodes
      ensures (S(), z) == ZoneTree.CreateBlock(old(S()), n, block)
      ensures Valid()
    {
      ghost var s := S();
      CreateBlockKeeps(s, n, block);
      PlaceIsPos(s, n, block);
      if block < 7 {
        z := ZoneOfInode(n, block);
      } else if block - 7 < 512 {
        z := CreateSingle(n, block);
      } else {
        z := CreateDouble(n, block);
      }
    }

    method CreateSingle(n: nat, block: nat) returns (z: nat)
      requires Valid() && IsFile(S(), n) && 7 <= block < 7 + 512
      modifies blocks, zmap, inodes
      ensures (S(), z) == ZoneTree.CreateBlock(old(S()), n, block)
    {
      EnsureKeeps(S(), Top(n, 7));
      var t := ZoneOfInode(n, 7);
      if t == 0 {
        return 0;
      }
      z := BlockUnder(t, n, block);
    }

    method CreateDouble(n: nat, block: nat) returns (z: nat)
      requires Valid() && IsFile(S(), n) && 7 + 512 <= block < MAX_BLOCKS
      modifies blocks, zmap, inodes
      ensures (S(), z) == ZoneTree.CreateBlock(old(S()), n, block)
    {
      var i := (block - 7 - 512) / 512;
      EnsureKeeps(S(), Top(n, 8));
      var t := ZoneOfInode(n, 8);
      if t == 0 {
        return 0;
      }
      EnsureKeeps(S(), Mid(n, i));
      var m := ZoneOfEntry(t, i, Mid(n, i));
      if m == 0 {
        return 0;
      }
      z := BlockUnder(m, n, block);
    }

    /** bmap: _bmap without create. */
    method Bmap(n: nat, block: nat) returns (z: nat)
      requires Valid() && IsFile(S(), n) && block < MAX_BLOCKS
      ensures z == ZoneTree.Bmap(S(), n, block)
    {
      ghost var s := S();
      PlaceIsPos(s, n, block);
      if block < 7 {
        return inodes[n].zone[block];
      }
      var b := block - 7;
      if b < 512 {
        assert PosOk(s, Top(n, 7));
        var t := inodes[n].zone[7];
        return if t == 0 then 0 else Entry(blocks[t], b);
      }
      b := b - 512;
      assert PosOk(s, Top(n, 8)) && PosOk(s, Mid(n, b / 512));
      var t := inodes[n].zone[8];
      if t == 0 {
        return 0;
      }
      var m := Entry(blocks[t], b / 512);
      assert m == ZoneAt(s, Mid(n, b / 512));
      if m == 0 {
        return 0;
      }
      return Entry(blocks[m], b % 512);
    }

    // ----- truncate.c -----

    ghost predicate Freeing(s0: Fs, done: iset<Pos>)
      reads blocks, zmap, inodes
    {
      && blocks as object != zmap && blocks as object != inodes && zmap as object != inodes
      && Inv(s0) && FreedTo(s0, S(), done)
    }

    /** free_block of the zone of place p; the source's panics are out of reach. */
    method FreePlace(p: Pos, z: nat, junk: nat -> Block, ghost s0: Fs, ghost done: iset<Pos>)
      requires Freeing(s0, done) && IsPos(s0, p) && p !in done && z == ZoneAt(s0, p) != 0
      modifies blocks, zmap
      ensures Freeing(s0, done + iset{p})
    {
      FreeStep(s0, S(), done, p, junk(z));
      var ok := FreeBlock(z, junk(z), false);
      assert ok;
    }

    /** The loop of free_ind and free_dind's innermost level: the entries of the index block at p. */
    method FreeEntries(t: nat, p: Pos, junk: nat -> Block, ghost s0: Fs, ghost done: iset<Pos>)
      requires Freeing(s0, done) && IsPos(s0, p) && (p == Top(p.n, 7) || p.Mid?)
      requires t == ZoneAt(s0, p) != 0
      requires p !in done && Children(p, PER_BLOCK) !! done
      modifies blocks, zmap
      ensures Freeing(s0, done + Children(p, PER_BLOCK))
    {
      assert Children(p, 0) == iset{};
      assert done + Children(p, 0) == done;
      var i := 0;
      while i < 512
        invariant i <= 512
        invariant Freeing(s0, done + Children(p, i))
      {
        var c := Child(p, i);
        ghost var now := done + Children(p, i);
        ChildrenGrow(p, i);
        StillThere(s0, S(), now, p);
        var z := Entry(blocks[t], i);
        assert z == ZoneAt(s0, c);
        assert c in Children(p, PER_BLOCK);
        if z != 0 {
          FreePlace(c, z, junk, s0, now);
        } else {
          SkipHoles(s0, S(), now, iset{c});
        }
        assert now + iset{c} == done + Children(p, i + 1);
        i := i + 1;
      }
    }

    /** free_ind for the index block at p, 0 when there is none. */
    method FreeInd(t: nat, p: Pos, junk: nat -> Block, ghost s0: Fs, ghost done: iset<Pos>)
      requires Freeing(s0, done) && IsPos(s0, p) && (p == Top(p.n, 7) || p.Mid?)
      requires t == ZoneAt(s0, p)
      requires p !in done && Children(p, PER_BLOCK) !! done
      modifies blocks, zmap
      ensures Freeing(s0, done + Children(p, PER_BLOCK) + iset{p})
    {
      if t == 0 {
        SkipHoles(s0, S(), done, Children(p, PER_BLOCK) + iset{p});
        assert done + (Children(p, PER_BLOCK) + iset{p}) == done + Children(p, PER_BLOCK) + iset{p};
        return;
      }
      FreeEntries(t, p, junk, s0, done);
      FreePlace(p, t, junk, s0, done + Children(p, PER_BLOCK));
    }

    /** free_dind for the inode's double index block. */
    method FreeDind(t: nat, n: nat, junk: nat -> Block, ghost s0: Fs, ghost done: iset<Pos>)
      requires Freeing(s0, done) && IsFile(s0, n) && t == ZoneAt(s0, Top(n, 8))
      requires Top(n, 8) !in done && Subtrees(n, PER_BLOCK) !! done
      modifies blocks, zmap
      ensures Freeing(s0, done + Subtrees(n, PER_BLOCK) + iset{Top(n, 8)})
    {
      var p := Top(n, 8);
      if t == 0 {
        forall q | q in Subtrees(n, PER_BLOCK) && IsPos(s0, q) ensures ZoneAt(s0, q) == 0 { HoleBelow(s0, q); }
        SkipHoles(s0, S(), done, Subtrees(n, PER_BLOCK) + iset{p});
        assert done + (Subtrees(n, PER_BLOCK) + iset{p}) == done + Subtrees(n, PER_BLOCK) + iset{p};
        return;
      }
      assert done + Subtrees(n, 0) == done;
      var i := 0;
      while i < 512
        invariant i <= 512
        invariant Freeing(s0, done + Subtrees(n, i))
      {
        var m := Mid(n, i);
        ghost var now := done + Subtrees(n, i);
        SubtreesGrow(n, i);
        StillThere(s0, S(), now, p);
        assert Parent(m) == p && m in Subtrees(n, PER_BLOCK) && Children(m, PER_BLOCK) <= Subtrees(n, PER_BLOCK);
        var z := Entry(blocks[t], i);
        assert z == ZoneAt(s0, m);
        // the source calls free_ind for entries that are not zero; for others it does nothing
        FreeInd(z, m, junk, s0, now);
        assert now + Children(m, PER_BLOCK) + iset{m} == done + Subtrees(n, i + 1);
        i := i + 1;
      }
      FreePlace(p, t, junk, s0, done + Subtrees(n, PER_BLOCK));
    }

    ghost function TopsBelow(n: nat, i: int): iset<Pos> { iset q: Pos | q.Top? && q.n == n && q.k < i }

    /** The seven direct zones. */
    method FreeDirect(n: nat, zone: seq<nat>, junk: nat -> Block, ghost s0: Fs)
      requires Valid() && IsFile(S(), n) && S() == s0 && zone == inodes[n].zone
      modifies blocks, zmap
      ensures Freeing(s0, TopsBelow(n, 7))
    {
      SkipHoles(s0, s0, iset{}, iset{});
      assert FreedTo(s0, s0, iset{});
      assert TopsBelow(n, 0) == iset{};
      var i := 0;
      while i < 7
        invariant i <= 7
        invariant Freeing(s0, TopsBelow(n, i))
      {
        var p := Top(n, i);
        if zone[i] != 0 {
          FreePlace(p, zone[i], junk, s0, TopsBelow(n, i));
        } else {
          SkipHoles(s0, S(), TopsBelow(n, i), iset{p});
        }
        assert TopsBelow(n, i + 1) == TopsBelow(n, i) + iset{p};
        i := i + 1;
      }
    }

    /** truncate */
    method Truncate(n: nat, junk: nat -> Block)
      requires Valid() && n < inodes.Length
      modifies blocks, zmap, inodes
      ensures Valid()
      ensures !old(inodes[n]).isFile ==> S() == old(S())
      ensures old(inodes[n]).isFile ==>
                && Truncated(old(S()), S(), n)
                && (forall z: nat :: InZones(S(), z) ==>
                    (Used(S(), z) <==> Used(old(S()), z) && !OwnedBy(old(S()), n, z)))
    {
      if !inodes[n].isFile {
        return;
      }
      ghost var s0 := S();
      var zone := inodes[n].zone;
      FreeDirect(n, zone, junk, s0);
      ghost var done := TopsBelow(n, 7);
      FreeInd(zone[7], Top(n, 7), junk, s0, done);
      done := done + Children(Top(n, 7), PER_BLOCK) + iset{Top(n, 7)};
      FreeDind(zone[8], n, junk, s0, done);
      done := done + Subtrees(n, PER_BLOCK) + iset{Top(n, 8)};
      SameDone(s0, S(), done, AllOf(n));
      ghost var s := S();
      TruncateKeeps(s0, s, n);
      inodes[n] := inodes[n].(zone := seq(9, _ => 0), size := 0);
      assert inodes[..] == Emptied(s, n).inodes;
      assert S() == Emptied(s, n);
    }

    // ----- file_dev.c -----

    /** The copy loop of file_write: data[i..i+len] into the block z at c. */
    method StoreBytes(z: nat, c: nat, data: seq<Byte>, i: nat, len: nat)
      requires z < blocks.Length && c + len <= 1024 && i + len <= |data|
      modifies blocks
      ensures Stored(blocks[z], old(blocks[z]), c, data, i, len)
      ensures blocks[..] == old(blocks[..])[z := blocks[z]]
    {
      ghost var was := blocks[..];
      var k := 0;
      while k < len
        invariant k <= len
        invariant Stored(blocks[z], was[z], c, data, i, k)
        invariant blocks[..] == was[z := blocks[z]]
      {
        blocks[z] := blocks[z][c + k := data[i + k]];
        k := k + 1;
      }
    }

    /** i_size and the bytes of one chunk, in the block z of its offset. */
    method StoreChunk(n: nat, start: nat, data: seq<Byte>, i: nat, z: nat, ghost s0: Fs) returns (len: nat)
      requires blocks as object != zmap && blocks as object != inodes && zmap as object != inodes
      requires Inv(s0) && IsFile(s0, n) && i < |data| && start + |data| <= MAX_BYTES
      requires Written(s0, S(), n, start, data, i) && IsFile(S(), n) && z != 0
      requires z == ZoneTree.Bmap(S(), n, (start + i) / BLOCK_SIZE)
      modifies blocks, inodes
      ensures 0 < len <= |data| - i && Written(s0, S(), n, start, data, i + len)
    {
      ghost var s := S();
      var pos := start + i;
      PlaceIsPos(s, n, pos / BLOCK_SIZE);
      assert InZones(s, z) by { assert PosOk(s, PlaceOf(n, pos / BLOCK_SIZE)); }
      var c := pos % BLOCK_SIZE;
      len := BLOCK_SIZE - c;
      if len > |data| - i {
        len := |data| - i;
      }
      if pos + len > inodes[n].size {
        inodes[n] := inodes[n].(size := pos + len);
      }
      assert inodes[..] == s.inodes[n := s.inodes[n].(size := Max(SizeOf(s, n), pos + len))];
      StoreBytes(z, c, data, i, len);
      StoredChunk(s0, s, S(), n, start, data, i, len);
    }

    /** create_block for the next byte of a write. */
    method CreateNext(n: nat, start: nat, data: seq<Byte>, i: nat, ghost s0: Fs) returns (z: nat)
      requires blocks as object != zmap && blocks as object != inodes && zmap as object != inodes
      requires Inv(s0) && IsFile(s0, n) && i < |data| && start + |data| <= MAX_BYTES
      requires Written(s0, S(), n, start, data, i)
      modifies blocks, zmap, inodes
      ensures Written(s0, S(), n, start, data, i) && IsFile(S(), n)
      ensures z == ZoneTree.Bmap(S(), n, (start + i) / BLOCK_SIZE)
      ensures z == 0 ==> Full(S())
    {
      WriteCreates(s0, S(), n, start, data, i);
      z := CreateBlock(n, (start + i) / BLOCK_SIZE);
    }

    /** One round of the loop of file_write: the bytes that fit into the block of the next offset. */
    method WriteChunk(n: nat, start: nat, data: seq<Byte>, i: nat, ghost s0: Fs) returns (len: nat)
      requires blocks as object != zmap && blocks as object != inodes && zmap as object != inodes
      requires Inv(s0) && IsFile(s0, n) && i < |data| && start + |data| <= MAX_BYTES
      requires Written(s0, S(), n, start, data, i)
      modifies blocks, zmap, inodes
      ensures i + len <= |data| && Written(s0, S(), n, start, data, i + len)
      ensures len == 0 ==> Full(S())
    {
      var z := CreateNext(n, start, data, i, s0);
      if z == 0 {
        return 0;
      }
      len := StoreChunk(n, start, data, i, z, s0);
    }

    /** file_write. The offsets stay below the largest the tree can map: _bmap panics past that. */
    method FileWrite(n: nat, filp: OpenFile, data: seq<Byte>) returns (r: int)
      requires Valid() && IsFile(S(), n)
      requires (if filp.append then SizeOf(S(), n) else filp.pos) + |data| <= MAX_BYTES
      modifies blocks, zmap, inodes, filp
      ensures Valid()
      ensures var s, pos := old(S()), if filp.append then old(inodes[n].size) else old(filp.pos);
              var i := if r < 0 then 0 else r;
              && i <= |data| && (r == -1 || r > 0)
              && Written(s, S(), n, pos, data, i)
              && filp.pos == (if filp.append then old(filp.pos) else old(filp.pos) + i)
              && (i < |data| ==> Full(S()))
    {
      ghost var s0 := S();
      var start := if filp.append then inodes[n].size else filp.pos;
      var i := 0;
      NothingWritten(s0, n, start, data);
      while i < |data|
        invariant i <= |data|
        invariant blocks as object != zmap && blocks as object != inodes && zmap as object != inodes
        invariant Written(s0, S(), n, start, data, i)
        modifies blocks, zmap, inodes
        decreases |data| - i
      {
        var len := WriteChunk(n, start, data, i, s0);
        if len == 0 {
          break;
        }
        i := i + len;
      }
      if !filp.append {
        filp.pos := start + i;
      }
      r := if i != 0 then i else -1;
    }

    /** file_read. */
    method FileRead(n: nat, filp: OpenFile, count: nat) returns (r: nat, buf: seq<Byte>)
      requires Valid() && IsFile(S(), n) && filp.pos + count <= MAX_BYTES
      modifies filp
      ensures S() == old(S())
      ensures r == count && buf == Contents(S(), n, old(filp.pos), count)
      ensures filp.pos == old(filp.pos) + count
    {
      ghost var pos := filp.pos;
      ghost var s := S();
      buf := [];
      var left := count;
      while left > 0
        invariant 0 <= left <= count && filp.pos == pos + (count - left)
        invariant S() == s
        invariant |buf| == count - left && forall k :: 0 <= k < |buf| ==> buf[k] == ByteAt(s, n, pos + k)
        decreases left
      {
        ghost var done := |buf|;
        var b := filp.pos / BLOCK_SIZE;
        var z := Bmap(n, b);
        PlaceIsPos(s, n, b);
        assert PosOk(s, PlaceOf(n, b));
        var at := filp.pos % BLOCK_SIZE;
        var chars := if BLOCK_SIZE - at < left then BLOCK_SIZE - at else left;
        ghost var from := filp.pos;
        filp.pos := filp.pos + chars;
        left := left - chars;
        var k := 0;
        while k < chars
          invariant k <= chars
          invariant S() == s
          invariant |buf| == done + k && forall k :: 0 <= k < |buf| ==> buf[k] == ByteAt(s, n, pos + k)
          modifies {}
        {
          assert (from + k) / BLOCK_SIZE == b && (from + k) % BLOCK_SIZE == at + k;
          buf := buf + [if z != 0 then blocks[z][at + k] else 0];
          k := k + 1;
        }
      }
      assert buf == Contents(s, n, pos, count);
      r := count;
    }

    /** sys_read on a regular file. */
    method Read(n: nat, filp: OpenFile, count: nat) returns (r: nat, buf: seq<Byte>)
      requires Valid() && IsFile(S(), n) && SizeOf(S(), n) <= MAX_BYTES
      modifies filp
      ensures S() == old(S())
      ensures var size, pos := SizeOf(S(), n), old(filp.pos);
              r == if size <= pos then 0 else if count < size - pos then count else size - pos
      ensures r == Readable(SizeOf(S(), n), old(filp.pos), count) && filp.pos == old(filp.pos) + r
      ensures r > 0 ==> old(filp.pos) + r <= SizeOf(S(), n) && buf == Contents(S(), n, old(filp.pos), r)
      ensures |buf| == r && forall k :: 0 <= k < r ==>
                old(filp.pos) + k < MAX_BYTES && buf[k] == ByteAt(S(), n, old(filp.pos) + k)
    {
      var want: int := count;
      if want == 0 {
        return 0, [];
      }
      if want + filp.pos > inodes[n].size {
        want := inodes[n].size - filp.pos;
      }
      if want <= 0 {
        return 0, [];
      }
      r, buf := FileRead(n, filp, want);
    }

    // ----- any sequence of calls -----

    /** Carries out orders one after the other. The acts say what came of them, the states what the
        device was before and after each; a write stops short only with the bitmap full. */
    method Play(orders: seq<Order>, junk: nat -> Block) returns (ghost acts: seq<Act>, ghost states: seq<Fs>)
      requires Valid() && forall k :: 0 <= k < |orders| ==> OrderOk(S(), orders[k])
      modifies blocks, zmap, inodes
      ensures Valid() && |acts| == |orders| && History(states, acts)
      ensures states[0] == old(S()) && states[|acts|] == S()
      ensures forall k :: 0 <= k < |acts| ==> Obeys(acts[k], orders[k], states[k + 1])
      ensures forall n: nat :: IsFile(old(S()), n) ==> IsFile(S(), n) && HoldsBytes(old(S()), S(), acts, n)
      ensures forall n: nat :: IsFile(old(S()), n) && TailZero(old(S()), n) ==> IsFile(S(), n) && TailZero(S(), n)
    {
      ghost var s := S();
      states := [s];
      acts := [];
      var k := 0;
      while k < |orders|
        invariant 0 <= k <= |orders| && |acts| == k && |states| == k + 1
        invariant Valid() && states[0] == s && states[k] == S() && History(states, acts)
        invariant forall j :: 0 <= j < |orders| ==> OrderOk(S(), orders[j])
        invariant forall j :: 0 <= j < k ==> Obeys(acts[j], orders[j], states[j + 1])
      {
        ghost var now := S();
        ghost var act := One(orders[k], junk);
        HistoryGrows(states, acts, act, S());
        OrdersStayOk(now, act, S(), orders);
        acts, states := acts + [act], states + [S()];
        k := k + 1;
      }
      forall n: nat | IsFile(s, n) ensures IsFile(S(), n) && HoldsBytes(s, S(), acts, n) {
        HoldsLatest(states, acts, k, n);
      }
      forall n: nat | IsFile(s, n) && TailZero(s, n) ensures IsFile(S(), n) && TailZero(S(), n) {
        HoldsLatest(states, acts, k, n);
      }
    }

    method One(order: Order, junk: nat -> Block) returns (ghost act: Act)
      requires Valid() && OrderOk(S(), order)
      modifies blocks, zmap, inodes
      ensures Valid() && Obeys(act, order, S()) && Acted(old(S()), act, S())
    {
      match order
      case Put(n, pos, data) =>
        var filp := new OpenFile(false);
        filp.pos := pos;
        var r := FileWrite(n, filp, data);
        act := Act.Write(n, pos, data, if r < 0 then 0 else r);
      case Empty(n) =>
        Truncate(n, junk);
        act := Act.Truncate(n);
    }

    /** What was written completely is what the next read at the same place delivers. */
    method WriteThenRead(n: nat, pos: nat, data: seq<Byte>) returns (r: int, buf: seq<Byte>)
      requires Valid() && IsFile(S(), n) && SizeOf(S(), n) <= MAX_BYTES && pos + |data| <= MAX_BYTES && data != []
      modifies blocks, zmap, inodes
      ensures Valid() && r <= |data| && (r < |data| ==> Full(S()))
      ensures r == |data| ==> buf == data
    {
      ghost var s := S();
      var filp := new OpenFile(false);
      filp.pos := pos;
      r := FileWrite(n, filp, data);
      assert SizeOf(S(), n) <= MAX_BYTES;
      filp.pos := pos;
      var got;
      if r == |data| { ReadBack(s, S(), n, pos, data); }
      got, buf := Read(n, filp, |data|);
    }
  }

  datatype Order = Put(n: nat, pos: nat, data: seq<Byte>) | Empty(n: nat)

  ghost predicate OrderOk(s: Fs, o: Order) {
    IsFile(s, o.n) && (o.Put? ==> o.pos + |o.data| <= MAX_BYTES)
  }

  /** The act is what was ordered; a write has come to an early end only if r has no free zone. */
  ghost predicate Obeys(a: Act, o: Order, r: Fs) {
    match o
    case Put(n, pos, data) =>
      a.Write? && a.n == n && a.pos == pos && a.data == data && (a.done < |data| ==> Full(r))
    case Empty(n) => a == Act.Truncate(n)
  }

  ghost predicate HoldsBytes(s: Fs, r: Fs, acts: seq<Act>, n: nat)
    requires Shape(s) && Shape(r) && IsFile(s, n) && IsFile(r, n)
  {
    forall off: nat :: off < MAX_BYTES ==> ByteAt(r, n, off) == Latest(acts, |acts|, n, off, ByteAt(s, n, off))
  }

  lemma HistoryGrows(states: seq<Fs>, acts: seq<Act>, act: Act, r: Fs)
    requires History(states, acts) && Acted(states[|acts|], act, r)
    ensures History(states + [r], acts + [act])
  {
    forall k | 0 <= k < |acts| + 1 ensures ActedAt(states + [r], acts + [act], k) {
      if k < |acts| { assert ActedAt(states, acts, k); }
    }
  }

  lemma OrdersStayOk(s: Fs, act: Act, r: Fs, orders: seq<Order>)
    requires Acted(s, act, r) && forall j :: 0 <= j < |orders| ==> OrderOk(s, orders[j])
    ensures forall j :: 0 <= j < |orders| ==> OrderOk(r, orders[j])
  {
  }
}
