/** Files as byte sequences (fs/file_dev.c): what writing a chunk at a time does to the bytes of
    every file, and that bytes past the end of a file stay zero. */
module FileBytes {
  import opened ZoneTree
  import opened ZoneProofs
  import opened ZoneFree

  const MAX_BYTES := MAX_BLOCKS * BLOCK_SIZE

  function SizeOf(s: Fs, n: nat): nat
    requires IsFile(s, n)
  {
    s.inodes[n].size
  }

  /** i_size = size */
  function Sized(s: Fs, n: nat, size: nat): (r: Fs)
    requires Shape(s) && IsFile(s, n)
    ensures Shape(r)
  {
    s.(inodes := s.inodes[n := s.inodes[n].(size := size)])
  }

  lemma {:induction false} SizedPlace(s: Fs, n: nat, size: nat, q: Pos)
    requires Shape(s) && IsFile(s, n) && IsPos(s, q)
    ensures IsPos(Sized(s, n, size), q) && ZoneAt(Sized(s, n, size), q) == ZoneAt(s, q)
    decreases ZoneTree.Rank(q)
  {
    if !q.Top? { SizedPlace(s, n, size, Parent(q)); }
  }

  lemma SizedBlock(s: Fs, n: nat, size: nat, m: nat, b: nat)
    requires Shape(s) && IsFile(s, n) && IsFile(s, m) && b < MAX_BLOCKS
    ensures IsFile(Sized(s, n, size), m) && Bmap(Sized(s, n, size), m, b) == Bmap(s, m, b)
  {
    PlaceIsPos(s, m, b);
    SizedPlace(s, n, size, PlaceOf(m, b));
  }

  lemma SizedKeeps(s: Fs, n: nat, size: nat)
    requires Inv(s) && IsFile(s, n)
    ensures Inv(Sized(s, n, size))
  {
    var r := Sized(s, n, size);
    forall q | IsPos(s, q) ensures IsPos(r, q) && ZoneAt(r, q) == ZoneAt(s, q) { SizedPlace(s, n, size, q); }
    forall q ensures PosOk(r, q) { assert PosOk(s, q); }
    forall q, q' ensures Apart(r, q, q') { assert Apart(s, q, q'); }
    forall z ensures Accounted(r, z) {
      assert Accounted(s, z);
      if InZones(r, z) && Used(r, z) {
        var q :| Owns(s, q, z);
        assert Owns(r, q, z);
      }
    }
  }

  ghost predicate Full(s: Fs) { forall k :: 0 <= k < |s.bits| ==> s.bits[k] }

  // ----- a write in progress -----

  /** From s0, the first i bytes of data have reached file n at offset pos; no other byte of any
      file has changed, and blocks that were mapped stay where they are. */
  ghost predicate Written(s0: Fs, s: Fs, n: nat, pos: nat, data: seq<Byte>, i: nat)
    requires Shape(s0) && IsFile(s0, n) && i <= |data|
  {
    && Inv(s) && |s.inodes| == |s0.inodes| && |s.bits| == |s0.bits| && s.first == s0.first && s.nzones == s0.nzones
    && (forall m: nat :: IsFile(s0, m) ==> IsFile(s, m))
    && (forall m: nat :: IsFile(s0, m) ==>
          SizeOf(s, m) == if m == n && i > 0 then Max(SizeOf(s0, m), pos + i) else SizeOf(s0, m))
    && (forall m: nat :: m < |s0.inodes| ==> s.inodes[m].isFile == s0.inodes[m].isFile)
    && (forall m: nat, off: nat :: IsFile(s0, m) && off < MAX_BYTES ==>
          ByteAt(s, m, off) == if m == n && pos <= off < pos + i then data[off - pos] else ByteAt(s0, m, off))
    && (forall m: nat, b: nat :: IsFile(s0, m) && b < MAX_BLOCKS && (m != n || Bmap(s0, m, b) != 0) ==>
        Bmap(s, m, b) == Bmap(s0, m, b))
  }

  function Max(a: nat, b: nat): nat { if a < b then b else a }

  lemma NothingWritten(s: Fs, n: nat, pos: nat, data: seq<Byte>)
    requires Inv(s) && IsFile(s, n)
    ensures Written(s, s, n, pos, data, 0)
  {
  }

  /** create_block for the next byte changes no byte. */
  lemma WriteCreates(s0: Fs, s: Fs, n: nat, pos: nat, data: seq<Byte>, i: nat)
    requires Inv(s0) && IsFile(s0, n) && i < |data| && pos + |data| <= MAX_BYTES && Written(s0, s, n, pos, data, i)
    ensures IsFile(s, n)
    ensures var (s1, z) := CreateBlock(s, n, (pos + i) / BLOCK_SIZE);
            && Written(s0, s1, n, pos, data, i) && IsFile(s1, n) && Bmap(s1, n, (pos + i) / BLOCK_SIZE) == z
            && (z == 0 ==> Full(s1))
  {
    CreateBlockKeeps(s, n, (pos + i) / BLOCK_SIZE);
  }

  /** blk is old with `len` bytes of data put at c. */
  ghost predicate Stored(blk: Block, was: Block, c: nat, data: seq<Byte>, i: nat, len: nat) {
    && c + len <= 1024 && i + len <= |data|
    && (forall k :: 0 <= k < 1024 ==> blk[k] == if c <= k < c + len then data[i + k - c] else was[k])
  }

  /** The next chunk: len bytes of data from index i can go into the block z = bmap of their offset. */
  ghost predicate Chunk(s0: Fs, s: Fs, n: nat, pos: nat, data: seq<Byte>, i: nat, blk: Block, len: nat) {
    && Inv(s0) && IsFile(s0, n) && i < |data| && 0 < len && pos + |data| <= MAX_BYTES && Written(s0, s, n, pos, data, i)
    && IsFile(s, n)
    && var z := Bmap(s, n, (pos + i) / BLOCK_SIZE);
       z != 0 && InZones(s, z) && Stored(blk, s.blocks[z], (pos + i) % BLOCK_SIZE, data, i, len)
  }

  function Next(s: Fs, n: nat, pos: nat, i: nat, blk: Block, len: nat): (r: Fs)
    requires Shape(s) && IsFile(s, n) && pos + i < MAX_BYTES && InZones(s, Bmap(s, n, (pos + i) / BLOCK_SIZE))
    ensures Shape(r)
  {
    Sized(Patched(s, Bmap(s, n, (pos + i) / BLOCK_SIZE), blk), n, Max(SizeOf(s, n), pos + i + len))
  }

  lemma NextByte(s0: Fs, s: Fs, n: nat, pos: nat, data: seq<Byte>, i: nat, blk: Block, len: nat, m: nat, off: nat)
    requires Chunk(s0, s, n, pos, data, i, blk, len) && IsFile(s0, m) && off < MAX_BYTES
    ensures IsFile(Next(s, n, pos, i, blk, len), m)
    ensures ByteAt(Next(s, n, pos, i, blk, len), m, off)
         == if m == n && pos <= off < pos + i + len then data[off - pos] else ByteAt(s0, m, off)
  {
    var b, c := (pos + i) / BLOCK_SIZE, (pos + i) % BLOCK_SIZE;
    PatchKeeps(s, n, b, blk);
    SizedBlock(Patched(s, Bmap(s, n, b), blk), n, Max(SizeOf(s, n), pos + i + len), m, off / BLOCK_SIZE);
    if m == n && off / BLOCK_SIZE == b {
      var k := off % BLOCK_SIZE;
      assert off - (pos + i) == k - c;
      var z := Bmap(s, n, b);
      assert ByteAt(s, n, off) == s.blocks[z][k];
      assert blk[k] == if c <= k < c + len then data[i + k - c] else s.blocks[z][k];
    } else if m == n {
      assert off < pos + i || off >= pos + i + len;
    }
  }

  lemma NextBlock(s0: Fs, s: Fs, n: nat, pos: nat, data: seq<Byte>, i: nat, blk: Block, len: nat, m: nat, c: nat)
    requires Chunk(s0, s, n, pos, data, i, blk, len) && IsFile(s0, m) && c < MAX_BLOCKS
    ensures IsFile(Next(s, n, pos, i, blk, len), m)
    ensures Bmap(Next(s, n, pos, i, blk, len), m, c) == Bmap(s, m, c)
  {
    var b := (pos + i) / BLOCK_SIZE;
    PlaceIsPos(s, m, c);
    PlaceIsPos(s, n, b);
    PatchPlace(s, PlaceOf(n, b), blk, PlaceOf(m, c));
    SizedBlock(Patched(s, Bmap(s, n, b), blk), n, Max(SizeOf(s, n), pos + i + len), m, c);
  }

  /** Storing the chunk carries the write that far. */
  lemma WriteStores(s0: Fs, s: Fs, n: nat, pos: nat, data: seq<Byte>, i: nat, blk: Block, len: nat)
    requires Chunk(s0, s, n, pos, data, i, blk, len)
    ensures Written(s0, Next(s, n, pos, i, blk, len), n, pos, data, i + len)
  {
    var b := (pos + i) / BLOCK_SIZE;
    PatchKeeps(s, n, b, blk);
    SizedKeeps(Patched(s, Bmap(s, n, b), blk), n, Max(SizeOf(s, n), pos + i + len));
    var r := Next(s, n, pos, i, blk, len);
    forall m: nat, off: nat | IsFile(s0, m) && off < MAX_BYTES
      ensures ByteAt(r, m, off) == if m == n && pos <= off < pos + i + len then data[off - pos] else ByteAt(s0, m, off)
    {
      NextByte(s0, s, n, pos, data, i, blk, len, m, off);
    }
    forall m: nat, c: nat | IsFile(s0, m) && c < MAX_BLOCKS && (m != n || Bmap(s0, m, c) != 0)
      ensures Bmap(r, m, c) == Bmap(s0, m, c)
    {
      NextBlock(s0, s, n, pos, data, i, blk, len, m, c);
    }
  }

  /** What the two changes of a chunk in place come to. */
  lemma StoredChunk(s0: Fs, s: Fs, s1: Fs, n: nat, start: nat, data: seq<Byte>, i: nat, len: nat)
    requires Inv(s0) && IsFile(s0, n) && i < |data| && start + |data| <= MAX_BYTES && 0 < len
    requires Written(s0, s, n, start, data, i) && IsFile(s, n) && Bmap(s, n, (start + i) / BLOCK_SIZE) != 0
    requires InZones(s, Bmap(s, n, (start + i) / BLOCK_SIZE)) && Shape(s1)
    requires var z := Bmap(s, n, (start + i) / BLOCK_SIZE);
             && z < |s1.blocks| && Stored(s1.blocks[z], s.blocks[z], (start + i) % BLOCK_SIZE, data, i, len)
             && s1 == s.(blocks := s.blocks[z := s1.blocks[z]],
                         inodes := s.inodes[n := s.inodes[n].(size := Max(SizeOf(s, n), start + i + len))])
    ensures Written(s0, s1, n, start, data, i + len)
  {
    var blk := s1.blocks[Bmap(s, n, (start + i) / BLOCK_SIZE)];
    WriteStores(s0, s, n, start, data, i, blk, len);
    assert s1 == Next(s, n, start, i, blk, len);
  }

  // ----- what reads see -----

  /** Bytes past the end of the file are zero, whatever blocks lie there. */
  ghost predicate TailZero(s: Fs, n: nat)
    requires Shape(s) && IsFile(s, n)
  {
    forall off: nat :: SizeOf(s, n) <= off < MAX_BYTES ==> ByteAt(s, n, off) == 0
  }

  /** Any write, in the middle or far past the end, keeps that of every file; so the gap a write
      past the end leaves reads as zeros. */
  lemma WriteKeepsTailZero(s0: Fs, s: Fs, n: nat, pos: nat, data: seq<Byte>, i: nat, m: nat)
    requires Shape(s0) && IsFile(s0, n) && i <= |data| && Written(s0, s, n, pos, data, i)
    requires IsFile(s0, m) && TailZero(s0, m)
    ensures IsFile(s, m) && TailZero(s, m)
    ensures m == n && i > 0 ==> forall off: nat :: SizeOf(s0, n) <= off < pos && off < MAX_BYTES ==>
            ByteAt(s, n, off) == 0
  {
  }

  lemma TruncateKeepsTailZero(s0: Fs, s: Fs, n: nat, m: nat)
    requires Inv(s0) && FreedTo(s0, s, AllOf(n)) && IsFile(s0, n) && IsFile(s0, m)
    requires m != n ==> TailZero(s0, m)
    ensures IsFile(Emptied(s, n), m) && TailZero(Emptied(s, n), m)
  {
    TruncateKeeps(s0, s, n);
    if m != n { assert FileKept(s0, Emptied(s, n), m); }
  }

  /** The clamp of sys_read: how many bytes a read at pos may deliver. */
  function Readable(size: nat, pos: nat, count: nat): nat {
    if count + pos > size then (if pos >= size then 0 else size - pos) else count
  }

  function Contents(s: Fs, n: nat, pos: nat, len: nat): (r: seq<Byte>)
    requires Shape(s) && IsFile(s, n) && pos + len <= MAX_BYTES
    ensures |r| == len && forall k :: 0 <= k < len ==> r[k] == ByteAt(s, n, pos + k)
  {
    if len == 0 then [] else Contents(s, n, pos, len - 1) + [ByteAt(s, n, pos + len - 1)]
  }

  /** A read after a complete write at the same offset delivers exactly what was written. */
  lemma ReadBack(s0: Fs, s: Fs, n: nat, pos: nat, data: seq<Byte>)
    requires Shape(s0) && IsFile(s0, n) && pos + |data| <= MAX_BYTES && Written(s0, s, n, pos, data, |data|) &&
             data != []
    ensures IsFile(s, n)
    ensures Readable(SizeOf(s, n), pos, |data|) == |data|
    ensures Contents(s, n, pos, |data|) == data
  {
  }

  // ----- any history of a file system -----

  /** What truncate of file n brings about. */
  ghost predicate Truncated(s: Fs, r: Fs, n: nat)
    requires Shape(s) && IsFile(s, n)
  {
    && Inv(r) && IsFile(r, n) && SizeOf(r, n) == 0
    && (forall b: nat :: b < MAX_BLOCKS ==> Bmap(r, n, b) == 0)
    && (forall m: nat :: IsFile(s, m) && m != n ==> IsFile(r, m) && SizeOf(r, m) == SizeOf(s, m) && FileKept(s, r, m))
  }

  datatype Act = Write(n: nat, pos: nat, data: seq<Byte>, done: nat) | Truncate(n: nat)

  ghost predicate Acted(s: Fs, a: Act, r: Fs) {
    && Inv(s) && IsFile(s, a.n)
    && match a
       case Write(n, pos, data, done) => done <= |data| && pos + |data| <= MAX_BYTES &&
           Written(s, r, n, pos, data, done)
       case Truncate(n) => Truncated(s, r, n)
  }

  /** The states before and after each act. */
  ghost predicate History(states: seq<Fs>, acts: seq<Act>) {
    |states| == |acts| + 1 && forall k :: 0 <= k < |acts| ==> ActedAt(states, acts, k)
  }

  ghost predicate ActedAt(states: seq<Fs>, acts: seq<Act>, k: nat)
    requires k < |acts| && |states| == |acts| + 1
  {
    Acted(states[k], acts[k], states[k + 1])
  }

  /** The byte the acts leave at an offset of file n that held b before: the last write that covered
      it, or 0 after a truncation. */
  function Latest(acts: seq<Act>, k: nat, n: nat, off: nat, b: Byte): Byte
    requires k <= |acts|
  {
    if k == 0 then b
    else match acts[k - 1]
      case Write(m, pos, data, done) =>
        if m == n && pos <= off < pos + done && off - pos < |data| then data[off - pos]
            else Latest(acts, k - 1, n, off, b)
      case Truncate(m) => if m == n then 0 else Latest(acts, k - 1, n, off, b)
  }

  /** Whatever is written and truncated, in whatever order, every offset of every file holds what
      was last written there since the last truncation, and bytes past the end of a file stay zero,
      as long as every act did what Acted says. */
  lemma {:induction false} HoldsLatest(states: seq<Fs>, acts: seq<Act>, k: nat, n: nat)
    requires History(states, acts) && k <= |acts| && Inv(states[0]) && IsFile(states[0], n)
    ensures Inv(states[k]) && IsFile(states[k], n)
    ensures forall off: nat :: off < MAX_BYTES ==>
              ByteAt(states[k], n, off) == Latest(acts, k, n, off, ByteAt(states[0], n, off))
    ensures TailZero(states[0], n) ==> TailZero(states[k], n)
  {
    if k > 0 {
      HoldsLatest(states, acts, k - 1, n);
      assert ActedAt(states, acts, k - 1);
      var s, r, a := states[k - 1], states[k], acts[k - 1];
      forall off: nat | off < MAX_BYTES
        ensures IsFile(r, n) && ByteAt(r, n, off) == Latest(acts, k, n, off, ByteAt(states[0], n, off))
      {
        if a.Truncate? && a.n != n { assert FileKept(s, r, n); }
      }
      if a.Write? && TailZero(s, n) { WriteKeepsTailZero(s, r, a.n, a.pos, a.data, a.done, n); }
      if a.Truncate? && a.n != n { assert FileKept(s, r, n); }
    }
  }
}
