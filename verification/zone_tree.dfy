/** The zone tree of a file (fs/inode.c) over the zone bitmap (fs/bitmap.c), as one value: which
    zone every place of every tree refers to, and the invariant that ties the places to the bits.
    Index blocks and data blocks are the same 1024 bytes. */
module ZoneTree {

  type Byte = b: nat | b < 256
  type Block = b: seq<Byte> | |b| == 1024 witness seq(1024, _ => 0)

  const BLOCK_SIZE := 1024
  const PER_BLOCK := 512
  const DIRECT := 7
  const MAX_BLOCKS := DIRECT + PER_BLOCK + PER_BLOCK * PER_BLOCK

  function ZeroBlock(): Block { seq(1024, _ => 0) }

  /** i_zone, i_size, and whether truncate looks at the inode at all: a file or directory. */
  datatype Inode = Inode(zone: seq<nat>, size: nat, isFile: bool)

  /** A device: its blocks as the buffer cache shows them, the zone bitmap (all slots in a row),
      the inodes, and s_firstdatazone and s_nzones. */
  datatype Fs = Fs(blocks: seq<Block>, bits: seq<bool>, inodes: seq<Inode>, first: nat, nzones: nat)

  predicate Shape(s: Fs) {
    && |s.blocks| == s.nzones && 1 <= s.first < s.nzones <= 65535
    && |s.bits| % 8192 == 0 && s.nzones - s.first + 1 <= |s.bits| <= 8 * 8192
    && (forall n :: 0 <= n < |s.inodes| ==> |s.inodes[n].zone| == 9)
  }

  predicate InZones(s: Fs, z: nat) { s.first <= z < s.nzones }

  /** The bit of zone z. */
  function BitOf(s: Fs, z: nat): nat
    requires Shape(s) && InZones(s, z)
  {
    z - s.first + 1
  }

  predicate Used(s: Fs, z: nat)
    requires Shape(s) && InZones(s, z)
  {
    s.bits[BitOf(s, z)]
  }

  // ----- 16-bit entries of an index block -----

  function Entry(b: Block, i: nat): nat
    requires i < PER_BLOCK
  {
    var lo: nat, hi: nat := b[2 * i], b[2 * i + 1];
    lo + 256 * hi
  }

  function SetEntry(b: Block, i: nat, v: nat): Block
    requires i < PER_BLOCK && v < 65536
  {
    b[2 * i := v % 256][2 * i + 1 := v / 256]
  }

  lemma EntrySet(b: Block, i: nat, v: nat, j: nat)
    requires i < PER_BLOCK && v < 65536 && j < PER_BLOCK
    ensures Entry(SetEntry(b, i, v), j) == if j == i then v else Entry(b, j)
  {
    assert v == v % 256 + 256 * (v / 256);
  }

  // ----- places -----

  /** A place in the tree of inode n: i_zone[k], entry i of the block i_zone[7], entry i of the
      block i_zone[8], and entry j of the block that entry refers to. */
  datatype Pos = Top(n: nat, k: nat) | Single(n: nat, i: nat) | Mid(n: nat, i: nat) | Leaf(n: nat, i: nat, j: nat)

  predicate IsPos(s: Fs, p: Pos) {
    && p.n < |s.inodes| && s.inodes[p.n].isFile
    && match p
       case Top(_, k) => k < 9
       case Single(_, i) => i < PER_BLOCK
       case Mid(_, i) => i < PER_BLOCK
       case Leaf(_, i, j) => i < PER_BLOCK && j < PER_BLOCK
  }

  /** The place of the index block that a place lies in. */
  function Parent(p: Pos): Pos
    requires !p.Top?
  {
    match p
    case Single(n, _) => Top(n, 7)
    case Mid(n, _) => Top(n, 8)
    case Leaf(n, i, _) => Mid(n, i)
  }

  function IndexIn(p: Pos): nat
    requires !p.Top?
  {
    if p.Leaf? then p.j else p.i
  }

  /** The places whose zones are index blocks. */
  predicate IsTable(p: Pos) { (p.Top? && p.k >= 7) || p.Mid? }

  function EntryIn(s: Fs, t: nat, i: nat): nat
    requires Shape(s) && i < PER_BLOCK
  {
    if InZones(s, t) then Entry(s.blocks[t], i) else 0
  }

  function Rank(p: Pos): nat { if p.Top? then 0 else if p.Leaf? then 2 else 1 }

  /** The zone a place refers to, 0 for a hole. */
  function ZoneAt(s: Fs, p: Pos): nat
    requires Shape(s) && IsPos(s, p)
    decreases Rank(p)
  {
    if p.Top? then s.inodes[p.n].zone[p.k]
    else EntryIn(s, ZoneAt(s, Parent(p)), IndexIn(p))
  }

  // ----- the invariant -----

  ghost predicate PosOk(s: Fs, p: Pos)
    requires Shape(s)
  {
    IsPos(s, p) && ZoneAt(s, p) != 0 ==> InZones(s, ZoneAt(s, p)) && Used(s, ZoneAt(s, p))
  }

  ghost predicate Apart(s: Fs, p: Pos, q: Pos)
    requires Shape(s)
  {
    IsPos(s, p) && IsPos(s, q) && ZoneAt(s, p) == ZoneAt(s, q) != 0 ==> p == q
  }

  ghost predicate Owns(s: Fs, p: Pos, z: nat)
    requires Shape(s)
  {
    IsPos(s, p) && ZoneAt(s, p) == z
  }

  ghost predicate HasOwner(s: Fs, z: nat)
    requires Shape(s)
  {
    exists p :: Owns(s, p, z)
  }

  ghost predicate Accounted(s: Fs, z: nat)
    requires Shape(s)
  {
    InZones(s, z) && Used(s, z) ==> HasOwner(s, z)
  }

  /** Every zone in use has its bit set and is used once; every bit of a data zone that is set
      belongs to a zone in use. Bit 0 and the bits past the last zone are set for good. */
  ghost predicate Inv(s: Fs) {
    && Shape(s)
    && s.bits[0] && (forall k :: s.nzones - s.first < k < |s.bits| ==> s.bits[k])
    && (forall p :: PosOk(s, p))
    && (forall p, q :: Apart(s, p, q))
    && (forall z :: Accounted(s, z))
  }

  // ----- files -----

  /** The place that holds the zone of block b of inode n. */
  function PlaceOf(n: nat, b: nat): Pos
    requires b < MAX_BLOCKS
  {
    if b < DIRECT then Top(n, b)
    else if b - DIRECT < PER_BLOCK then Single(n, b - DIRECT)
    else Leaf(n, (b - DIRECT - PER_BLOCK) / PER_BLOCK, (b - DIRECT - PER_BLOCK) % PER_BLOCK)
  }

  predicate IsFile(s: Fs, n: nat) { n < |s.inodes| && s.inodes[n].isFile }

  lemma PlaceIsPos(s: Fs, n: nat, b: nat)
    requires IsFile(s, n) && b < MAX_BLOCKS
    ensures IsPos(s, PlaceOf(n, b)) && !IsTable(PlaceOf(n, b))
  {
  }

  lemma PlacesApart(n: nat, b: nat, m: nat, c: nat)
    requires b < MAX_BLOCKS && c < MAX_BLOCKS && PlaceOf(n, b) == PlaceOf(m, c)
    ensures n == m && b == c
  {
    var x, y := b - DIRECT - PER_BLOCK, c - DIRECT - PER_BLOCK;
    if PlaceOf(n, b).Leaf? {
      assert x == x / PER_BLOCK * PER_BLOCK + x % PER_BLOCK;
      assert y == y / PER_BLOCK * PER_BLOCK + y % PER_BLOCK;
    }
  }

  /** bmap */
  function Bmap(s: Fs, n: nat, b: nat): nat
    requires Shape(s) && IsFile(s, n) && b < MAX_BLOCKS
  {
    PlaceIsPos(s, n, b);
    ZoneAt(s, PlaceOf(n, b))
  }

  /** The byte at an offset of a file; holes read as 0. */
  function ByteAt(s: Fs, n: nat, off: nat): Byte
    requires Shape(s) && IsFile(s, n) && off < MAX_BLOCKS * BLOCK_SIZE
  {
    var z := Bmap(s, n, off / BLOCK_SIZE);
    if InZones(s, z) then s.blocks[z][off % BLOCK_SIZE] else 0
  }

  // ----- new_block -----

  function FirstZero(bits: seq<bool>): (n: nat)
    ensures n <= |bits|
    ensures forall k :: 0 <= k < n ==> bits[k]
    ensures n < |bits| ==> !bits[n]
  {
    if bits == [] || !bits[0] then 0 else 1 + FirstZero(bits[1..])
  }

  /** new_block: the first clear bit is set and its zone zeroed; 0 when there is none. */
  function NewBlock(s: Fs): (r: (Fs, nat))
    requires Shape(s)
    ensures Shape(r.0)
  {
    var j := FirstZero(s.bits);
    if j == |s.bits| then (s, 0)
    else
      var z := j + s.first - 1;
      var s1 := s.(bits := s.bits[j := true]);
      if z >= s.nzones then (s1, 0) else (s1.(blocks := s.blocks[z := ZeroBlock()]), z)
  }

  lemma NewBlockZone(s: Fs)
    requires Inv(s)
    ensures var (s', z) := NewBlock(s);
            && (z == 0 <==> forall k :: 0 <= k < |s.bits| ==> s.bits[k])
            && (z == 0 ==> s' == s)
            && (z != 0 ==> InZones(s, z) && !Used(s, z) && s'.bits == s.bits[BitOf(s, z) := true]
                           && s'.blocks == s.blocks[z := ZeroBlock()] && s'.inodes == s.inodes)
  {
  }

  /** `i_zone[k] = z`, or the entry of an index block. */
  function Attach(s: Fs, p: Pos, z: nat): (r: Fs)
    requires Shape(s) && IsPos(s, p) && z < 65536
    ensures Shape(r)
  {
    if p.Top? then
      s.(inodes := s.inodes[p.n := s.inodes[p.n].(zone := s.inodes[p.n].zone[p.k := z])])
    else
      var t := ZoneAt(s, Parent(p));
      if InZones(s, t) then s.(blocks := s.blocks[t := SetEntry(s.blocks[t], IndexIn(p), z)]) else s
  }

  /** The zone at p, made when there is none: the pattern of all three levels of _bmap. */
  function Ensure(s: Fs, p: Pos): (r: (Fs, nat))
    requires Shape(s) && IsPos(s, p)
    ensures Shape(r.0)
  {
    if ZoneAt(s, p) != 0 then (s, ZoneAt(s, p))
    else
      var (s1, z) := NewBlock(s);
      if z == 0 then (s1, 0) else (Attach(s1, p, z), z)
  }

  /** create_block; 0 when a block is missing. */
  function CreateBlock(s: Fs, n: nat, b: nat): (r: (Fs, nat))
    requires Shape(s) && IsFile(s, n) && b < MAX_BLOCKS
    ensures Shape(r.0)
  {
    PlaceIsPos(s, n, b);
    if b < DIRECT then Ensure(s, Top(n, b))
    else if b - DIRECT < PER_BLOCK then
      var (s1, t) := Ensure(s, Top(n, 7));
      if t == 0 || !IsFile(s1, n) then (s1, 0) else Ensure(s1, PlaceOf(n, b))
    else
      var (s1, t) := Ensure(s, Top(n, 8));
      if t == 0 || !IsFile(s1, n) then (s1, 0)
      else
        var (s2, m) := Ensure(s1, Parent(PlaceOf(n, b)));
        if m == 0 || !IsFile(s2, n) then (s2, 0) else Ensure(s2, PlaceOf(n, b))
  }
}
