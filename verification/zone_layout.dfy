/** The tree as it lies on a disk: which word of which block holds the zone of a block of a file,
    which zone new_block takes, and how many zones a new block of a file costs. */
module ZoneLayout {
  import opened ZoneTree
  import opened ZoneProofs

  /** The little-endian 16-bit word i of block z; 0 where there is no block. */
  function Word16(s: Fs, z: nat, i: nat): nat
    requires Shape(s) && i < 512
  {
    if s.first <= z < s.nzones then
      var lo: nat, hi: nat := s.blocks[z][2 * i], s.blocks[z][2 * i + 1];
      lo + 256 * hi
    else 0
  }

  /** Blocks 0 to 6 are in the inode; the next 512 are words of the block i_zone[7]; from 519 on,
      word c / 512 of the block i_zone[8] names the block whose word c % 512 it is. */
  lemma Layout(s: Fs, n: nat, b: nat)
    requires Inv(s) && IsFile(s, n) && b < 7 + 512 + 512 * 512
    ensures b < 7 ==> Bmap(s, n, b) == s.inodes[n].zone[b]
    ensures 7 <= b < 519 ==> Bmap(s, n, b) == Word16(s, s.inodes[n].zone[7], b - 7)
    ensures 519 <= b ==>
              var c := b - 519;
              Bmap(s, n, b) == Word16(s, Word16(s, s.inodes[n].zone[8], c / 512), c % 512)
  {
    PlaceIsPos(s, n, b);
    if 7 <= b < 519 {
      assert ZoneAt(s, Single(n, b - 7)) == EntryIn(s, ZoneAt(s, Top(n, 7)), b - 7);
    } else if 519 <= b {
      var i, j := (b - 519) / 512, (b - 519) % 512;
      assert ZoneAt(s, Mid(n, i)) == EntryIn(s, ZoneAt(s, Top(n, 8)), i);
      assert ZoneAt(s, Leaf(n, i, j)) == EntryIn(s, ZoneAt(s, Mid(n, i)), j);
    }
  }

  /** Where a zone is named there is a block: only a hole reads as no block. */
  lemma NamedIsBlock(s: Fs, n: nat, b: nat)
    requires Inv(s) && IsFile(s, n) && b < MAX_BLOCKS
    ensures forall k :: 0 <= k < 9 && s.inodes[n].zone[k] != 0 ==> s.first <= s.inodes[n].zone[k] < s.nzones
    ensures forall k: nat :: k < 512 && Word16(s, s.inodes[n].zone[8], k) != 0 ==>
              s.first <= Word16(s, s.inodes[n].zone[8], k) < s.nzones
    ensures Bmap(s, n, b) != 0 ==> s.first <= Bmap(s, n, b) < s.nzones
  {
    forall k | 0 <= k < 9 && s.inodes[n].zone[k] != 0 ensures s.first <= s.inodes[n].zone[k] < s.nzones {
      assert PosOk(s, Top(n, k));
    }
    forall k: nat | k < 512 && Word16(s, s.inodes[n].zone[8], k) != 0
      ensures s.first <= Word16(s, s.inodes[n].zone[8], k) < s.nzones
    {
      assert PosOk(s, Mid(n, k));
      assert ZoneAt(s, Mid(n, k)) == Word16(s, ZoneAt(s, Top(n, 8)), k);
    }
    PlaceIsPos(s, n, b);
    assert PosOk(s, PlaceOf(n, b));
  }

  /** So 512 blocks in a row have one index block, and lie in it in order. */
  lemma RunInOneBlock(s: Fs, n: nat, k: nat, j: nat)
    requires Inv(s) && IsFile(s, n) && k < 512 && j < 512
    ensures 519 + 512 * k + j < MAX_BLOCKS
    ensures Bmap(s, n, 519 + 512 * k + j) == Word16(s, Word16(s, s.inodes[n].zone[8], k), j)
  {
    var b := 519 + 512 * k + j;
    assert b - 519 == 512 * k + j;
    assert (b - 519) / 512 == k && (b - 519) % 512 == j;
    Layout(s, n, b);
  }

  /** A byte of a file lies in its block at the same place. */
  lemma ByteInPlace(s: Fs, n: nat, b: nat, i: nat)
    requires Inv(s) && IsFile(s, n) && b < MAX_BLOCKS && i < 1024
    ensures ByteAt(s, n, 1024 * b + i) ==
              if s.first <= Bmap(s, n, b) < s.nzones then s.blocks[Bmap(s, n, b)][i] else 0
  {
    assert (1024 * b + i) / 1024 == b && (1024 * b + i) % 1024 == i;
  }

  /** new_block takes the lowest zone whose bit, counted from s_firstdatazone - 1, is clear. */
  lemma LowestZone(s: Fs)
    requires Inv(s)
    ensures var z := NewBlock(s).1;
            if z == 0 then forall k :: 0 <= k <= s.nzones - s.first ==> s.bits[k]
            else && s.first <= z < s.nzones && !s.bits[z - (s.first - 1)]
                 && NewBlock(s).0.bits == s.bits[z - (s.first - 1) := true]
                 && forall k :: 0 <= k < z - (s.first - 1) ==> s.bits[k]
  {
    NewBlockZone(s);
  }

  // ----- what a new block costs -----

  function Clear(s: Fs): set<nat> {
    set k: nat | k < |s.bits| && !s.bits[k]
  }

  /** The blocks missing on the way to block b of the file, itself included. */
  function Missing(s: Fs, n: nat, b: nat): nat
    requires Shape(s) && IsFile(s, n) && b < MAX_BLOCKS
  {
    var zone, c := s.inodes[n].zone, b - 519;
    if b < 7 then Hole(zone[b])
    else if b < 519 then Hole(zone[7]) + Hole(Word16(s, zone[7], b - 7))
    else
      var m := Word16(s, zone[8], c / 512);
      Hole(zone[8]) + Hole(m) + Hole(Word16(s, m, c % 512))
  }

  function Hole(z: nat): nat { if z == 0 then 1 else 0 }

  lemma EnsureTakes(s: Fs, p: Pos)
    requires Inv(s) && IsPos(s, p) && (!p.Top? ==> ZoneAt(s, Parent(p)) != 0)
    ensures var (s', z) := Ensure(s, p);
            && (z != 0 <==> Hole(ZoneAt(s, p)) <= |Clear(s)|)
            && (z != 0 ==> |Clear(s')| == |Clear(s)| - Hole(ZoneAt(s, p)))
  {
    NewBlockZone(s);
    if ZoneAt(s, p) == 0 {
      var j := FirstZero(s.bits);
      if j < |s.bits| {
        assert j in Clear(s);
        assert Clear(NewBlock(s).0) == Clear(s) - {j};
        EnsureKeeps(s, p);
        assert Clear(Ensure(s, p).0) == Clear(NewBlock(s).0);
      } else {
        assert Clear(s) == {};
      }
    }
  }

  /** The last two levels cost what is missing of them. */
  lemma BelowTakes(s: Fs, t: Pos, n: nat, b: nat)
    requires Inv(s) && IsFile(s, n) && b < MAX_BLOCKS && !PlaceOf(n, b).Top? && t == Parent(PlaceOf(n, b))
    requires IsPos(s, t) && (!t.Top? ==> ZoneAt(s, Parent(t)) != 0)
    ensures IsPos(s, PlaceOf(n, b)) && IsFile(Ensure(s, t).0, n) && IsPos(Ensure(s, t).0, PlaceOf(n, b))
    ensures var (s1, m) := Ensure(s, t);
            var (s', z) := if m == 0 then (s1, 0) else Ensure(s1, PlaceOf(n, b));
            var need := Hole(ZoneAt(s, t)) + Hole(ZoneAt(s, PlaceOf(n, b)));
            && (z != 0 <==> need <= |Clear(s)|)
            && (z != 0 ==> |Clear(s')| == |Clear(s)| - need)
  {
    var p := PlaceOf(n, b);
    PlaceIsPos(s, n, b);
    EnsureKeeps(s, t);
    EnsureTakes(s, t);
    var (s1, m) := Ensure(s, t);
    assert Grown(s, s1, t, p);
    if ZoneAt(s, t) == 0 { HoleBelow(s, p); }
    if m != 0 { EnsureTakes(s1, p); }
  }

  /** create_block succeeds if and only if there are as many free zones as blocks are missing, and
      takes exactly these. */
  lemma CreateTakes(s: Fs, n: nat, b: nat)
    requires Inv(s) && IsFile(s, n) && b < MAX_BLOCKS
    ensures var (s', z) := CreateBlock(s, n, b);
            && (z != 0 <==> Missing(s, n, b) <= |Clear(s)|)
            && (z != 0 ==> |Clear(s')| == |Clear(s)| - Missing(s, n, b))
  {
    var p := PlaceOf(n, b);
    PlaceIsPos(s, n, b);
    MissingIs(s, n, b);
    if p.Top? {
      EnsureTakes(s, p);
    } else if p.Single? {
      BelowTakes(s, Top(n, 7), n, b);
    } else {
      var t := Top(n, 8);
      EnsureKeeps(s, t);
      EnsureTakes(s, t);
      var (s1, z) := Ensure(s, t);
      assert Grown(s, s1, t, p) && Grown(s, s1, t, Parent(p));
      if z != 0 { BelowTakes(s1, Parent(p), n, b); }
    }
  }

  lemma MissingIs(s: Fs, n: nat, b: nat)
    requires Inv(s) && IsFile(s, n) && b < MAX_BLOCKS
    ensures IsPos(s, PlaceOf(n, b))
    ensures var p := PlaceOf(n, b);
            Missing(s, n, b) ==
              Hole(ZoneAt(s, p)) + (if p.Top? then 0 else Hole(ZoneAt(s, Parent(p))))
              + (if p.Leaf? then Hole(ZoneAt(s, Top(n, 8))) else 0)
  {
    PlaceIsPos(s, n, b);
  }
}
