/** `copy_page_tables`, `free_page_tables` (mm/memory.c) and `copy_mem` (kernel/fork.c): sharing an
    address space on fork, taking one down, and undoing a fork that ran out of memory. */
module PageFork {
  import opened PageState
  import opened PageSteps
  import opened PageOps

  // ----- free_page_tables -----

  /** Entries i..1023 of table d are given up, first to last. */
  function FreeEntries(s: Sys, d: nat, i: nat): (r: Sys)
    requires Shape(s) && DIRS <= d < 1024 && i <= 1024
    ensures Shape(r)
    decreases 1024 - i
  {
    if i == 1024 then s
    else FreeEntries(FreeEntry(s, PteSlot(d, i)), d, i + 1)
  }

  /** A word that is not present is zeroed too. */
  function FreeEntry(s: Sys, x: Slot): (r: Sys)
    requires Shape(s) && IsSlot(x)
    ensures Shape(r)
  {
    if At(s, x).present then Drop(s, x) else Put(s, x, ZERO)
  }

  /** An entry without a table is skipped. */
  function FreeTable(s: Sys, d: nat): (r: Sys)
    requires Shape(s) && DIRS <= d < 1024
    ensures Shape(r)
  {
    if s.mem[0][d].present then Drop(FreeEntries(s, d, 0), DirSlot(d)) else s
  }

  /** `n` directory entries from d on. */
  function FreeTables(s: Sys, d: nat, n: nat): (r: Sys)
    requires Shape(s) && DIRS <= d && d + n <= 1024
    ensures Shape(r)
    decreases n
  {
    if n == 0 then s
    else FreeTables(FreeTable(s, d), d + 1, n - 1)
  }

  ghost predicate NoTable(s: Sys, p: nat)
    requires Shape(s)
  {
    0 < p < FRAMES && forall d :: DIRS <= d < 1024 ==> !Refers(s, DirSlot(d), p)
  }

  ghost predicate DataKept(s: Sys, s': Sys)
    requires Shape(s) && Shape(s')
  {
    s'.high == s.high && s'.held == s.held && forall p: nat :: NoTable(s, p) ==> s'.mem[p] == s.mem[p]
  }

  lemma EntryIsData(s: Sys, y: Slot)
    requires Inv(s) && Entry(s, y) && Paged(At(s, y).page)
    ensures NoTable(s, At(s, y).page)
  {
    assert SlotOk(s, y);
    forall d | DIRS <= d < 1024 ensures !Refers(s, DirSlot(d), At(s, y).page) {
      if At(s, DirSlot(d)).present { TableIsPrivate(s, d, y); }
    }
  }

  lemma DataTrans(s: Sys, s1: Sys, s2: Sys)
    requires Shape(s) && Shape(s1) && Shape(s2) && DataKept(s, s1) && DataKept(s1, s2)
    requires forall d :: DIRS <= d < 1024 && At(s1, DirSlot(d)).present ==> At(s1, DirSlot(d)) == At(s, DirSlot(d))
    ensures DataKept(s, s2)
  {
    forall p: nat | NoTable(s, p) ensures s2.mem[p] == s.mem[p] {
      forall e | DIRS <= e < 1024 ensures !Refers(s1, DirSlot(e), p) {
        assert !Refers(s, DirSlot(e), p);
      }
      assert NoTable(s1, p);
    }
  }

  lemma FreeEntryKeeps(s: Sys, x: Slot)
    requires Inv(s) && IsSlot(x) && x.PteSlot? && HasTable(s, x.d)
    ensures Inv(FreeEntry(s, x)) && DataKept(s, FreeEntry(s, x))
    ensures forall y :: IsSlot(y) ==> At(FreeEntry(s, x), y) == if y == x then ZERO else At(s, y)
  {
    var r := FreeEntry(s, x);
    assert SlotOk(s, DirSlot(x.d));
    if At(s, x).present {
      DropPteKeeps(s, x);
    } else {
      PutPteAt(s, x, ZERO);
      forall y | IsSlot(y) ensures SlotOk(r, y) { assert SlotOk(s, y); }
      forall q | Paged(q) ensures CountExact(r, q) { CountsKept(s, r, q); }
      AlignedKept(s, r);
    }
    forall p: nat | NoTable(s, p) ensures r.mem[p] == s.mem[p] { assert !Refers(s, DirSlot(x.d), p); }
  }

  lemma {:induction false} FreeEntriesKeep(s: Sys, d: nat, i: nat)
    requires Inv(s) && HasTable(s, d) && i <= 1024
    ensures var r := FreeEntries(s, d, i);
            && Inv(r) && DataKept(s, r)
            && (forall y :: IsSlot(y) ==>
                  At(r, y) == if y.PteSlot? && y.d == d && i <= y.i then ZERO else At(s, y))
    decreases 1024 - i
  {
    if i < 1024 {
      var x := PteSlot(d, i);
      FreeEntryKeeps(s, x);
      var s1 := FreeEntry(s, x);
      assert At(s1, DirSlot(d)) == At(s, DirSlot(d));
      FreeEntriesKeep(s1, d, i + 1);
      DataTrans(s, s1, FreeEntries(s, d, i));
    }
  }

  /** The directory gives up an empty table. */
  lemma DropEmptyTable(s: Sys, d: nat)
    requires Inv(s) && HasTable(s, d) && EmptyTable(s, d)
    ensures var r := Drop(s, DirSlot(d));
            && Inv(r) && DataKept(s, r)
            && (forall y :: IsSlot(y) ==> At(r, y) == if y == DirSlot(d) then ZERO else At(s, y))
  {
    DropDirKeeps(s, d);
  }

  /** One table taken down. */
  lemma FreeTableKeeps(s: Sys, d: nat)
    requires Inv(s) && HasTable(s, d)
    ensures var r := Drop(FreeEntries(s, d, 0), DirSlot(d));
            && Inv(r) && DataKept(s, r)
            && (forall y :: IsSlot(y) ==> At(r, y) == if y.d == d then ZERO else At(s, y))
  {
    FreeEntriesKeep(s, d, 0);
    var s1 := FreeEntries(s, d, 0);
    assert At(s1, DirSlot(d)) == At(s, DirSlot(d));
    DropEmptyTable(s1, d);
    DataTrans(s, s1, Drop(s1, DirSlot(d)));
  }

  ghost predicate RangeFreed(s: Sys, r: Sys, lo: nat, hi: nat, y: Slot)
    requires Shape(s) && Shape(r)
  {
    IsSlot(y) ==> if lo <= y.d < hi then !At(r, y).present else At(r, y) == At(s, y)
  }

  lemma FreeTableRange(s: Sys, d: nat, e: nat)
    requires Inv(s) && DIRS <= d < 1024 && e == d + 1
    ensures var r := FreeTable(s, d);
            Inv(r) && DataKept(s, r) && forall y :: RangeFreed(s, r, d, e, y)
  {
    if At(s, DirSlot(d)).present { FreeTableKeeps(s, d); }
  }

  lemma RangeFreedJoin(s: Sys, s1: Sys, r: Sys, lo: nat, mid: nat, hi: nat)
    requires Shape(s) && Shape(s1) && Shape(r) && lo <= mid <= hi
    requires DataKept(s, s1) && DataKept(s1, r)
    requires forall y :: RangeFreed(s, s1, lo, mid, y)
    requires forall y :: RangeFreed(s1, r, mid, hi, y)
    ensures DataKept(s, r)
    ensures forall y :: RangeFreed(s, r, lo, hi, y)
  {
    forall e | DIRS <= e < 1024 && At(s1, DirSlot(e)).present ensures At(s1, DirSlot(e)) == At(s, DirSlot(e)) {
      assert RangeFreed(s, s1, lo, mid, DirSlot(e));
    }
    DataTrans(s, s1, r);
    forall y ensures RangeFreed(s, r, lo, hi, y) {
      assert RangeFreed(s, s1, lo, mid, y) && RangeFreed(s1, r, mid, hi, y);
    }
  }

  lemma {:induction false} FreeTablesSlots(s: Sys, d: nat, n: nat, hi: nat)
    requires Inv(s) && DIRS <= d && d + n == hi <= 1024
    ensures var r := FreeTables(s, d, n);
            Inv(r) && DataKept(s, r) && forall y :: RangeFreed(s, r, d, hi, y)
    decreases n
  {
    if n > 0 {
      FreeTableRange(s, d, d + 1);
      FreeTablesSlots(FreeTable(s, d), d + 1, n - 1, hi);
      RangeFreedJoin(s, FreeTable(s, d), FreeTables(s, d, n), d, d + 1, hi);
    }
  }

  /** The range is empty afterwards; every other slot, and every page that is not one of the
      tables, is as it was. The counts follow from the invariant. */
  lemma FreeTablesKeep(s: Sys, d: nat, n: nat)
    requires Inv(s) && DIRS <= d && d + n <= 1024
    ensures var r := FreeTables(s, d, n);
            && Inv(r) && DataKept(s, r)
            && (forall y :: IsSlot(y) && d <= y.d < d + n ==> !At(r, y).present)
            && (forall y :: IsSlot(y) && !(d <= y.d < d + n) ==> At(r, y) == At(s, y))
            && (forall y: Slot :: !(d <= y.d < d + n) ==> ViewKept(s, r, y))
  {
    var hi := d + n;
    FreeTablesSlots(s, d, n, hi);
    var r := FreeTables(s, d, n);
    forall y | IsSlot(y)
      ensures if d <= y.d < d + n then !At(r, y).present else At(r, y) == At(s, y)
    {
      assert RangeFreed(s, r, d, hi, y);
    }
    forall y: Slot | !(d <= y.d < d + n) ensures ViewKept(s, r, y) {
      FreedView(s, r, y);
    }
  }

  lemma FreedView(s: Sys, r: Sys, y: Slot)
    requires Inv(s) && Shape(r) && DataKept(s, r)
    requires IsSlot(y) ==> At(r, y) == At(s, y)
    ensures ViewKept(s, r, y)
  {
    if Entry(s, y) && Paged(At(s, y).page) {
      assert SlotOk(s, y);
      EntryIsData(s, y);
    }
  }

  // ----- copy_page_tables -----

  /** The word a fork copies: entry i of the parent's table f, which the first fork takes from
      the kernel's own table. */
  function Source(s: Sys, f: nat, i: nat): Word
    requires Shape(s) && f < 1024 && i < 1024
  {
    var e := s.mem[0][f];
    if e.present && e.page < FRAMES then s.mem[e.page][i] else ZERO
  }

  function ReadOnly(w: Word): Word { w.(rw := false) }

  /** One entry shared: both copies lose the write permission, and the page is counted once
      more; pages of low memory are copied as they are and not counted. */
  function CopyEntry(s: Sys, f: nat, t: nat, i: nat): (r: Sys)
    requires Shape(s) && f < 1024 && DIRS <= t < 1024 && i < 1024
    ensures Shape(r)
  {
    var w := Source(s, f, i);
    if !w.present then s
    else if Paged(w.page) && DIRS <= f then AddRef(SetRw(s, PteSlot(f, i), false), PteSlot(t, i), ReadOnly(w))
    else AddRef(s, PteSlot(t, i), ReadOnly(w))
  }

  function CopyEntries(s: Sys, f: nat, t: nat, i: nat, nr: nat): (r: Sys)
    requires Shape(s) && f < 1024 && DIRS <= t < 1024 && i <= nr <= 1024
    ensures Shape(r)
    decreases nr - i
  {
    if i == nr then s
    else CopyEntries(CopyEntry(s, f, t, i), f, t, i + 1, nr)
  }

  /** A present table gets a copy at t, if there is a page for it. */
  function CopyTable(s: Sys, f: nat, t: nat, nr: nat): (r: Sys)
    requires Shape(s) && f < 1024 && DIRS <= t < 1024 && nr <= 1024
    ensures Shape(r)
  {
    if s.mem[0][f].present && FreeFrame(s) != 0
    then CopyEntries(Link(Take(s, FreeFrame(s)), DirSlot(t), MappedTo(FreeFrame(s))), f, t, 0, nr)
    else s
  }

  /** `n` tables from f on are shared with the tables from t on, `nr` entries of each. */
  function CopyTables(s: Sys, f: nat, t: nat, n: nat, nr: nat): (r: Done)
    requires Shape(s) && f + n <= 1024 && DIRS <= t && t + n <= 1024 && nr <= 1024
    ensures Shape(r.sys)
    decreases n
  {
    if n == 0 then Done(s, true)
    else if s.mem[0][f].present && FreeFrame(s) == 0 then Done(s, false)
    else CopyTables(CopyTable(s, f, t, nr), f + 1, t + 1, n - 1, nr)
  }

  /** What the caller must provide: from and to at the same offset of two tasks' 64 Mb, and only
      the first 640 kb of task 0. */
  ghost predicate Pair(f: nat, t: nat, nr: nat) {
    && DIRS <= t < 1024 && f < 1024 && f != t && f % DIRS == t % DIRS
    && (if f == 0 then nr == 160 else DIRS <= f && nr == 1024)
  }

  /** The slots between s and r while entries i..nr-1 of table f are copied to table t. */
  ghost predicate Copied(s: Sys, r: Sys, f: nat, t: nat, i: nat, nr: nat, y: Slot)
    requires Shape(s) && Shape(r) && IsSlot(y) && f < 1024
  {
    At(r, y) ==
      if y.PteSlot? && i <= y.i < nr && (y.d == f || y.d == t) && Source(s, f, y.i).present
      then ReadOnly(Source(s, f, y.i))
      else At(s, y)
  }

  lemma SourceOk(s: Sys, f: nat, t: nat, i: nat, nr: nat)
    requires Inv(s) && Pair(f, t, nr) && i < nr && Source(s, f, i).present
    ensures Source(s, f, i).page < s.high
    ensures DIRS <= f ==> Source(s, f, i) == At(s, PteSlot(f, i))
    ensures f < DIRS ==> !Paged(Source(s, f, i).page)
    ensures !Paged(Source(s, f, i).page) && DIRS <= f ==> !Source(s, f, i).rw
  {
    if DIRS <= f {
      assert SlotOk(s, PteSlot(f, i));
    }
  }

  /** The case of low memory. */
  lemma CopyLow(s: Sys, t: nat, i: nat, w: Word)
    requires Inv(s) && DIRS <= t < 1024 && i < 1024 && HasTable(s, t) && Room(s, PteSlot(t, i))
    requires w.present && !w.rw && w.page < LOW_FRAMES
    ensures var r := AddRef(s, PteSlot(t, i), w);
            && Inv(r) && PagesKept(s, r)
            && (forall z :: IsSlot(z) ==> At(r, z) == if z == PteSlot(t, i) then w else At(s, z))
  {
    AddRefKeeps(s, PteSlot(t, i), w, PteSlot(t, i));
    PutPagesKept(s, PteSlot(t, i), w);
  }

  lemma CopyEntryKeeps(s: Sys, f: nat, t: nat, i: nat, nr: nat)
    requires Inv(s) && Pair(f, t, nr) && i < nr && HasTable(s, t) && Room(s, PteSlot(t, i))
    ensures var r := CopyEntry(s, f, t, i);
            && Inv(r) && PagesKept(s, r)
            && (forall y :: IsSlot(y) ==> Copied(s, r, f, t, i, i + 1, y))
  {
    var w := Source(s, f, i);
    if w.present {
      SourceOk(s, f, t, i, nr);
      if Paged(w.page) {
        ShareEntry(s, PteSlot(f, i), PteSlot(t, i));
      } else {
        CopyLow(s, t, i, ReadOnly(w));
      }
    }
  }

  lemma SourceKept(s: Sys, r: Sys, f: nat, t: nat, i: nat, nr: nat, j: nat)
    requires Inv(s) && Inv(r) && PagesKept(s, r) && Pair(f, t, nr) && j < nr <= 1024
    requires DIRS <= f ==> At(r, PteSlot(f, j)) == At(s, PteSlot(f, j))
    ensures Source(r, f, j) == Source(s, f, j)
  {
    if DIRS <= f {
      assert Source(r, f, j) == At(r, PteSlot(f, j));
    }
  }

  /** Copying entry i leaves the later entries of both tables as they are. */
  lemma LaterEntries(s: Sys, s1: Sys, f: nat, t: nat, i: nat, next: nat, nr: nat)
    requires Inv(s) && Inv(s1) && PagesKept(s, s1) && Pair(f, t, nr) && next == i + 1 <= nr && HasTable(s, t)
    requires forall j :: i <= j < nr ==> Room(s, PteSlot(t, j))
    requires forall y :: IsSlot(y) ==> Copied(s, s1, f, t, i, next, y)
    ensures HasTable(s1, t)
    ensures forall j :: i < j < nr ==> Room(s1, PteSlot(t, j)) && Source(s1, f, j) == Source(s, f, j)
  {
    assert Copied(s, s1, f, t, i, next, DirSlot(t));
    forall j | i < j < nr ensures Room(s1, PteSlot(t, j)) && Source(s1, f, j) == Source(s, f, j) {
      assert Room(s, PteSlot(t, j));
      assert Copied(s, s1, f, t, i, next, PteSlot(t, j));
      if DIRS <= f { assert Copied(s, s1, f, t, i, next, PteSlot(f, j)); }
      SourceKept(s, s1, f, t, i, nr, j);
    }
  }

  lemma {:induction false} CopyEntriesKeep(s: Sys, f: nat, t: nat, i: nat, nr: nat)
    requires Inv(s) && Pair(f, t, nr) && i <= nr && HasTable(s, t)
    requires forall j :: i <= j < nr ==> Room(s, PteSlot(t, j))
    ensures var r := CopyEntries(s, f, t, i, nr);
            && Inv(r) && PagesKept(s, r)
            && (forall y :: IsSlot(y) ==> Copied(s, r, f, t, i, nr, y))
    decreases nr - i
  {
    if i < nr {
      CopyEntryKeeps(s, f, t, i, nr);
      var s1 := CopyEntry(s, f, t, i);
      LaterEntries(s, s1, f, t, i, i + 1, nr);
      CopyEntriesKeep(s1, f, t, i + 1, nr);
      CopyEntriesJoin(s, s1, CopyEntries(s, f, t, i, nr), f, t, i, i + 1, nr);
    }
  }

  lemma CopyEntriesJoin(s: Sys, s1: Sys, r: Sys, f: nat, t: nat, i: nat, next: nat, nr: nat)
    requires Inv(s) && Shape(s1) && Shape(r) && Pair(f, t, nr) && next == i + 1 <= nr && Room(s, PteSlot(t, i))
    requires PagesKept(s, s1) && PagesKept(s1, r)
    requires forall j :: i < j < nr ==> Source(s1, f, j) == Source(s, f, j)
    requires forall y :: IsSlot(y) ==> Copied(s, s1, f, t, i, next, y)
    requires forall y :: IsSlot(y) ==> Copied(s1, r, f, t, next, nr, y)
    ensures PagesKept(s, r)
    ensures forall y :: IsSlot(y) ==> Copied(s, r, f, t, i, nr, y)
  {
    forall y | IsSlot(y) ensures Copied(s, r, f, t, i, nr, y) {
      assert Copied(s, s1, f, t, i, next, y);
      assert Copied(s1, r, f, t, next, nr, y);
    }
    forall y | Entry(s, y) ensures Entry(s1, y) && At(s1, y).page == At(s, y).page {
      assert Copied(s, s1, f, t, i, next, y);
      if y.d == f && y.i == i && Source(s, f, i).present { SourceOk(s, f, t, i, nr); }
    }
    PagesTrans(s, s1, r);
  }

  // ----- whole ranges -----

  ghost predicate Ranges(f: nat, t: nat, n: nat, nr: nat) {
    && f + n <= 1024 && DIRS <= t && t + n <= 1024 && (t - f) % DIRS == 0 && nr <= 1024
    && (n > 0 ==> && (f + n <= t || t + n <= f)
                  && (if f == 0 then n == 1 && nr == 160 else DIRS <= f && nr == 1024))
  }

  ghost predicate EmptyRange(s: Sys, t: nat, n: nat)
    requires Shape(s) && DIRS <= t && t + n <= 1024
  {
    forall d :: t <= d < t + n ==> !At(s, DirSlot(d)).present
  }

  /** Outside the child's range a slot keeps its word, or loses the write permission. */
  ghost predicate Softer(s: Sys, r: Sys, y: Slot)
    requires Shape(s) && Shape(r) && IsSlot(y)
  {
    At(r, y) == At(s, y) || (y.PteSlot? && At(s, y).present && At(r, y) == ReadOnly(At(s, y)))
  }

  ghost predicate RangeSlot(s: Sys, r: Sys, f: nat, t: nat, n: nat, y: Slot)
    requires Shape(s) && Shape(r)
  {
    IsSlot(y) && !(t <= y.d < t + n) ==>
      Softer(s, r, y) && (f <= y.d < f + n || At(r, y) == At(s, y))
  }

  /** Between s and r only the parent's range f.. has lost write permissions and the child's
      range t.. has been filled. */
  ghost predicate RangeCopied(s: Sys, r: Sys, f: nat, t: nat, n: nat)
    requires Shape(s) && Shape(r)
  {
    PagesKept(s, r) && forall y :: RangeSlot(s, r, f, t, n, y)
  }

  /** Entry i of the child's table d is entry i of the parent's, `apart` directory entries away,
      with the write permission taken. */
  ghost predicate Inherits(s: Sys, r: Sys, apart: int, d: nat, i: nat, nr: nat)
    requires Shape(s) && Shape(r)
  {
    DIRS <= d < 1024 && 0 <= d - apart < 1024 && i < 1024 &&
    At(r, PteSlot(d, i)) ==
      if i < nr && Source(s, d - apart, i).present then ReadOnly(Source(s, d - apart, i)) else ZERO
  }

  ghost predicate InheritsAll(s: Sys, r: Sys, apart: int, lo: nat, hi: nat, nr: nat)
    requires Shape(s) && Shape(r)
  {
    forall d: nat, i: nat :: lo <= d < hi && i < 1024 ==> Inherits(s, r, apart, d, i, nr)
  }

  lemma NewTableKeeps(s: Sys, t: nat)
    requires Inv(s) && DIRS <= t < 1024 && !At(s, DirSlot(t)).present && FreeFrame(s) != 0
    ensures var r := Link(Take(s, FreeFrame(s)), DirSlot(t), MappedTo(FreeFrame(s)));
            && Inv(r) && HasTable(r, t) && PagesKept(s, r)
            && (forall y :: IsSlot(y) && y != DirSlot(t) ==> At(r, y) == At(s, y))
  {
    WithTableKeeps(s, t);
    var p, r := FreeFrame(s), WithTable(s, t).sys;
    TakeKeeps(s, p);
    forall y | Entry(s, y) && Paged(At(s, y).page) ensures r.mem[At(s, y).page] == s.mem[At(s, y).page] {
      assert At(s, y).page != p;
    }
  }

  /** From the entries of one table to the relation between whole ranges. */
  lemma CopyTableJoin(s: Sys, s1: Sys, r: Sys, f: nat, t: nat, nr: nat)
    requires Inv(s) && Inv(s1) && Shape(r) && Pair(f, t, nr) && !At(s, DirSlot(t)).present
    requires PagesKept(s, s1) && PagesKept(s1, r)
    requires forall y :: IsSlot(y) && y != DirSlot(t) ==> At(s1, y) == At(s, y)
    requires forall y :: IsSlot(y) ==> Copied(s1, r, f, t, 0, nr, y)
    ensures RangeCopied(s, r, f, t, 1)
    ensures InheritsAll(s, r, t - f, t, t + 1, nr)
  {
    forall j | 0 <= j < nr ensures Source(s1, f, j) == Source(s, f, j) {
      if DIRS <= f { assert At(s1, PteSlot(f, j)) == At(s, PteSlot(f, j)); }
      SourceKept(s, s1, f, t, 0, nr, j);
    }
    forall y ensures RangeSlot(s, r, f, t, 1, y) {
      if IsSlot(y) && y.d != t {
        assert Copied(s1, r, f, t, 0, nr, y);
        if y.d == f && y.PteSlot? && y.i < nr && Source(s, f, y.i).present { SourceOk(s, f, t, y.i, nr); }
      }
    }
    var apart := t - f;
    forall i: nat | i < 1024 ensures Inherits(s, r, apart, t, i, nr) {
      assert Copied(s1, r, f, t, 0, nr, PteSlot(t, i));
      assert At(s1, PteSlot(t, i)) == At(s, PteSlot(t, i)) == ZERO;
    }
    PagesTrans(s, s1, r);
  }

  /** One table of the range: copied, or passed over when the parent has none. */
  lemma CopyTableKeeps(s: Sys, f: nat, t: nat, nr: nat)
    requires Inv(s) && Pair(f, t, nr) && !At(s, DirSlot(t)).present
    requires s.mem[0][f].present ==> FreeFrame(s) != 0
    ensures var r := CopyTable(s, f, t, nr);
            && Inv(r) && RangeCopied(s, r, f, t, 1)
            && InheritsAll(s, r, t - f, t, t + 1, nr)
  {
    if s.mem[0][f].present {
      NewTableKeeps(s, t);
      var s1 := Link(Take(s, FreeFrame(s)), DirSlot(t), MappedTo(FreeFrame(s)));
      forall j | 0 <= j < nr ensures Room(s1, PteSlot(t, j)) {
        assert At(s1, PteSlot(t, j)) == At(s, PteSlot(t, j));
      }
      CopyEntriesKeep(s1, f, t, 0, nr);
      CopyTableJoin(s, s1, CopyEntries(s1, f, t, 0, nr), f, t, nr);
    }
  }

  lemma RangesNext(f: nat, t: nat, n: nat, nr: nat)
    requires Ranges(f, t, n, nr) && n > 0
    ensures Pair(f, t, nr) && Ranges(f + 1, t + 1, n - 1, nr)
  {
    var k := (t - f) / DIRS;
    assert t == DIRS * (f / DIRS + k) + f % DIRS;
  }

  /** Whether or not the memory suffices: outside the child's range every slot keeps its page and
      every page its contents. If it does, the child has the parent's pages, all read-only. */
  lemma {:induction false} CopyTablesKeep(s: Sys, f: nat, t: nat, n: nat, nr: nat)
    requires Inv(s) && Ranges(f, t, n, nr) && EmptyRange(s, t, n)
    ensures var r := CopyTables(s, f, t, n, nr);
            && Inv(r.sys) && RangeCopied(s, r.sys, f, t, n)
            && (r.ok ==> InheritsAll(s, r.sys, t - f, t, t + n, nr))
    decreases n
  {
    if n > 0 && !(s.mem[0][f].present && FreeFrame(s) == 0) {
      assert !At(s, DirSlot(t)).present;
      var s1 := CopyTable(s, f, t, nr);
      RangesNext(f, t, n, nr);
      CopyTableKeeps(s, f, t, nr);
      RestEmpty(s, s1, f, t, n);
      CopyTablesKeep(s1, f + 1, t + 1, n - 1, nr);
      var r := CopyTables(s, f, t, n, nr);
      CopyTablesJoin(s, s1, r.sys, f, t, n);
      if r.ok { InheritsJoin(s, s1, r.sys, f, t, n, nr); }
    }
  }

  lemma RestEmpty(s: Sys, s1: Sys, f: nat, t: nat, n: nat)
    requires Shape(s) && Shape(s1) && DIRS <= t && n > 0 && t + n <= 1024 && EmptyRange(s, t, n)
    requires RangeCopied(s, s1, f, t, 1)
    ensures EmptyRange(s1, t + 1, n - 1)
  {
    forall d | t + 1 <= d < t + 1 + (n - 1) ensures !At(s1, DirSlot(d)).present {
      assert !At(s, DirSlot(d)).present;
      assert RangeSlot(s, s1, f, t, 1, DirSlot(d));
    }
  }

  lemma CopyTablesJoin(s: Sys, s1: Sys, r: Sys, f: nat, t: nat, n: nat)
    requires Inv(s) && Shape(s1) && Shape(r) && n > 0 && DIRS <= t < 1024 && !At(s, DirSlot(t)).present
    requires RangeCopied(s, s1, f, t, 1) && RangeCopied(s1, r, f + 1, t + 1, n - 1)
    ensures RangeCopied(s, r, f, t, n)
  {
    forall y | Entry(s, y) ensures Entry(s1, y) && At(s1, y).page == At(s, y).page {
      assert RangeSlot(s, s1, f, t, 1, y);
    }
    PagesTrans(s, s1, r);
    forall y ensures RangeSlot(s, r, f, t, n, y) {
      assert RangeSlot(s, s1, f, t, 1, y) && RangeSlot(s1, r, f + 1, t + 1, n - 1, y);
    }
  }

  lemma InheritsJoin(s: Sys, s1: Sys, r: Sys, f: nat, t: nat, n: nat, nr: nat)
    requires Inv(s) && Shape(s1) && Shape(r) && n > 0 && Ranges(f, t, n, nr)
    requires RangeCopied(s, s1, f, t, 1) && RangeCopied(s1, r, f + 1, t + 1, n - 1)
    requires InheritsAll(s, s1, t - f, t, t + 1, nr)
    requires InheritsAll(s1, r, t - f, t + 1, t + n, nr)
    ensures InheritsAll(s, r, t - f, t, t + n, nr)
  {
    var apart := t - f;
    forall d: nat, i: nat | t <= d < t + n && i < 1024 ensures Inherits(s, r, apart, d, i, nr) {
      if d == t {
        assert Inherits(s, s1, apart, t, i, nr);
        assert RangeSlot(s1, r, f + 1, t + 1, n - 1, PteSlot(t, i));
      } else {
        assert Inherits(s1, r, apart, d, i, nr);
        var k := d - apart;
        assert RangeSlot(s, s1, f, t, 1, PteSlot(k, i));
        assert Source(s1, k, i) == At(s1, PteSlot(k, i)) && Source(s, k, i) == At(s, PteSlot(k, i));
      }
    }
  }

  // ----- copy_mem -----

  /** Fork's copy of the address space, taken back when the memory runs out. */
  function CopyMem(s: Sys, f: nat, t: nat, n: nat, nr: nat): (r: Done)
    requires Shape(s) && f + n <= 1024 && DIRS <= t && t + n <= 1024 && nr <= 1024
    ensures Shape(r.sys)
  {
    var r := CopyTables(s, f, t, n, nr);
    if r.ok then r else Done(FreeTables(r.sys, t, n), false)
  }

  lemma SofterView(s: Sys, r: Sys, y: Slot)
    requires Inv(s) && Shape(r) && PagesKept(s, r) && (IsSlot(y) ==> Softer(s, r, y))
    ensures ViewKept(s, r, y)
  {
    SameView(s, r, y);
  }

  /** A successful fork: the child sees the parent's pages, neither can write to them, and
      everyone else sees what they saw. */
  lemma ForkShares(s: Sys, f: nat, t: nat, n: nat, nr: nat)
    requires Inv(s) && Ranges(f, t, n, nr) && EmptyRange(s, t, n) && CopyMem(s, f, t, n, nr).ok
    ensures var r := CopyMem(s, f, t, n, nr).sys;
            && Inv(r)
            && (forall y: Slot :: !(t <= y.d < t + n) ==> ViewKept(s, r, y))
            && (DIRS <= f ==> forall d, i :: t <= d < t + n && 0 <= i < 1024 ==>
                  && ViewOf(r, PteSlot(d, i)) == ViewOf(s, PteSlot(d - (t - f), i))
                  && !At(r, PteSlot(d, i)).rw)
  {
    CopyTablesKeep(s, f, t, n, nr);
    var r := CopyMem(s, f, t, n, nr).sys;
    forall y: Slot | !(t <= y.d < t + n) ensures ViewKept(s, r, y) {
      assert RangeSlot(s, r, f, t, n, y);
      SofterView(s, r, y);
    }
    forall d, i | DIRS <= f && t <= d < t + n && 0 <= i < 1024
      ensures ViewOf(r, PteSlot(d, i)) == ViewOf(s, PteSlot(d - (t - f), i)) && !At(r, PteSlot(d, i)).rw
    {
      var k := d - (t - f);
      assert Inherits(s, r, t - f, d, i, nr);
      assert Source(s, k, i) == At(s, PteSlot(k, i));
    }
  }

  /** A failed fork leaves every count as it was and the child's range empty. The parent sees
      the same bytes, but what it could write to is now write-protected. */
  lemma FailedForkUndone(s: Sys, f: nat, t: nat, n: nat, nr: nat)
    requires Inv(s) && Ranges(f, t, n, nr) && EmptyRange(s, t, n) && !CopyMem(s, f, t, n, nr).ok
    ensures var r := CopyMem(s, f, t, n, nr).sys;
            && Inv(r)
            && r.count == s.count && r.held == s.held
            && EmptyRange(r, t, n)
            && ViewsKept(s, r)
            && (forall y :: IsSlot(y) && !(t <= y.d < t + n) ==> Softer(s, r, y))
  {
    CopyTablesKeep(s, f, t, n, nr);
    var r1 := CopyTables(s, f, t, n, nr).sys;
    FreeTablesKeep(r1, t, n);
    var r := FreeTables(r1, t, n);
    forall y | IsSlot(y) ensures Softer(s, r, y) || (t <= y.d < t + n && !At(s, y).present && !At(r, y).present) {
      if t <= y.d < t + n { assert !At(s, DirSlot(y.d)).present; } else { assert RangeSlot(s, r1, f, t, n, y); }
    }
    forall p: nat | Paged(p) ensures CountOf(r, p) == CountOf(s, p) {
      RefsSame(s, r, p);
      assert CountExact(s, p) && CountExact(r, p);
    }
    forall k | 0 <= k < PAGING_PAGES ensures r.count[k] == s.count[k] {
      assert CountOf(r, k + LOW_FRAMES) == CountOf(s, k + LOW_FRAMES);
    }
    assert r.count == s.count;
    forall y ensures ViewKept(s, r, y) {
      if IsSlot(y) && !(t <= y.d < t + n) {
        assert RangeSlot(s, r1, f, t, n, y);
        SofterView(s, r1, y);
        assert ViewKept(r1, r, y);
      } else if IsSlot(y) {
        assert !At(s, DirSlot(y.d)).present;
      }
    }
    forall d | t <= d < t + n ensures !At(r, DirSlot(d)).present { }
  }
}
