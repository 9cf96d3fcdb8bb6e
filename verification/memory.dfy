/** mm/memory.c and `copy_mem` of kernel/fork.c in their own form: loops over arrays that are
    changed in place, each proved to compute the function of PageOps or PageFork. */
module Memory {
  import opened PageState
  import opened PageSteps
  import opened PageOps
  import opened PageFork

  /** The words a copying write fault changes, in the source's order: page, entry, contents. */
  lemma CopyInPlace(s: Sys, x: Slot, q: nat)
    requires Inv(s) && Entry(s, x) && q == FreeFrame(s) != 0
    requires !(Paged(At(s, x).page) && CountOf(s, At(s, x).page) == 1)
    ensures At(s, x).page < FRAMES && s.mem[0][x.d].page < FRAMES && Paged(q)
    ensures var t, was, r := s.mem[0][x.d].page, At(s, x).page, Unprotect(s, x);
            && r.ok && t != q && was != t && t != 0 && At(s, x) == s.mem[t][x.i]
            && r.sys.mem == s.mem[q := ZeroPage()][t := s.mem[t][x.i := MappedTo(q)]][q := s.mem[was]]
            && r.sys.count == (var c := s.count[q - LOW_FRAMES := 1];
                               if Paged(was) then c[was - LOW_FRAMES := Dec(CountOf(s, was))] else c)
            && r.sys.held == s.held[q - LOW_FRAMES := 1][q - LOW_FRAMES := 0]
            && (Paged(was) ==> was != q)
  {
    EntryHasTable(s, x);
    assert SlotOk(s, DirSlot(x.d));
    NoRef(s, q, DirSlot(x.d)) by { assert CountExact(s, q); }
    NoRef(s, q, x) by { assert CountExact(s, q); }
    TableIsPrivate(s, x.d, x);
    TakeAndFill(s, q, s.mem[At(s, x).page]);
    var t := s.mem[0][x.d].page;
    assert s.mem[t][x.i := ZERO][x.i := MappedTo(q)] == s.mem[t][x.i := MappedTo(q)];
  }

  /** Copying an entry leaves the directory alone. */
  lemma TableStays(s: Sys, s1: Sys, f: nat, t: nat, i: nat, next: nat, nr: nat)
    requires Inv(s) && Inv(s1) && PagesKept(s, s1) && Pair(f, t, nr) && next == i + 1 <= nr
    requires forall y :: IsSlot(y) ==> Copied(s, s1, f, t, i, next, y)
    ensures s1.mem[0][f].present == s.mem[0][f].present
  {
    if DIRS <= f {
      assert Copied(s, s1, f, t, i, next, DirSlot(f));
    }
  }

  lemma ShareReady(s: Sys, x: Slot, y: Slot)
    requires Inv(s) && Entry(s, x) && Room(s, y) && HasTable(s, y.d) && Paged(At(s, x).page)
    ensures s.mem[0][x.d].page < FRAMES && At(s, x) == s.mem[s.mem[0][x.d].page][x.i]
    ensures var s1 := SetRw(s, x, false);
            s1.mem[0][y.d].page < FRAMES && At(s1, x) == At(s, x).(rw := false)
  {
    EntryHasTable(s, x);
    assert SlotOk(s, DirSlot(x.d)) && SlotOk(s, DirSlot(y.d));
    SetRwKeeps(s, x, false);
    assert At(SetRw(s, x, false), DirSlot(y.d)) == At(s, DirSlot(y.d));
  }

  lemma CopyGoesOn(s: Sys, f: nat, t: nat, n: nat, nr: nat)
    requires Inv(s) && n > 0 && Ranges(f, t, n, nr) && EmptyRange(s, t, n)
    ensures Pair(f, t, nr) && !s.mem[0][t].present && Ranges(f + 1, t + 1, n - 1, nr)
    ensures if s.mem[0][f].present && FreeFrame(s) == 0
            then CopyTable(s, f, t, nr) == s && CopyTables(s, f, t, n, nr) == Done(s, false)
            else Inv(CopyTable(s, f, t, nr)) && EmptyRange(CopyTable(s, f, t, nr), t + 1, n - 1)
    ensures !(s.mem[0][f].present && FreeFrame(s) == 0) ==>
              CopyTables(s, f, t, n, nr) == CopyTables(CopyTable(s, f, t, nr), f + 1, t + 1, n - 1, nr)
  {
    RangesNext(f, t, n, nr);
    assert !At(s, DirSlot(t)).present;
    if !(s.mem[0][f].present && FreeFrame(s) == 0) {
      CopyTableKeeps(s, f, t, nr);
      RestEmpty(s, CopyTable(s, f, t, nr), f, t, n);
    }
  }

  lemma FreeEntryGoesOn(s: Sys, d: nat, i: nat)
    requires Inv(s) && HasTable(s, d) && i < 1024
    ensures var r := FreeEntry(s, PteSlot(d, i));
            Inv(r) && HasTable(r, d) && FreeEntries(s, d, i) == FreeEntries(r, d, i + 1)
  {
    FreeEntryKeeps(s, PteSlot(d, i));
  }

  lemma EmptiedTable(s: Sys, d: nat)
    requires Inv(s) && HasTable(s, d)
    ensures var r := FreeEntries(s, d, 0);
            && At(r, DirSlot(d)) == At(s, DirSlot(d)) && Paged(At(r, DirSlot(d)).page)
            && At(r, DirSlot(d)).page < r.high && CountOf(r, At(r, DirSlot(d)).page) == 1
  {
    FreeEntriesKeep(s, d, 0);
    assert SlotOk(FreeEntries(s, d, 0), DirSlot(d));
  }

  lemma FreeTablesGoOn(s: Sys, d: nat, n: nat)
    requires Inv(s) && DIRS <= d && 0 < n && d + n <= 1024
    ensures Inv(FreeTable(s, d))
    ensures FreeTables(s, d, n) == FreeTables(FreeTable(s, d), d + 1, n - 1)
  {
    FreeTableRange(s, d, d + 1);
  }

  class MemoryManager {
    /** Physical memory, frame by frame, and mem_map. */
    const mem: array<Page>
    const memMap: array<Byte>
    /** HIGH_MEMORY, as a frame number. */
    var high: nat
    ghost var held: seq<nat>

    ghost predicate Valid()
      reads this
    {
      && mem.Length == FRAMES
      && memMap.Length == PAGING_PAGES
      && |held| == PAGING_PAGES
      && LOW_FRAMES <= high <= FRAMES
      && mem as object != memMap
    }

    ghost function S(): (s: Sys)
      reads this, mem, memMap
      requires Valid()
      ensures Shape(s)
    {
      Sys(mem[..], memMap[..], held, high)
    }

    /** mem_init: all of mem_map is USED but the pages of main memory. */
    method MemInit(startMem: nat, endMem: nat)
      requires Valid() && KernelOk(S())
      requires LOW_FRAMES <= startMem <= endMem <= FRAMES
      requires forall d :: DIRS <= d < 1024 ==> !mem[0][d].present
      modifies this, memMap
      ensures Valid() && high == endMem && mem[..] == old(mem[..])
      ensures Inv(S())
      ensures forall p: nat :: Paged(p) ==> CountOf(S(), p) == if startMem <= p < endMem then 0 else 100
    {
      high := endMem;
      var i := 0;
      while i < PAGING_PAGES
        invariant 0 <= i <= PAGING_PAGES
        invariant forall k :: 0 <= k < i ==> memMap[k] == 100
        modifies memMap
      {
        memMap[i] := 100;
        i := i + 1;
      }
      i := startMem - LOW_FRAMES;
      var left := endMem - startMem;
      while left > 0
        invariant startMem - LOW_FRAMES <= i && 0 <= left && i + left == endMem - LOW_FRAMES
        invariant forall k :: 0 <= k < PAGING_PAGES ==>
                    memMap[k] == if startMem - LOW_FRAMES <= k < i then 0 else 100
        modifies memMap
      {
        memMap[i] := 0;
        i := i + 1;
        left := left - 1;
      }
      held := seq(PAGING_PAGES, k requires 0 <= k =>
        if startMem - LOW_FRAMES <= k < endMem - LOW_FRAMES then 0 else 100);
      ghost var s := S();
      forall x | IsSlot(x) ensures !At(s, x).present {
        assert !mem[0][x.d].present;
      }
      forall p: nat | Paged(p) ensures CountExact(s, p) {
        assert Refs(s, p) == {};
        assert CountOf(s, p) == memMap[p - LOW_FRAMES];
      }
      forall x, y | IsSlot(x) && IsSlot(y) ensures Aligned(s, x, y) {
        assert !At(s, x).present;
      }
    }

    /** The scan for a zero byte from the end of mem_map; the page found is marked and cleared. */
    method GetFreePage() returns (p: nat)
      requires Valid()
      modifies this`held, mem, memMap
      ensures Valid() && p == FreeFrame(old(S()))
      ensures S() == if p == 0 then old(S()) else Take(old(S()), p)
    {
      ghost var s := S();
      var n := PAGING_PAGES;
      while n > 0 && memMap[n - 1] != 0
        invariant 0 <= n <= PAGING_PAGES
        invariant LastZero(memMap[..n]) == LastZero(memMap[..])
      {
        assert memMap[..n][..n - 1] == memMap[..n - 1];
        n := n - 1;
      }
      if n == 0 {
        return 0;
      }
      assert memMap[..n][n - 1] == 0;
      p := n - 1 + LOW_FRAMES;
      memMap[n - 1] := 1;
      held := held[n - 1 := 1];
      mem[p] := ZeroPage();
      assert S().count == s.count[n - 1 := 1];
      assert S().mem == s.mem[p := ZeroPage()];
    }

    /** free_page; false where the source panics. */
    method FreePage(p: nat) returns (ok: bool)
      requires Valid()
      modifies memMap
      ensures Valid()
      ensures ok <==> p < LOW_FRAMES || (p < high && CountOf(old(S()), p) > 0)
      ensures S() == if Paged(p) && ok then Counted(old(S()), p, Dec(CountOf(old(S()), p))) else old(S())
    {
      ghost var s := S();
      if p < LOW_FRAMES {
        return true;
      }
      if p >= high {
        return false;
      }
      var was := memMap[p - LOW_FRAMES];
      memMap[p - LOW_FRAMES] := Dec(was);
      if was != 0 {
        assert S().count == s.count[p - LOW_FRAMES := Dec(was)];
        return true;
      }
      memMap[p - LOW_FRAMES] := 0;
      assert S().count == s.count;
      return false;
    }

    /** `*table_entry = w` */
    method SetEntry(x: Slot, w: Word)
      requires Valid() && IsSlot(x)
      requires x.PteSlot? ==> mem[0][x.d].page < FRAMES
      modifies mem
      ensures Valid() && S() == Put(old(S()), x, w)
    {
      ghost var s := S();
      if x.DirSlot? {
        mem[0] := mem[0][x.d := w];
        assert S().mem == Put(s, x, w).mem;
      } else {
        var t := mem[0][x.d].page;
        mem[t] := mem[t][x.i := w];
        assert S().mem == Put(s, x, w).mem;
      }
    }

    /** un_wp_page from the new page on: the old page's count, the entry, the contents. */
    method MoveEntry(t: nat, i: nat, oldPage: nat, newPage: nat)
      requires Valid() && 0 < t < FRAMES && i < 1024 && oldPage < FRAMES && Paged(newPage)
      modifies this`held, mem, memMap
      ensures Valid() && S().high == old(high)
      ensures S().mem == old(mem[..])[t := old(mem[t])[i := MappedTo(newPage)]][newPage := S().mem[oldPage]]
      ensures oldPage != newPage && oldPage != t ==> S().mem[oldPage] == old(mem[oldPage])
      ensures S().count == if Paged(oldPage)
                           then old(memMap[..])[oldPage - LOW_FRAMES := Dec(old(memMap[oldPage - LOW_FRAMES]))]
                           else old(memMap[..])
      ensures S().held == old(held)[newPage - LOW_FRAMES := 0]
    {
      if oldPage >= LOW_FRAMES {
        memMap[oldPage - LOW_FRAMES] := Dec(memMap[oldPage - LOW_FRAMES]);
      }
      mem[t] := mem[t][i := MappedTo(newPage)];
      held := held[newPage - LOW_FRAMES := 0];
      mem[newPage] := mem[oldPage];
    }

    /** The second half of un_wp_page: a page shared with others is copied. */
    method CopyToNewPage(x: Slot) returns (ok: bool)
      requires Valid() && Inv(S()) && Entry(S(), x)
      requires !(Paged(At(S(), x).page) && CountOf(S(), At(S(), x).page) == 1)
      modifies this`held, mem, memMap
      ensures Valid() && Done(S(), ok) == Unprotect(old(S()), x)
    {
      ghost var s := S();
      EntryHasTable(s, x);
      var newPage := GetFreePage();
      if newPage == 0 {
        return false;
      }
      CopyInPlace(s, x, newPage);
      var t := mem[0][x.d].page;
      MoveEntry(t, x.i, mem[t][x.i].page, newPage);
      return true;
    }

    /** un_wp_page; false where the source kills the task for lack of memory. */
    method UnWpPage(x: Slot) returns (ok: bool)
      requires Valid() && Inv(S()) && Entry(S(), x)
      modifies this`held, mem, memMap
      ensures Valid() && Done(S(), ok) == Unprotect(old(S()), x)
    {
      EntryHasTable(S(), x);
      assert SlotOk(S(), DirSlot(x.d));
      var entry := mem[mem[0][x.d].page][x.i];
      if entry.page >= LOW_FRAMES && memMap[entry.page - LOW_FRAMES] == 1 {
        SetEntry(x, entry.(rw := true));
        return true;
      }
      ok := CopyToNewPage(x);
    }

    /** write_verify: a page that is present and write-protected gets the treatment of a fault. */
    method WriteVerify(x: Slot) returns (ok: bool)
      requires Valid() && Inv(S()) && IsSlot(x) && x.PteSlot?
      modifies this`held, mem, memMap
      ensures Valid() && Inv(S()) && ViewsKept(old(S()), S())
      ensures ok && At(S(), x).present ==> At(S(), x).rw
      ensures At(old(S()), x).present <==> At(S(), x).present
      ensures !ok ==> S() == old(S()) && FreeFrame(S()) == 0
    {
      if !mem[0][x.d].present {
        return true;
      }
      assert SlotOk(S(), DirSlot(x.d));
      var entry := mem[mem[0][x.d].page][x.i];
      assert entry == At(S(), x);
      if entry.present && !entry.rw {
        UnprotectKeeps(S(), x);
        ok := UnWpPage(x);
        return;
      }
      return true;
    }

    /** The page table of directory entry d, made when it is missing. */
    method EnsureTable(d: nat) returns (ok: bool)
      requires Valid() && Inv(S()) && DIRS <= d < 1024
      modifies this`held, mem, memMap
      ensures Valid() && Done(S(), ok) == WithTable(old(S()), d)
    {
      if mem[0][d].present {
        return true;
      }
      var tmp := GetFreePage();
      if tmp == 0 {
        return false;
      }
      SetEntry(DirSlot(d), MappedTo(tmp));
      held := held[tmp - LOW_FRAMES := 0];
      return true;
    }

    /** put_page(page, address) */
    method PutPage(p: nat, x: Slot) returns (ok: bool)
      requires Valid() && Inv(S()) && IsSlot(x) && x.PteSlot? && Paged(p)
      modifies this`held, mem, memMap
      ensures Valid() && Done(S(), ok) == PageOps.PutPage(old(S()), p, x)
    {
      WithTableKeeps(S(), x.d);
      ok := EnsureTable(x.d);
      if ok {
        assert SlotOk(S(), DirSlot(x.d));
        SetEntry(x, MappedTo(p));
        held := held[p - LOW_FRAMES := 0];
      }
    }

    /** put_page for a page just got; it is given back when that fails. */
    method PutOrFree(page: nat, x: Slot) returns (ok: bool)
      requires Valid() && Inv(S()) && Room(S(), x)
      requires Paged(page) && page < high && CountOf(S(), page) == HeldOf(S(), page) == 1
      modifies this`held, mem, memMap
      ensures Valid() && Done(S(), ok) == PageOps.PutOrFree(old(S()), page, x)
    {
      PutPageKeeps(S(), page, x);
      ok := PutPage(page, x);
      if !ok {
        var freed := FreePage(page);
        held := held[page - LOW_FRAMES := 0];
      }
    }

    /** do_no_page from the free page on: the four blocks of the executable, already cut off at
        end_data, are `pg`. */
    method LoadPage(x: Slot, pg: Page) returns (ok: bool)
      requires Valid() && Inv(S()) && Room(S(), x)
      modifies this`held, mem, memMap
      ensures Valid() && Done(S(), ok) == NewPage(old(S()), x, pg)
    {
      ghost var s := S();
      var page := GetFreePage();
      if page == 0 {
        return false;
      }
      TakeAndFill(s, page, pg);
      mem[page] := pg;
      assert S() == Filled(Take(s, page), page, pg);
      ok := PutOrFree(page, x);
    }

    /** get_empty_page */
    method GetEmptyPage(x: Slot) returns (ok: bool)
      requires Valid() && Inv(S()) && Room(S(), x)
      modifies this`held, mem, memMap
      ensures Valid() && Done(S(), ok) == NewPage(old(S()), x, ZeroPage())
    {
      ghost var s := S();
      var tmp := GetFreePage();
      if tmp == 0 {
        var freed := FreePage(tmp);
        return false;
      }
      TakeAndFill(s, tmp, ZeroPage());
      assert S() == Filled(Take(s, tmp), tmp, ZeroPage());
      ok := PutOrFree(tmp, x);
    }

    /** Write-protect entry x, store it in entry y, and count the page once more. */
    method ShareOne(x: Slot, y: Slot)
      requires Valid() && Inv(S()) && Entry(S(), x) && Room(S(), y) && HasTable(S(), y.d)
      requires Paged(At(S(), x).page)
      modifies mem, memMap
      ensures Valid()
      ensures var s1 := SetRw(old(S()), x, false); S() == AddRef(s1, y, At(s1, x))
    {
      ghost var s := S();
      ShareReady(s, x, y);
      var entry := mem[mem[0][x.d].page][x.i].(rw := false);
      SetEntry(x, entry);
      assert S() == SetRw(s, x, false);
      SetEntry(y, entry);
      memMap[entry.page - LOW_FRAMES] := Inc(memMap[entry.page - LOW_FRAMES]);
    }

    /** try_to_share: entry x of the other task, entry y of the current one. */
    method TryToShare(x: Slot, y: Slot) returns (r: Shared)
      requires Valid() && Inv(S()) && IsSlot(x) && x.PteSlot? && Room(S(), y) && x.d != y.d
      modifies this`held, mem, memMap
      ensures Valid() && (S(), r) == PageOps.TryToShare(old(S()), x, y)
    {
      ghost var s := S();
      if !mem[0][x.d].present {
        return NotShared;
      }
      assert SlotOk(s, DirSlot(x.d));
      var entry := mem[mem[0][x.d].page][x.i];
      assert entry == At(s, x);
      if !entry.present || entry.dirty || entry.page >= high || entry.page < LOW_FRAMES {
        return NotShared;
      }
      WithTableKeeps(s, y.d);
      var ok := EnsureTable(y.d);
      if !ok {
        return NoMemory;
      }
      assert At(S(), x) == At(s, x);
      ShareOne(x, y);
      return SharedPage;
    }

    /** One word of free_page_tables' inner loop. */
    method FreeOne(x: Slot)
      requires Valid() && Inv(S()) && IsSlot(x) && x.PteSlot? && HasTable(S(), x.d)
      modifies mem, memMap
      ensures Valid() && S() == FreeEntry(old(S()), x)
    {
      ghost var s := S();
      assert SlotOk(s, DirSlot(x.d));
      var entry := mem[mem[0][x.d].page][x.i];
      assert entry == At(s, x);
      if entry.present {
        DropPteKeeps(s, x);
        var ok := FreePage(entry.page);
        assert ok;
      }
      SetEntry(x, ZERO);
    }

    /** The inner loop of free_page_tables. */
    method FreeAllEntries(dir: nat)
      requires Valid() && Inv(S()) && HasTable(S(), dir)
      modifies mem, memMap
      ensures Valid() && S() == FreeEntries(old(S()), dir, 0)
    {
      ghost var goal := FreeEntries(S(), dir, 0);
      var nr := 0;
      while nr < 1024
        invariant nr <= 1024
        invariant Valid() && Inv(S()) && HasTable(S(), dir)
        invariant FreeEntries(S(), dir, nr) == goal
      {
        FreeEntryGoesOn(S(), dir, nr);
        FreeOne(PteSlot(dir, nr));
        nr := nr + 1;
      }
    }

    /** A table with all its pages. No call of free_page panics. */
    method FreeOneTable(dir: nat)
      requires Valid() && Inv(S()) && HasTable(S(), dir)
      modifies mem, memMap
      ensures Valid() && S() == FreeTable(old(S()), dir)
    {
      EmptiedTable(S(), dir);
      FreeAllEntries(dir);
      var ok := FreePage(mem[0][dir].page);
      assert ok;
      SetEntry(DirSlot(dir), ZERO);
    }

    /** One round of free_page_tables' loop, with `size` entries still to go. */
    method FreeDirectoryEntry(dir: nat, ghost size: nat)
      requires Valid() && Inv(S()) && DIRS <= dir && 0 < size && dir + size <= 1024
      modifies mem, memMap
      ensures Valid() && Inv(S()) && S() == FreeTable(old(S()), dir)
      ensures FreeTables(S(), dir + 1, size - 1) == FreeTables(old(S()), dir, size)
    {
      FreeTablesGoOn(S(), dir, size);
      if mem[0][dir].present {
        FreeOneTable(dir);
      }
    }

    /** free_page_tables: `n` directory entries from d on. */
    method FreePageTables(d: nat, n: nat)
      requires Valid() && Inv(S()) && DIRS <= d && d + n <= 1024
      modifies mem, memMap
      ensures Valid() && S() == FreeTables(old(S()), d, n)
    {
      ghost var goal := FreeTables(S(), d, n);
      var dir, size := d, n;
      while size > 0
        invariant dir + size == d + n && d <= dir
        invariant Valid() && Inv(S()) && FreeTables(S(), dir, size) == goal
      {
        FreeDirectoryEntry(dir, size);
        dir, size := dir + 1, size - 1;
      }
    }

    /** One entry of copy_page_tables' inner loop, of the parent's table f and the child's table t. */
    method CopyOne(f: nat, t: nat, i: nat, ghost nr: nat)
      requires Valid() && Inv(S()) && Pair(f, t, nr) && i < nr && HasTable(S(), t) && Room(S(), PteSlot(t, i))
      requires mem[0][f].present
      modifies mem, memMap
      ensures Valid() && S() == CopyEntry(old(S()), f, t, i)
    {
      ghost var s := S();
      assert SlotOk(s, DirSlot(t));
      if DIRS <= f { assert SlotOk(s, DirSlot(f)); }
      var thisPage := mem[mem[0][f].page][i];
      assert thisPage == Source(s, f, i);
      if !thisPage.present {
        return;
      }
      SourceOk(s, f, t, i, nr);
      thisPage := thisPage.(rw := false);
      if thisPage.page >= LOW_FRAMES {
        ShareOne(PteSlot(f, i), PteSlot(t, i));
      } else {
        SetEntry(PteSlot(t, i), thisPage);
      }
    }

    /** One round of the inner loop, which is to run up to entry nr. */
    method CopyNext(f: nat, t: nat, i: nat, ghost nr: nat)
      requires Valid() && Inv(S()) && Pair(f, t, nr) && i < nr && HasTable(S(), t) && mem[0][f].present
      requires forall j :: i <= j < nr ==> Room(S(), PteSlot(t, j))
      modifies mem, memMap
      ensures Valid() && Inv(S()) && HasTable(S(), t) && mem[0][f].present
      ensures forall j :: i + 1 <= j < nr ==> Room(S(), PteSlot(t, j))
      ensures CopyEntries(S(), f, t, i + 1, nr) == CopyEntries(old(S()), f, t, i, nr)
    {
      ghost var s := S();
      CopyEntryKeeps(s, f, t, i, nr);
      CopyOne(f, t, i, nr);
      LaterEntries(s, S(), f, t, i, i + 1, nr);
      TableStays(s, S(), f, t, i, i + 1, nr);
    }

    /** The inner loop, over a table that has just been made. */
    method CopyAllEntries(f: nat, t: nat, nr: nat)
      requires Valid() && Inv(S()) && Pair(f, t, nr) && HasTable(S(), t) && mem[0][f].present
      requires forall j :: 0 <= j < nr ==> Room(S(), PteSlot(t, j))
      modifies mem, memMap
      ensures Valid() && S() == CopyEntries(old(S()), f, t, 0, nr)
    {
      ghost var goal := CopyEntries(S(), f, t, 0, nr);
      var i := 0;
      while i < nr
        invariant i <= nr
        invariant Valid() && Inv(S()) && HasTable(S(), t) && mem[0][f].present
        invariant forall j :: i <= j < nr ==> Room(S(), PteSlot(t, j))
        invariant CopyEntries(S(), f, t, i, nr) == goal
      {
        CopyNext(f, t, i, nr);
        i := i + 1;
      }
    }

    /** copy_page_tables for one present table. */
    method CopyOneTable(f: nat, t: nat, nr: nat) returns (ok: bool)
      requires Valid() && Inv(S()) && Pair(f, t, nr) && mem[0][f].present && !mem[0][t].present
      modifies this`held, mem, memMap
      ensures Valid() && ok == (FreeFrame(old(S())) != 0)
      ensures S() == CopyTable(old(S()), f, t, nr)
    {
      ghost var s := S();
      var toPageTable := GetFreePage();
      if toPageTable == 0 {
        return false;
      }
      NewTableKeeps(s, t);
      SetEntry(DirSlot(t), MappedTo(toPageTable));
      held := held[toPageTable - LOW_FRAMES := 0];
      assert S() == Link(Take(s, toPageTable), DirSlot(t), MappedTo(toPageTable));
      CopyAllEntries(f, t, nr);
      return true;
    }

    /** One round of copy_page_tables' outer loop. */
    method CopyDirectoryEntry(f: nat, t: nat, nr: nat) returns (ok: bool)
      requires Valid() && Inv(S()) && Pair(f, t, nr) && !mem[0][t].present
      modifies this`held, mem, memMap
      ensures Valid() && ok == !(old(mem[0][f]).present && FreeFrame(old(S())) == 0)
      ensures S() == CopyTable(old(S()), f, t, nr)
    {
      ok := true;
      if mem[0][f].present {
        ok := CopyOneTable(f, t, nr);
      }
    }

    /** copy_page_tables; false when it runs out of pages part-way. */
    method CopyPageTables(from: nat, to: nat, n: nat) returns (ok: bool)
      requires Valid() && Inv(S()) && Ranges(from, to, n, if from == 0 then 160 else 1024) && EmptyRange(S(), to, n)
      modifies this`held, mem, memMap
      ensures Valid() && Done(S(), ok) == CopyTables(old(S()), from, to, n, if from == 0 then 160 else 1024)
    {
      var nr := if from == 0 then 160 else 1024;
      ghost var goal := CopyTables(S(), from, to, n, nr);
      var f, t, size := from, to, n;
      while size > 0
        invariant f + size == from + n && t + size == to + n
        invariant Valid() && Inv(S()) && Ranges(f, t, size, nr) && EmptyRange(S(), t, size)
        invariant CopyTables(S(), f, t, size, nr) == goal
      {
        CopyGoesOn(S(), f, t, size, nr);
        ok := CopyDirectoryEntry(f, t, nr);
        if !ok {
          return;
        }
        f, t, size := f + 1, t + 1, size - 1;
      }
      return true;
    }

    /** copy_mem's use of the two: false stands for -ENOMEM. */
    method CopyMem(from: nat, to: nat, n: nat) returns (ok: bool)
      requires Valid() && Inv(S()) && Ranges(from, to, n, if from == 0 then 160 else 1024) && EmptyRange(S(), to, n)
      modifies this`held, mem, memMap
      ensures Valid() && Done(S(), ok) == PageFork.CopyMem(old(S()), from, to, n, if from == 0 then 160 else 1024)
    {
      CopyTablesKeep(S(), from, to, n, if from == 0 then 160 else 1024);
      ok := CopyPageTables(from, to, n);
      if !ok {
        FreePageTables(to, n);
      }
    }
  }
}
