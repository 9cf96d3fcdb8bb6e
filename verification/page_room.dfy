/** How much memory the routines of mm/memory.c need: each succeeds exactly when mem_map has as many
    zero bytes as it takes pages. */
module PageRoom {
  import opened Collections
  import opened PageState
  import opened PageSteps
  import opened PageOps
  import opened PageFork

  /** The zero bytes of mem_map. */
  function Zeros(s: Sys): set<nat>
    requires Shape(s)
  {
    set k: nat | k < PAGING_PAGES && s.count[k] == 0
  }

  /** The page tables in n directory entries from f on. */
  function Tables(s: Sys, f: nat, n: nat): set<nat>
    requires Shape(s)
  {
    set d: nat | f <= d < f + n && d < 1024 && s.mem[0][d].present
  }

  lemma NoneFree(s: Sys)
    requires Shape(s)
    ensures FreeFrame(s) == 0 <==> Zeros(s) == {}
    ensures FreeFrame(s) != 0 ==> FreeFrame(s) - LOW_FRAMES in Zeros(s)
  {
    var p := FreeFrame(s);
    if p != 0 {
      assert CountOf(s, p) == s.count[p - LOW_FRAMES];
      assert p - LOW_FRAMES in Zeros(s);
    } else {
      forall k: nat | k < PAGING_PAGES ensures s.count[k] != 0 { assert CountOf(s, k + LOW_FRAMES) != 0; }
    }
  }

  /** Where one free page has been taken there is one less. */
  lemma OneTaken(s: Sys, r: Sys)
    requires Shape(s) && Shape(r) && FreeFrame(s) != 0 && r.count == s.count[FreeFrame(s) - LOW_FRAMES := 1]
    ensures |Zeros(r)| == |Zeros(s)| - 1
  {
    NoneFree(s);
    var k := FreeFrame(s) - LOW_FRAMES;
    assert Zeros(r) == Zeros(s) - {k};
  }

  // ----- fork -----

  /** Sharing an entry takes no page, and sets none free. */
  lemma EntryTakesNone(s: Sys, f: nat, t: nat, i: nat, nr: nat)
    requires Inv(s) && Pair(f, t, nr) && i < nr && HasTable(s, t) && Room(s, PteSlot(t, i))
    ensures Zeros(CopyEntry(s, f, t, i)) == Zeros(s)
  {
    var w := Source(s, f, i);
    if w.present {
      SourceOk(s, f, t, i, nr);
      if Paged(w.page) {
        OneRef(s, w.page, PteSlot(f, i));
        CountFitsByte(s, w.page);
      }
    }
  }

  lemma {:induction false} EntriesTakeNone(s: Sys, f: nat, t: nat, i: nat, nr: nat)
    requires Inv(s) && Pair(f, t, nr) && i <= nr && HasTable(s, t)
    requires forall j :: i <= j < nr ==> Room(s, PteSlot(t, j))
    ensures Zeros(CopyEntries(s, f, t, i, nr)) == Zeros(s)
    decreases nr - i
  {
    if i < nr {
      EntryTakesNone(s, f, t, i, nr);
      CopyEntryKeeps(s, f, t, i, nr);
      var s1 := CopyEntry(s, f, t, i);
      LaterEntries(s, s1, f, t, i, i + 1, nr);
      EntriesTakeNone(s1, f, t, i + 1, nr);
    }
  }

  /** A table takes one page. */
  lemma TableTakesOne(s: Sys, f: nat, t: nat, nr: nat)
    requires Inv(s) && Pair(f, t, nr) && !At(s, DirSlot(t)).present
    requires s.mem[0][f].present ==> FreeFrame(s) != 0
    ensures |Zeros(CopyTable(s, f, t, nr))| == |Zeros(s)| - if s.mem[0][f].present then 1 else 0
  {
    if s.mem[0][f].present {
      NewTableKeeps(s, t);
      var s1 := Link(Take(s, FreeFrame(s)), DirSlot(t), MappedTo(FreeFrame(s)));
      forall j | 0 <= j < nr ensures Room(s1, PteSlot(t, j)) {
        assert At(s1, PteSlot(t, j)) == At(s, PteSlot(t, j));
      }
      OneTaken(s, s1);
      EntriesTakeNone(s1, f, t, 0, nr);
    }
  }

  /** The parent's further tables are still to come when one has been copied. */
  lemma TablesLeft(s: Sys, s1: Sys, f: nat, t: nat, n: nat, nr: nat)
    requires Shape(s) && Shape(s1) && n > 0 && Ranges(f, t, n, nr) && RangeCopied(s, s1, f, t, 1)
    ensures |Tables(s, f, n)| == |Tables(s1, f + 1, n - 1)| + if s.mem[0][f].present then 1 else 0
  {
    forall d: nat | f < d < f + n ensures s1.mem[0][d] == s.mem[0][d] { LaterTable(s, s1, f, t, n, nr, d); }
    SameTables(s, s1, f + 1, n - 1);
    TablesFrom(s, f, n);
  }

  lemma LaterTable(s: Sys, s1: Sys, f: nat, t: nat, n: nat, nr: nat, d: nat)
    requires Shape(s) && Shape(s1) && Ranges(f, t, n, nr) && RangeCopied(s, s1, f, t, 1) && f < d < f + n
    ensures s1.mem[0][d] == s.mem[0][d]
  {
    assert RangeSlot(s, s1, f, t, 1, DirSlot(d));
    assert At(s1, DirSlot(d)) == s1.mem[0][d] && At(s, DirSlot(d)) == s.mem[0][d];
  }

  lemma SameTables(s: Sys, s1: Sys, f: nat, n: nat)
    requires Shape(s) && Shape(s1) && f + n <= 1024
    requires forall d: nat :: f <= d < f + n ==> s1.mem[0][d] == s.mem[0][d]
    ensures Tables(s1, f, n) == Tables(s, f, n)
  {
  }

  lemma TablesFrom(s: Sys, f: nat, n: nat)
    requires Shape(s) && n > 0 && f + n <= 1024
    ensures |Tables(s, f, n)| == |Tables(s, f + 1, n - 1)| + if s.mem[0][f].present then 1 else 0
  {
    var rest := Tables(s, f + 1, n - 1);
    assert Tables(s, f, n) == if s.mem[0][f].present then rest + {f} else rest;
  }

  lemma {:induction false} TablesNeed(s: Sys, f: nat, t: nat, n: nat, nr: nat)
    requires Inv(s) && Ranges(f, t, n, nr) && EmptyRange(s, t, n)
    ensures CopyTables(s, f, t, n, nr).ok <==> |Tables(s, f, n)| <= |Zeros(s)|
    decreases n
  {
    if n == 0 {
      assert Tables(s, f, n) == {};
    } else {
      NoneFree(s);
      if s.mem[0][f].present && FreeFrame(s) == 0 {
        assert f in Tables(s, f, n);
      } else {
        assert !At(s, DirSlot(t)).present;
        var s1 := CopyTable(s, f, t, nr);
        RangesNext(f, t, n, nr);
        CopyTableKeeps(s, f, t, nr);
        RestEmpty(s, s1, f, t, n);
        TableTakesOne(s, f, t, nr);
        TablesLeft(s, s1, f, t, n, nr);
        TablesNeed(s1, f + 1, t + 1, n - 1, nr);
      }
    }
  }

  /** A fork succeeds if and only if there is a free page for each page table of the parent. */
  lemma ForkOkIff(s: Sys, f: nat, t: nat, n: nat, nr: nat)
    requires Inv(s) && Ranges(f, t, n, nr) && EmptyRange(s, t, n)
    ensures CopyMem(s, f, t, n, nr).ok <==> |Tables(s, f, n)| <= |Zeros(s)|
  {
    TablesNeed(s, f, t, n, nr);
  }

  // ----- one page -----

  /** The pages it takes to have a table for directory entry d. */
  function TableNeed(s: Sys, d: nat): nat
    requires Shape(s) && d < 1024
  {
    if s.mem[0][d].present then 0 else 1
  }

  /** put_page succeeds if and only if there is a page for the table, should that be missing. */
  lemma PutPageOkIff(s: Sys, p: nat, x: Slot)
    requires Inv(s) && IsSlot(x) && Paged(p)
    ensures PutPage(s, p, x).ok <==> TableNeed(s, x.d) <= |Zeros(s)|
  {
    NoneFree(s);
  }

  /** A missing page is supplied if and only if there is one, and one more for a missing table. */
  lemma NewPageOkIff(s: Sys, x: Slot, pg: Page)
    requires Inv(s) && Room(s, x)
    ensures NewPage(s, x, pg).ok <==> 1 + TableNeed(s, x.d) <= |Zeros(s)|
  {
    var p := FreeFrame(s);
    NoneFree(s);
    if p != 0 {
      TakeAndFill(s, p, pg);
      var s1 := Filled(Take(s, p), p, pg);
      OneTaken(s, s1);
      assert At(s1, DirSlot(x.d)) == At(s, DirSlot(x.d));
      PutPageOkIff(s1, p, x);
    }
  }

  /** A write fault is resolved if and only if the page is the entry's alone or there is a page for
      the copy. */
  lemma UnprotectOkIff(s: Sys, x: Slot)
    requires Inv(s) && Entry(s, x)
    ensures Unprotect(s, x).ok
       <==> (Paged(At(s, x).page) && Refs(s, At(s, x).page) == {x} && HeldOf(s, At(s, x).page) == 0)
            || Zeros(s) != {}
  {
    UnprotectKeeps(s, x);
    NoneFree(s);
    var p := At(s, x).page;
    if Paged(p) {
      OneRef(s, p, x);
      assert CountExact(s, p);
    }
  }

  /** An entry that has its page alone keeps it, and no page is taken; else one is taken. */
  lemma UnprotectTakes(s: Sys, x: Slot)
    requires Inv(s) && Entry(s, x) && Unprotect(s, x).ok
    ensures var r, p := Unprotect(s, x).sys, At(s, x).page;
            if Paged(p) && Refs(s, p) == {x} && HeldOf(s, p) == 0
            then At(r, x) == At(s, x).(rw := true) && r.count == s.count && r.held == s.held
            else At(r, x).page != p && |Zeros(r)| == |Zeros(s)| - 1
  {
    var p := At(s, x).page;
    EntryHasTable(s, x);
    if Paged(p) {
      OneRef(s, p, x);
      assert CountExact(s, p);
    }
    if Paged(p) && CountOf(s, p) == 1 { SetRwKeeps(s, x, true); } else { CopyTakesOne(s, x); }
  }

  lemma CopyTakesOne(s: Sys, x: Slot)
    requires Inv(s) && Entry(s, x) && FreeFrame(s) != 0
    requires !(Paged(At(s, x).page) && CountOf(s, At(s, x).page) == 1)
    ensures At(s, x).page < s.high
    ensures var r := Unprotect(s, x).sys; At(r, x).page != At(s, x).page && |Zeros(r)| == |Zeros(s)| - 1
  {
    EntryHasTable(s, x);
    if Paged(At(s, x).page) { OneRef(s, At(s, x).page, x); }
    CopyCounts(s, x);
    CopiedTo(s, x);
    TakenAndDropped(s, Unprotect(s, x).sys, At(s, x).page);
  }

  lemma CopiedTo(s: Sys, x: Slot)
    requires Inv(s) && Entry(s, x) && FreeFrame(s) != 0 && At(s, x).page < FRAMES
    requires !(Paged(At(s, x).page) && CountOf(s, At(s, x).page) == 1)
    ensures At(Unprotect(s, x).sys, x).page == FreeFrame(s) != At(s, x).page
  {
    CopyKeeps(s, x, FreeFrame(s));
    TakeKeeps(s, FreeFrame(s));
  }

  lemma TakenAndDropped(s: Sys, r: Sys, p: nat)
    requires Shape(s) && Shape(r) && FreeFrame(s) != 0 && p != FreeFrame(s)
    requires Paged(p) ==> CountOf(s, p) > 1
    requires var c := s.count[FreeFrame(s) - LOW_FRAMES := 1];
             r.count == if Paged(p) then c[p - LOW_FRAMES := Dec(CountOf(s, p))] else c
    ensures |Zeros(r)| == |Zeros(s)| - 1
  {
    var s1 := s.(count := s.count[FreeFrame(s) - LOW_FRAMES := 1]);
    OneTaken(s, s1);
    assert Zeros(r) == Zeros(s1);
  }

  lemma CopyCounts(s: Sys, x: Slot)
    requires Inv(s) && Entry(s, x) && FreeFrame(s) != 0 && At(s, x).page < FRAMES
    requires !(Paged(At(s, x).page) && CountOf(s, At(s, x).page) == 1)
    ensures var p, c := At(s, x).page, s.count[FreeFrame(s) - LOW_FRAMES := 1];
            && (Paged(p) ==> p != FreeFrame(s))
            && Unprotect(s, x).sys.count == if Paged(p) then c[p - LOW_FRAMES := Dec(CountOf(s, p))] else c
  {
    var q := FreeFrame(s);
    TakeAndFill(s, q, s.mem[At(s, x).page]);
    assert At(Filled(Take(s, q), q, s.mem[At(s, x).page]), x) == At(s, x);
  }

  // ----- what tasks may do with what they are given -----

  /** Present, for the task to read and to write, and not yet stored to. */
  predicate GivenTo(w: Word) {
    w.present && w.rw && w.user && !w.dirty
  }

  /** A new page and the copy made by a write fault are the task's to use; a table made for it lets
      through what its entries do. */
  lemma GivenToTask(s: Sys, x: Slot, pg: Page)
    requires Inv(s)
    ensures Room(s, x) && NewPage(s, x, pg).ok ==> GivenTo(At(NewPage(s, x, pg).sys, x))
    ensures IsSlot(x) && !At(s, DirSlot(x.d)).present && WithTable(s, x.d).ok ==>
              GivenTo(At(WithTable(s, x.d).sys, DirSlot(x.d)))
    ensures Entry(s, x) && Unprotect(s, x).ok && At(Unprotect(s, x).sys, x).page != At(s, x).page ==>
              GivenTo(At(Unprotect(s, x).sys, x))
  {
    if Room(s, x) && NewPage(s, x, pg).ok { NewPageGiven(s, x, pg); }
    if IsSlot(x) && !At(s, DirSlot(x.d)).present && WithTable(s, x.d).ok { TableGiven(s, x.d); }
    if Entry(s, x) && Unprotect(s, x).ok && At(Unprotect(s, x).sys, x).page != At(s, x).page { CopyGiven(s, x); }
  }

  lemma NewPageGiven(s: Sys, x: Slot, pg: Page)
    requires Inv(s) && Room(s, x) && NewPage(s, x, pg).ok
    ensures GivenTo(At(NewPage(s, x, pg).sys, x))
  {
    var p := FreeFrame(s);
    TakeAndFill(s, p, pg);
    PutPageKeeps(Filled(Take(s, p), p, pg), p, x);
  }

  lemma TableGiven(s: Sys, d: nat)
    requires Inv(s) && DIRS <= d < 1024 && !At(s, DirSlot(d)).present && WithTable(s, d).ok
    ensures GivenTo(At(WithTable(s, d).sys, DirSlot(d)))
  {
    var p := FreeFrame(s);
    TakeKeeps(s, p);
    assert At(Take(s, p), DirSlot(d)) == At(s, DirSlot(d));
    LinkDirKeeps(Take(s, p), d, p);
  }

  lemma CopyGiven(s: Sys, x: Slot)
    requires Inv(s) && Entry(s, x) && Unprotect(s, x).ok && At(Unprotect(s, x).sys, x).page != At(s, x).page
    ensures GivenTo(At(Unprotect(s, x).sys, x))
  {
    EntryHasTable(s, x);
    var p := At(s, x).page;
    if Paged(p) && CountOf(s, p) == 1 { SetRwKeeps(s, x, true); } else { CopyKeeps(s, x, FreeFrame(s)); }
  }

  /** try_to_share shares if and only if the other task has the page, it is in main memory and has
      not been stored to through that entry, and there is a page for a table of its own. */
  lemma ShareOkIff(s: Sys, x: Slot, y: Slot)
    requires Inv(s) && IsSlot(x) && x.PteSlot? && Room(s, y)
    ensures TryToShare(s, x, y).1 == SharedPage
       <==> && At(s, x).present && !At(s, x).dirty && 0x100 <= At(s, x).page
            && TableNeed(s, y.d) <= |Zeros(s)|
  {
    NoneFree(s);
    assert SlotOk(s, x);
  }
}
