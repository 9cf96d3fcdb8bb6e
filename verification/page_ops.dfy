/** The routines of mm/memory.c as functions of the whole state, with what each keeps,
    changes and undoes. */
module PageOps {
  import opened PageState
  import opened PageSteps

  /** What a routine leaves behind, and whether it had the memory it needed. */
  datatype Done = Done(sys: Sys, ok: bool)

  // ----- get_free_page -----

  /** The scan runs downwards from the end of mem_map; -1 when every page is in use. */
  function LastZero(c: seq<Byte>): (n: int)
    ensures -1 <= n < |c|
    ensures n >= 0 ==> c[n] == 0
    ensures forall k :: n < k < |c| ==> c[k] != 0
  {
    if |c| == 0 then -1
    else if c[|c| - 1] == 0 then |c| - 1
    else LastZero(c[..|c| - 1])
  }

  /** The frame get_free_page hands out; 0 when there is none. */
  function FreeFrame(s: Sys): (p: nat)
    requires Shape(s)
    ensures p == 0 || Paged(p)
    ensures p != 0 ==> CountOf(s, p) == 0
    ensures p == 0 <==> (forall q: nat :: Paged(q) ==> CountOf(s, q) != 0)
  {
    var n := LastZero(s.count);
    if n < 0 then
      assert forall q: nat :: Paged(q) ==> CountOf(s, q) == s.count[q - LOW_FRAMES];
      0
    else
      assert CountOf(s, n + LOW_FRAMES) == 0;
      n + LOW_FRAMES
  }

  // ----- entries -----

  ghost predicate Entry(s: Sys, x: Slot)
    requires Shape(s)
  {
    IsSlot(x) && x.PteSlot? && At(s, x).present
  }

  ghost predicate Room(s: Sys, x: Slot)
    requires Shape(s)
  {
    IsSlot(x) && x.PteSlot? && !At(s, x).present
  }

  /** Writing an entry leaves all data pages alone. */
  lemma PutLeavesData(s: Sys, x: Slot, w: Word, y: Slot)
    requires Inv(s) && IsSlot(x) && x.PteSlot? && HasTable(s, x.d) && Entry(s, y)
    ensures At(s, y).page < s.high
    ensures Paged(At(s, y).page) ==> Put(s, x, w).mem[At(s, y).page] == s.mem[At(s, y).page]
  {
    assert SlotOk(s, y);
    TableIsPrivate(s, x.d, y);
  }

  lemma EntryHasTable(s: Sys, x: Slot)
    requires Inv(s) && Entry(s, x)
    ensures HasTable(s, x.d) && At(s, x).page < s.high
  {
    assert SlotOk(s, x);
  }

  /** Every page a task can see keeps its contents, and so does low memory but for the tasks' part
      of the directory. */
  ghost predicate PagesKept(s: Sys, r: Sys)
    requires Shape(s) && Shape(r)
  {
    && r.high == s.high && r.held == s.held
    && (forall p :: 0 < p < LOW_FRAMES ==> r.mem[p] == s.mem[p])
    && (forall d :: 0 <= d < DIRS ==> r.mem[0][d] == s.mem[0][d])
    && (forall y :: Entry(s, y) && Paged(At(s, y).page) ==> r.mem[At(s, y).page] == s.mem[At(s, y).page])
  }

  lemma PutPagesKept(s: Sys, x: Slot, w: Word)
    requires Inv(s) && IsSlot(x) && x.PteSlot? && HasTable(s, x.d)
    ensures PagesKept(s, Put(s, x, w))
  {
    assert SlotOk(s, DirSlot(x.d));
    forall y | Entry(s, y) && Paged(At(s, y).page) ensures Put(s, x, w).mem[At(s, y).page] == s.mem[At(s, y).page] {
      PutLeavesData(s, x, w, y);
    }
  }

  lemma PagesTrans(s: Sys, s1: Sys, s2: Sys)
    requires Shape(s) && Shape(s1) && Shape(s2) && PagesKept(s, s1) && PagesKept(s1, s2)
    requires forall y :: Entry(s, y) ==> Entry(s1, y) && At(s1, y).page == At(s, y).page
    ensures PagesKept(s, s2)
  {
  }

  /** An entry that keeps its page, while the page keeps its contents, shows the same. */
  lemma SameView(s: Sys, r: Sys, y: Slot)
    requires Inv(s) && Shape(r) && PagesKept(s, r)
    requires IsSlot(y) ==> At(r, y).present == At(s, y).present && At(r, y).page == At(s, y).page
    ensures ViewKept(s, r, y)
  {
  }

  lemma WriteProtected(s: Sys, x: Slot)
    requires Inv(s) && Entry(s, x)
    ensures var s1 := SetRw(s, x, false);
            && Inv(s1) && PagesKept(s, s1)
            && (forall y :: IsSlot(y) ==> At(s1, y) == if y == x then At(s, x).(rw := false) else At(s, y))
  {
    EntryHasTable(s, x);
    SetRwKeeps(s, x, false);
    PutPagesKept(s, x, At(s, x).(rw := false));
  }

  /** Entry x shared with the empty entry y: both end read-only on the one page. */
  lemma ShareEntry(s: Sys, x: Slot, y: Slot)
    requires Inv(s) && Entry(s, x) && Room(s, y) && HasTable(s, y.d) && Paged(At(s, x).page)
    requires x.d != y.d && x.i == y.i && x.d % DIRS == y.d % DIRS
    ensures var s1 := SetRw(s, x, false);
            var r := AddRef(s1, y, At(s1, x));
            && Inv(r) && PagesKept(s, r) && At(s1, x) == At(s, x).(rw := false)
            && (forall z :: IsSlot(z) ==> At(r, z) == if z == x || z == y then At(s, x).(rw := false) else At(s, z))
  {
    WriteProtected(s, x);
    var s1 := SetRw(s, x, false);
    assert At(s1, DirSlot(y.d)) == At(s, DirSlot(y.d)) && At(s1, y) == At(s, y);
    AddRefKeeps(s1, y, At(s1, x), x);
    PutPagesKept(s1, y, At(s1, x));
    var r := AddRef(s1, y, At(s1, x));
    assert r.mem == Put(s1, y, At(s1, x)).mem;
    assert PagesKept(s1, r);
    PagesTrans(s, s1, r);
  }

  // ----- un_wp_page -----

  /** Alone on its page, the entry becomes writable. Otherwise it gets a copy: a page is taken
      and filled, the entry gives up its old page and is linked to the new one. */
  function Unprotect(s: Sys, x: Slot): (r: Done)
    requires Shape(s) && IsSlot(x)
    ensures Shape(r.sys)
  {
    var was, q := At(s, x).page, FreeFrame(s);
    if Paged(was) && CountOf(s, was) == 1 then Done(SetRw(s, x, true), true)
    else if q == 0 || was >= FRAMES then Done(s, false)
    else Done(Link(Drop(Filled(Take(s, q), q, s.mem[was]), x), x, MappedTo(q)), true)
  }

  /** Taking page q and filling it: the kernel alone knows of it. */
  lemma TakeAndFill(s: Sys, q: nat, pg: Page)
    requires Inv(s) && Paged(q) && CountOf(s, q) == 0
    ensures var r := Filled(Take(s, q), q, pg);
            && Inv(r) && q < r.high == s.high
            && CountOf(r, q) == HeldOf(r, q) == 1
            && r.mem == s.mem[q := pg]
            && r.count == s.count[q - LOW_FRAMES := 1] && r.held == s.held[q - LOW_FRAMES := 1]
            && (forall y :: IsSlot(y) ==> At(r, y) == At(s, y))
            && (forall y :: IsSlot(y) ==> At(s, y).present ==> At(s, y).page != q)
  {
    TakeKeeps(s, q);
    var s1 := Take(s, q);
    FillKeeps(s1, q, pg);
    forall y | IsSlot(y) ensures At(Filled(s1, q, pg), y) == At(s, y) { assert At(s1, y) == At(s, y); }
  }

  /** Replacing entry x by a held page q. */
  lemma SwapKeeps(s: Sys, x: Slot, q: nat)
    requires Inv(s) && Entry(s, x) && Paged(q) && q < s.high && CountOf(s, q) == HeldOf(s, q) == 1
    ensures var r := Link(Drop(s, x), x, MappedTo(q));
            && Inv(r)
            && (forall y :: IsSlot(y) ==> At(r, y) == if y == x then MappedTo(q) else At(s, y))
            && (exists w, w' :: r.mem == Put(Put(s, x, w), x, w').mem)
  {
    EntryHasTable(s, x);
    DropPteKeeps(s, x);
    var s3 := Drop(s, x);
    NoRef(s, q, x);
    assert At(s3, DirSlot(x.d)) == At(s, DirSlot(x.d));
    LinkPteKeeps(s3, x, MappedTo(q));
    assert SlotOk(s, DirSlot(x.d));
    assert Link(s3, x, MappedTo(q)).mem == Put(Put(s, x, ZERO), x, MappedTo(q)).mem;
  }

  lemma CopyKeeps(s: Sys, x: Slot, q: nat)
    requires Inv(s) && Entry(s, x) && q == FreeFrame(s) != 0
    ensures At(s, x).page < s.high
    ensures var r := Link(Drop(Filled(Take(s, q), q, s.mem[At(s, x).page]), x), x, MappedTo(q));
            && Inv(r)
            && (forall y :: IsSlot(y) ==> At(r, y) == if y == x then MappedTo(q) else At(s, y))
            && (forall y :: Entry(s, y) && Paged(At(s, y).page) ==>
                  At(s, y).page != q && At(s, y).page < FRAMES && r.mem[At(s, y).page] == s.mem[At(s, y).page])
            && r.mem[q] == s.mem[At(s, x).page]
  {
    EntryHasTable(s, x);
    TakeAndFill(s, q, s.mem[At(s, x).page]);
    var s2 := Filled(Take(s, q), q, s.mem[At(s, x).page]);
    SwapKeeps(s2, x, q);
    var r := Link(Drop(s2, x), x, MappedTo(q));
    assert SlotOk(s2, DirSlot(x.d));
    NoRef(s2, q, DirSlot(x.d));
    forall y | Entry(s, y) && Paged(At(s, y).page)
      ensures At(s, y).page != q && At(s, y).page < FRAMES && r.mem[At(s, y).page] == s.mem[At(s, y).page]
    {
      TableIsPrivate(s2, x.d, y);
      assert SlotOk(s, y);
    }
  }

  /** After the fault: x alone refers to its page, may write to it, and shows what it showed. */
  ghost predicate OwnedCopy(s: Sys, r: Sys, x: Slot)
    requires Shape(s) && Shape(r)
  {
    && Entry(s, x) && At(s, x).page < FRAMES
    && Entry(r, x) && At(r, x).rw && Paged(At(r, x).page)
    && Refs(r, At(r, x).page) == {x}
    && ViewOf(r, x) == Mapped(s.mem[At(s, x).page])
  }

  lemma UnprotectAlone(s: Sys, x: Slot)
    requires Inv(s) && Entry(s, x) && Paged(At(s, x).page) && CountOf(s, At(s, x).page) == 1
    ensures var r := SetRw(s, x, true);
            && Inv(r) && ViewsKept(s, r) && OwnedCopy(s, r, x)
            && (forall y :: IsSlot(y) && y != x ==> At(r, y) == At(s, y))
  {
    EntryHasTable(s, x);
    var r := SetRw(s, x, true);
    SetRwKeeps(s, x, true);
    PutPagesKept(s, x, At(s, x).(rw := true));
    forall y ensures ViewKept(s, r, y) { SameView(s, r, y); }
    OneRef(r, At(s, x).page, x);
  }

  lemma UnprotectByCopy(s: Sys, x: Slot)
    requires Inv(s) && Entry(s, x) && FreeFrame(s) != 0
    ensures At(s, x).page < s.high
    ensures var q := FreeFrame(s);
            var r := Link(Drop(Filled(Take(s, q), q, s.mem[At(s, x).page]), x), x, MappedTo(q));
            && Inv(r) && ViewsKept(s, r) && OwnedCopy(s, r, x)
            && (forall y :: IsSlot(y) && y != x ==> At(r, y) == At(s, y))
  {
    EntryHasTable(s, x);
    var q := FreeFrame(s);
    CopyKeeps(s, x, q);
    var r := Link(Drop(Filled(Take(s, q), q, s.mem[At(s, x).page]), x), x, MappedTo(q));
    forall y ensures ViewKept(s, r, y) {
      if Entry(s, y) { assert At(r, y) == if y == x then MappedTo(q) else At(s, y); }
    }
    assert SlotOk(r, x);
    OneRef(r, q, x);
  }

  /** A write fault gives the faulting entry a writable page that no one else has, with the
      contents it had; no task reads anything new. Without memory nothing changes. */
  lemma UnprotectKeeps(s: Sys, x: Slot)
    requires Inv(s) && Entry(s, x)
    ensures At(s, x).page < s.high
    ensures var r := Unprotect(s, x);
            && Inv(r.sys) && ViewsKept(s, r.sys)
            && (forall y :: IsSlot(y) && y != x ==> At(r.sys, y) == At(s, y))
            && (r.ok ==> OwnedCopy(s, r.sys, x))
            && (!r.ok <==> FreeFrame(s) == 0 && !(Paged(At(s, x).page) && CountOf(s, At(s, x).page) == 1))
            && (!r.ok ==> r.sys == s)
  {
    EntryHasTable(s, x);
    if Paged(At(s, x).page) && CountOf(s, At(s, x).page) == 1 {
      UnprotectAlone(s, x);
    } else if FreeFrame(s) != 0 {
      UnprotectByCopy(s, x);
    }
  }

  // ----- a new table, and put_page -----

  /** `get_free_page` for a page table and its entry in the directory. */
  function WithTable(s: Sys, d: nat): (r: Done)
    requires Shape(s) && DIRS <= d < 1024
    ensures Shape(r.sys)
  {
    var p := FreeFrame(s);
    if s.mem[0][d].present then Done(s, true)
    else if p == 0 then Done(s, false)
    else Done(Link(Take(s, p), DirSlot(d), MappedTo(p)), true)
  }

  /** A held page is neither handed out nor written to. */
  ghost predicate HeldKept(s: Sys, s': Sys, p: nat)
    requires Shape(s) && Shape(s') && Paged(p)
  {
    HeldOf(s, p) > 0 ==>
      HeldOf(s', p) == HeldOf(s, p) && CountOf(s', p) == CountOf(s, p) && s'.mem[p] == s.mem[p]
  }

  lemma WithTableKeeps(s: Sys, d: nat)
    requires Inv(s) && DIRS <= d < 1024
    ensures var r := WithTable(s, d);
            && Inv(r.sys)
            && ViewsKept(s, r.sys)
            && (forall y :: IsSlot(y) && y != DirSlot(d) ==> At(r.sys, y) == At(s, y))
            && (r.ok ==> HasTable(r.sys, d))
            && (!r.ok ==> r.sys == s)
            && (forall p :: Paged(p) ==> HeldKept(s, r.sys, p))
            && r.sys.held == s.held
  {
    var p := FreeFrame(s);
    if !s.mem[0][d].present && p != 0 {
      assert CountExact(s, p);
      TakeKeeps(s, p);
      var s1 := Take(s, p);
      assert At(s1, DirSlot(d)) == At(s, DirSlot(d));
      assert CountOf(s1, p) == HeldOf(s1, p) == 1;
      LinkDirKeeps(s1, d, p);
      var r := WithTable(s, d).sys;
      assert r.held == s.held;
      forall y | IsSlot(y) && y != DirSlot(d) ensures At(r, y) == At(s, y) && ViewKept(s, r, y) {
        assert At(s1, y) == At(s, y);
      }
    }
  }

  /** put_page(page, address): the page in the kernel's hands becomes entry x. */
  function PutPage(s: Sys, p: nat, x: Slot): (r: Done)
    requires Shape(s) && IsSlot(x) && Paged(p)
    ensures Shape(r.sys)
  {
    var r := WithTable(s, x.d);
    if r.ok then Done(Link(r.sys, x, MappedTo(p)), true) else r
  }

  /** The last line of put_page. */
  lemma PutEntryKeeps(s: Sys, p: nat, x: Slot)
    requires Inv(s) && Room(s, x) && HasTable(s, x.d)
    requires Paged(p) && p < s.high && CountOf(s, p) == HeldOf(s, p) == 1
    ensures var r := Link(s, x, MappedTo(p));
            && Inv(r) && OtherViewsKept(s, r, x)
            && At(r, x) == MappedTo(p) && ViewOf(r, x) == Mapped(s.mem[p])
            && (forall y :: IsSlot(y) && y != x ==> At(r, y) == At(s, y))
  {
    LinkPteKeeps(s, x, MappedTo(p));
    NoRef(s, p, DirSlot(x.d));
    forall y | y != x && Entry(s, y) ensures ViewKept(s, Link(s, x, MappedTo(p)), y) {
      PutLeavesData(s, x, MappedTo(p), y);
    }
  }

  lemma PutPageKeeps(s: Sys, p: nat, x: Slot)
    requires Inv(s) && Room(s, x)
    requires Paged(p) && p < s.high && CountOf(s, p) == HeldOf(s, p) == 1
    ensures var r := PutPage(s, p, x);
            && Inv(r.sys)
            && OtherViewsKept(s, r.sys, x)
            && (!r.ok ==> r.sys == s)
            && (r.ok ==> At(r.sys, x) == MappedTo(p) && ViewOf(r.sys, x) == Mapped(s.mem[p]))
            && (forall y :: IsSlot(y) && y != x && y != DirSlot(x.d) ==> At(r.sys, y) == At(s, y))
  {
    WithTableKeeps(s, x.d);
    var r := WithTable(s, x.d);
    if r.ok {
      assert HeldKept(s, r.sys, p);
      assert At(r.sys, x) == At(s, x);
      PutEntryKeeps(r.sys, p, x);
      forall y | y != x && Entry(s, y) ensures ViewKept(s, PutPage(s, p, x).sys, y) {
        assert ViewKept(s, r.sys, y) && ViewKept(r.sys, PutPage(s, p, x).sys, y);
      }
    }
  }

  /** Overwriting an entry for a page that is not counted. */
  lemma PutOverLowPage(s: Sys, p: nat, x: Slot)
    requires Inv(s) && IsSlot(x) && x.PteSlot? && HasTable(s, x.d)
    requires Paged(p) && p < s.high && CountOf(s, p) == HeldOf(s, p) == 1
    requires At(s, x).present && !Paged(At(s, x).page)
    ensures Inv(PutPage(s, p, x).sys)
  {
    NoRef(s, p, DirSlot(x.d));
    DropPteKeeps(s, x);
    var s1 := Drop(s, x);
    assert At(s1, DirSlot(x.d)) == At(s, DirSlot(x.d));
    LinkPteKeeps(s1, x, MappedTo(p));
    assert SlotOk(s, DirSlot(x.d));
    var t := s.mem[0][x.d].page;
    assert s.mem[t][x.i := ZERO][x.i := MappedTo(p)] == s.mem[t][x.i := MappedTo(p)];
    assert Link(s1, x, MappedTo(p)) == PutPage(s, p, x).sys;
  }

  /** put_page does not look at the entry it overwrites. The counts stay exact if and only if
      that entry did not refer to a counted page. */
  lemma PutPageNeedsRoom(s: Sys, p: nat, x: Slot)
    requires Inv(s) && IsSlot(x) && x.PteSlot? && HasTable(s, x.d)
    requires Paged(p) && p < s.high && CountOf(s, p) == HeldOf(s, p) == 1
    ensures Inv(PutPage(s, p, x).sys) <==> !(At(s, x).present && Paged(At(s, x).page))
  {
    var r, q := PutPage(s, p, x).sys, At(s, x).page;
    PutPteAt(s, x, MappedTo(p));
    NoRef(s, p, DirSlot(x.d));
    NoRef(s, p, x);
    forall y | IsSlot(y) ensures At(r, y) == if y == x then MappedTo(p) else At(s, y) {
      assert At(r, y) == At(Put(s, x, MappedTo(p)), y);
    }
    if !At(s, x).present {
      LinkPteKeeps(s, x, MappedTo(p));
    } else if Paged(q) {
      assert CountExact(s, q);
      RefsGain(r, s, q, x);
      assert !CountExact(r, q);
    } else {
      PutOverLowPage(s, p, x);
    }
  }

  /** Such a state comes about: the entry gets a page, and the next one is put over it. */
  lemma PutPageTwice(s: Sys, x: Slot, pg: Page)
    requires Inv(s) && Room(s, x) && NewPage(s, x, pg).ok
    requires FreeFrame(NewPage(s, x, pg).sys) != 0
    ensures var s1 := NewPage(s, x, pg).sys;
            var p := FreeFrame(s1);
            Inv(Take(s1, p)) && !Inv(PutPage(Take(s1, p), p, x).sys)
  {
    NewPageKeeps(s, x, pg);
    var s1 := NewPage(s, x, pg).sys;
    var p := FreeFrame(s1);
    assert CountExact(s1, p);
    TakeKeeps(s1, p);
    assert At(Take(s1, p), x) == At(s1, x) && At(Take(s1, p), DirSlot(x.d)) == At(s1, DirSlot(x.d));
    PutPageNeedsRoom(Take(s1, p), p, x);
  }

  // ----- a missing page -----

  /** put_page, and the page given back when that fails. */
  function PutOrFree(s: Sys, p: nat, x: Slot): (r: Done)
    requires Shape(s) && IsSlot(x) && Paged(p)
    ensures Shape(r.sys)
  {
    var r := PutPage(s, p, x);
    if r.ok || HeldOf(r.sys, p) == 0 then r else Done(GiveBack(r.sys, p), false)
  }

  /** get_empty_page, and the end of do_no_page when `pg` has been read from disk. */
  function NewPage(s: Sys, x: Slot, pg: Page): (r: Done)
    requires Shape(s) && IsSlot(x)
    ensures Shape(r.sys)
  {
    var p := FreeFrame(s);
    if p == 0 then Done(s, false) else PutOrFree(Filled(Take(s, p), p, pg), p, x)
  }

  lemma NewPageKeeps(s: Sys, x: Slot, pg: Page)
    requires Inv(s) && Room(s, x)
    ensures var r := NewPage(s, x, pg);
            && Inv(r.sys)
            && OtherViewsKept(s, r.sys, x)
            && (forall y :: IsSlot(y) && y != x && y != DirSlot(x.d) ==> At(r.sys, y) == At(s, y))
            && (r.ok ==> ViewOf(r.sys, x) == Mapped(pg) && At(r.sys, x).rw
                         && Refs(r.sys, At(r.sys, x).page) == {x})
            && (!r.ok ==> r.sys.count == s.count && r.sys.held == s.held && ViewsKept(s, r.sys))
  {
    var p := FreeFrame(s);
    if p != 0 {
      assert CountExact(s, p);
      TakeKeeps(s, p);
      var s0 := Take(s, p);
      FillKeeps(s0, p, pg);
      var s1 := Filled(s0, p, pg);
      forall y | IsSlot(y) ensures At(s1, y) == At(s, y) && ViewKept(s, s1, y) { assert At(s0, y) == At(s, y); }
      PutPageKeeps(s1, p, x);
      var r := PutPage(s1, p, x);
      forall y | Entry(s, y) && y != x ensures ViewKept(s, r.sys, y) {
        assert ViewKept(s, s1, y) && ViewKept(s1, r.sys, y);
      }
      if r.ok {
        assert SlotOk(r.sys, x);
        OneRef(r.sys, p, x);
      } else {
        GiveBackKeeps(s1, p);
        var g := GiveBack(s1, p);
        assert g.count == s.count && g.held == s.held;
        forall y | Entry(s, y) ensures ViewKept(s, g, y) { assert ViewKept(s, s1, y); }
      }
    }
  }

  // ----- try_to_share -----

  datatype Shared = NotShared | SharedPage | NoMemory

  /** There is a page at x, it is clean, and it is ordinary memory. */
  predicate Shareable(s: Sys, x: Slot)
    requires Shape(s) && IsSlot(x)
  {
    var w := At(s, x);
    s.mem[0][x.d].present && w.present && !w.dirty && LOW_FRAMES <= w.page < s.high
  }

  /** Entry x of another task becomes entry y of the current one, both read-only. */
  function TryToShare(s: Sys, x: Slot, y: Slot): (r: (Sys, Shared))
    requires Shape(s) && IsSlot(x) && IsSlot(y)
    ensures Shape(r.0)
  {
    var t := WithTable(s, y.d);
    if !Shareable(s, x) then (s, NotShared)
    else if !t.ok then (s, NoMemory)
    else
      var s1 := SetRw(t.sys, x, false);
      (AddRef(s1, y, At(s1, x)), SharedPage)
  }

  lemma TryToShareKeeps(s: Sys, x: Slot, y: Slot)
    requires Inv(s) && IsSlot(x) && x.PteSlot? && Room(s, y)
    requires x.d != y.d && x.i == y.i && x.d % DIRS == y.d % DIRS
    ensures var (s', r) := TryToShare(s, x, y);
            && Inv(s')
            && OtherViewsKept(s, s', y)
            && (r == SharedPage <==> Shareable(s, x) && WithTable(s, y.d).ok)
            && (r == SharedPage ==> ViewOf(s', y) == ViewOf(s, x) && ViewOf(s, x).Mapped?
                                    && !At(s', y).rw && !At(s', x).rw)
            && (r != SharedPage ==> s' == s)
  {
    WithTableKeeps(s, y.d);
    var s0 := WithTable(s, y.d).sys;
    if Shareable(s, x) && WithTable(s, y.d).ok {
      assert At(s0, x) == At(s, x) && At(s0, y) == At(s, y);
      ShareEntry(s0, x, y);
      var s' := TryToShare(s, x, y).0;
      forall z | z != y ensures ViewKept(s, s', z) {
        SameView(s0, s', z);
        assert ViewKept(s, s0, z);
      }
      assert ViewKept(s, s0, x);
    }
  }
}
