/** The smallest changes that the routines of mm/memory.c make to a slot, a count and a frame,
    and the proof that each keeps the invariant and which views it can change. */
module PageSteps {
  import opened PageState

  /** `*slot = w`; like At, it takes no notice of a table outside memory. */
  function Put(s: Sys, x: Slot, w: Word): (r: Sys)
    requires Shape(s) && IsSlot(x)
    ensures Shape(r)
  {
    var e := s.mem[0][x.d];
    if x.DirSlot? then s.(mem := s.mem[0 := s.mem[0][x.d := w]])
    else if e.page < FRAMES then s.(mem := s.mem[e.page := s.mem[e.page][x.i := w]])
    else s
  }

  function Counted(s: Sys, p: nat, c: Byte): (r: Sys)
    requires Shape(s) && Paged(p)
    ensures Shape(r)
  {
    s.(count := s.count[p - LOW_FRAMES := c])
  }

  function Holding(s: Sys, p: nat, h: nat): (r: Sys)
    requires Shape(s) && Paged(p)
    ensures Shape(r)
  {
    s.(held := s.held[p - LOW_FRAMES := h])
  }

  function Filled(s: Sys, p: nat, pg: Page): (r: Sys)
    requires Shape(s) && p < FRAMES
    ensures Shape(r)
  {
    s.(mem := s.mem[p := pg])
  }

  /** An unsigned char goes from 255 to 0. */
  function Inc(b: Byte): Byte { (b + 1) % 256 }
  function Dec(b: Byte): Byte { (b + 255) % 256 }

  // ----- the steps -----

  /** get_free_page on the free page p: counted once, cleared, and in the kernel's hands. */
  function Take(s: Sys, p: nat): (r: Sys)
    requires Shape(s) && Paged(p)
    ensures Shape(r)
  {
    Filled(Holding(Counted(s, p, 1), p, 1), p, ZeroPage())
  }

  /** The kernel gives one use of p back: free_page. */
  function GiveBack(s: Sys, p: nat): (r: Sys)
    requires Shape(s) && Paged(p) && HeldOf(s, p) > 0
    ensures Shape(r)
  {
    Holding(Counted(s, p, Dec(CountOf(s, p))), p, HeldOf(s, p) - 1)
  }

  /** A page in the kernel's hands is put into slot x as word w. */
  function Link(s: Sys, x: Slot, w: Word): (r: Sys)
    requires Shape(s) && IsSlot(x) && Paged(w.page)
    ensures Shape(r)
  {
    Holding(Put(s, x, w), w.page, 0)
  }

  /** A further reference w to a mapped page; low memory is not counted. */
  function AddRef(s: Sys, x: Slot, w: Word): (r: Sys)
    requires Shape(s) && IsSlot(x)
    ensures Shape(r)
  {
    if Paged(w.page) then Counted(Put(s, x, w), w.page, Inc(CountOf(s, w.page)))
    else Put(s, x, w)
  }

  /** free_page of what x refers to, then `*x = 0`. */
  function Drop(s: Sys, x: Slot): (r: Sys)
    requires Shape(s) && IsSlot(x)
    ensures Shape(r)
  {
    var p := At(s, x).page;
    if Paged(p) then Counted(Put(s, x, ZERO), p, Dec(CountOf(s, p))) else Put(s, x, ZERO)
  }

  /** `*x &= ~2`, `*x |= 2` */
  function SetRw(s: Sys, x: Slot, rw: bool): (r: Sys)
    requires Shape(s) && IsSlot(x)
    ensures Shape(r)
  {
    Put(s, x, At(s, x).(rw := rw))
  }

  /** The processor sets the dirty bit of the entry it stores through. */
  function SetDirty(s: Sys, x: Slot): (r: Sys)
    requires Shape(s) && IsSlot(x)
    ensures Shape(r)
  {
    Put(s, x, At(s, x).(dirty := true))
  }

  /** A word stored by a task through a writable entry. */
  function Stored(s: Sys, x: Slot, off: nat, v: Word): (r: Sys)
    requires Shape(s) && IsSlot(x) && off < 1024
    ensures Shape(r)
  {
    var p := At(s, x).page;
    if p < FRAMES then Filled(s, p, s.mem[p][off := v]) else s
  }

  // ----- what each step does to the slots -----

  ghost predicate HasTable(s: Sys, d: nat)
    requires Shape(s)
  {
    DIRS <= d < 1024 && At(s, DirSlot(d)).present
  }

  /** Frames that are neither the directory nor a table can change freely. */
  lemma FillAt(s: Sys, p: nat, pg: Page)
    requires Inv(s) && Paged(p)
    requires forall d :: DIRS <= d < 1024 ==> !Refers(s, DirSlot(d), p)
    ensures forall x :: IsSlot(x) ==> At(Filled(s, p, pg), x) == At(s, x)
  {
    forall x | IsSlot(x) ensures At(Filled(s, p, pg), x) == At(s, x) {
      assert !Refers(s, DirSlot(x.d), p);
    }
  }

  lemma PutPteAt(s: Sys, x: Slot, w: Word)
    requires Inv(s) && IsSlot(x) && x.PteSlot? && HasTable(s, x.d)
    ensures s.mem[0][x.d].page < s.high
    ensures forall y :: IsSlot(y) ==> At(Put(s, x, w), y) == if y == x then w else At(s, y)
  {
    assert SlotOk(s, DirSlot(x.d));
    forall y | IsSlot(y) ensures At(Put(s, x, w), y) == if y == x then w else At(s, y) {
      if y.PteSlot? && y.d != x.d && At(s, DirSlot(y.d)).present {
        TableIsPrivate(s, x.d, DirSlot(y.d));
      }
    }
  }

  ghost predicate EmptyTable(s: Sys, d: nat)
    requires Shape(s) && DIRS <= d < 1024
  {
    forall i :: 0 <= i < 1024 ==> At(s, PteSlot(d, i)) == ZERO
  }

  /** Hanging an all-zero table into the directory, or taking it out, changes no entry. */
  lemma PutDirAt(s: Sys, d: nat, w: Word)
    requires Inv(s) && DIRS <= d < 1024 && EmptyTable(s, d)
    requires w.present ==> Paged(w.page) && s.mem[w.page] == ZeroPage()
    ensures forall y :: IsSlot(y) ==> At(Put(s, DirSlot(d), w), y) == if y == DirSlot(d) then w else At(s, y)
  {
    var s' := Put(s, DirSlot(d), w);
    forall y | IsSlot(y) ensures At(s', y) == if y == DirSlot(d) then w else At(s, y) {
      if y.PteSlot? && y.d == d {
        assert At(s, PteSlot(d, y.i)) == ZERO;
      } else if y.PteSlot? {
        assert SlotOk(s, DirSlot(y.d));
      }
    }
  }

  /** Without new references the alignment of the old ones remains. */
  lemma AlignedKept(s: Sys, s': Sys)
    requires Inv(s) && Shape(s')
    requires forall x :: IsSlot(x) && At(s', x).present ==> At(s, x).present && At(s', x).page == At(s, x).page
    ensures forall x, y :: IsSlot(x) && IsSlot(y) ==> Aligned(s', x, y)
  {
    forall x, y | IsSlot(x) && IsSlot(y) ensures Aligned(s', x, y) { assert Aligned(s, x, y); }
  }

  lemma CountsKept(s: Sys, s': Sys, p: nat)
    requires Inv(s) && Shape(s') && s'.high == s.high && Paged(p)
    requires forall x :: IsSlot(x) ==> Refers(s, x, p) == Refers(s', x, p)
    requires CountOf(s', p) == CountOf(s, p) && HeldOf(s', p) == HeldOf(s, p)
    ensures CountExact(s', p)
  {
    RefsSame(s, s', p);
    assert CountExact(s, p);
  }

  lemma TakeKeeps(s: Sys, p: nat)
    requires Inv(s) && Paged(p) && CountOf(s, p) == 0
    ensures Inv(Take(s, p)) && p < s.high
    ensures forall x :: IsSlot(x) ==> At(Take(s, p), x) == At(s, x)
    ensures forall x :: IsSlot(x) ==> At(s, x).present ==> At(s, x).page != p
  {
    var s' := Take(s, p);
    assert CountExact(s, p);
    forall x | IsSlot(x) ensures !Refers(s, x, p) { NoRef(s, p, x); }
    FillAt(s, p, ZeroPage());
    forall x | IsSlot(x) ensures At(s', x) == At(s, x) && SlotOk(s', x) {
      assert At(s', x) == At(Filled(s, p, ZeroPage()), x);
      assert SlotOk(s, x);
    }
    forall q | Paged(q) ensures CountExact(s', q) {
      RefsSame(s, s', q);
      assert CountExact(s, q);
    }
    AlignedKept(s, s');
  }

  lemma GiveBackKeeps(s: Sys, p: nat)
    requires Inv(s) && Paged(p) && p < s.high && HeldOf(s, p) > 0
    ensures Inv(GiveBack(s, p))
    ensures forall x :: IsSlot(x) ==> At(GiveBack(s, p), x) == At(s, x)
    ensures CountOf(s, p) > 0
  {
    var s' := GiveBack(s, p);
    assert CountExact(s, p);
    forall x | IsSlot(x) ensures At(s', x) == At(s, x) && SlotOk(s', x) {
      assert SlotOk(s, x);
      if Refers(s, x, p) { OneRef(s, p, x); }
    }
    forall q | Paged(q) ensures CountExact(s', q) {
      RefsSame(s, s', q);
      assert CountExact(s, q);
    }
    AlignedKept(s, s');
  }

  /** The kernel may write to a page that only it uses. */
  lemma FillKeeps(s: Sys, p: nat, pg: Page)
    requires Inv(s) && Paged(p) && CountOf(s, p) == HeldOf(s, p)
    ensures Inv(Filled(s, p, pg))
    ensures forall x :: IsSlot(x) ==> At(Filled(s, p, pg), x) == At(s, x)
    ensures forall x :: IsSlot(x) ==> At(s, x).present ==> At(s, x).page != p
  {
    var s' := Filled(s, p, pg);
    forall x | IsSlot(x) ensures !Refers(s, x, p) { NoRef(s, p, x); }
    FillAt(s, p, pg);
    forall x | IsSlot(x) ensures SlotOk(s', x) { assert SlotOk(s, x); }
    forall q | Paged(q) ensures CountExact(s', q) { CountsKept(s, s', q); }
    AlignedKept(s, s');
  }

  /** A task may write through a writable entry: the page is no table and nobody else's. */
  lemma StoredKeeps(s: Sys, x: Slot, off: nat, v: Word)
    requires Inv(s) && IsSlot(x) && x.PteSlot? && At(s, x).present && At(s, x).rw && off < 1024
    ensures At(s, x).page < s.high && Paged(At(s, x).page)
    ensures Inv(Stored(s, x, off, v))
    ensures forall y :: IsSlot(y) ==> At(Stored(s, x, off, v), y) == At(s, y)
    ensures forall y :: IsSlot(y) && y != x ==> At(s, y).present ==> At(s, y).page != At(s, x).page
  {
    assert SlotOk(s, x);
    var p := At(s, x).page;
    var s' := Stored(s, x, off, v);
    OneRef(s, p, x);
    forall d | DIRS <= d < 1024 ensures !Refers(s, DirSlot(d), p) {
      assert DirSlot(d) !in Refs(s, p);
    }
    FillAt(s, p, s.mem[p][off := v]);
    forall y | IsSlot(y) ensures SlotOk(s', y) { assert SlotOk(s, y); }
    forall y | IsSlot(y) && y != x ensures !Refers(s, y, p) { assert y !in Refs(s, p); }
    forall q | Paged(q) ensures CountExact(s', q) { CountsKept(s, s', q); }
    AlignedKept(s, s');
  }

  /** A store into any mapped page, writable or not: no table is hit, and only entries for that page
      show anything new. */
  lemma StoredAnywayKeeps(s: Sys, x: Slot, off: nat, v: Word)
    requires Inv(s) && IsSlot(x) && x.PteSlot? && At(s, x).present && Paged(At(s, x).page) && off < 1024
    ensures At(s, x).page < s.high && Inv(Stored(s, x, off, v))
    ensures forall y :: IsSlot(y) ==> At(Stored(s, x, off, v), y) == At(s, y)
  {
    assert SlotOk(s, x);
    var p := At(s, x).page;
    var s' := Stored(s, x, off, v);
    forall d | DIRS <= d < 1024 ensures !Refers(s, DirSlot(d), p) {
      if Refers(s, DirSlot(d), p) { TableIsPrivate(s, d, x); }
    }
    FillAt(s, p, s.mem[p][off := v]);
    forall y | IsSlot(y) ensures SlotOk(s', y) { assert SlotOk(s, y); }
    forall q | Paged(q) ensures CountExact(s', q) { CountsKept(s, s', q); }
    AlignedKept(s, s');
  }

  /** Linking a held page: the kernel's use becomes the slot's reference. */
  lemma LinkCounts(s: Sys, s': Sys, x: Slot, p: nat)
    requires Inv(s) && Shape(s') && s'.high == s.high && IsSlot(x) && Paged(p)
    requires CountOf(s, p) == HeldOf(s, p) == 1
    requires s'.count == s.count && s'.held == s.held[p - LOW_FRAMES := 0]
    requires !At(s, x).present && At(s', x).present && At(s', x).page == p && p < s.high
    requires forall y :: IsSlot(y) && y != x ==> At(s', y) == At(s, y)
    requires KernelOk(s')
    ensures Inv(s')
  {
    forall y | IsSlot(y) ensures !Refers(s, y, p) { NoRef(s, p, y); }
    forall q | Paged(q) ensures CountExact(s', q) {
      assert CountExact(s, q);
      if q == p {
        RefsGain(s, s', p, x);
      } else {
        RefsSame(s, s', q);
      }
    }
    forall y | IsSlot(y) ensures SlotOk(s', y) { assert SlotOk(s, y); }
    forall y, z | IsSlot(y) && IsSlot(z) ensures Aligned(s', y, z) {
      assert Aligned(s, y, z);
      assert !Refers(s, y, p) && !Refers(s, z, p);
    }
  }

  lemma LinkPteKeeps(s: Sys, x: Slot, w: Word)
    requires Inv(s) && IsSlot(x) && x.PteSlot? && HasTable(s, x.d)
    requires Paged(w.page) && CountOf(s, w.page) == HeldOf(s, w.page) == 1 && w.page < s.high
    requires !At(s, x).present && w.present
    ensures Inv(Link(s, x, w))
    ensures forall y :: IsSlot(y) ==> At(Link(s, x, w), y) == if y == x then w else At(s, y)
  {
    PutPteAt(s, x, w);
    NoRef(s, w.page, DirSlot(x.d));
    assert SlotOk(s, DirSlot(x.d));
    var s' := Link(s, x, w);
    forall y | IsSlot(y) ensures At(s', y) == if y == x then w else At(s, y) {
      assert At(s', y) == At(Put(s, x, w), y);
    }
    LinkCounts(s, s', x, w.page);
  }

  lemma LinkDirKeeps(s: Sys, d: nat, p: nat)
    requires Inv(s) && DIRS <= d < 1024 && !At(s, DirSlot(d)).present
    requires Paged(p) && CountOf(s, p) == HeldOf(s, p) == 1 && p < s.high && s.mem[p] == ZeroPage()
    ensures Inv(Link(s, DirSlot(d), MappedTo(p)))
    ensures forall y :: IsSlot(y) ==>
              At(Link(s, DirSlot(d), MappedTo(p)), y) == if y == DirSlot(d) then MappedTo(p) else At(s, y)
  {
    var s' := Link(s, DirSlot(d), MappedTo(p));
    assert EmptyTable(s, d);
    PutDirAt(s, d, MappedTo(p));
    forall y | IsSlot(y) ensures At(s', y) == if y == DirSlot(d) then MappedTo(p) else At(s, y) {
      assert At(s', y) == At(Put(s, DirSlot(d), MappedTo(p)), y);
    }
    LinkCounts(s, s', DirSlot(d), p);
  }

  /** Clearing rw is always safe; setting it needs the only reference. */
  lemma SetRwKeeps(s: Sys, x: Slot, rw: bool)
    requires Inv(s) && IsSlot(x) && x.PteSlot? && HasTable(s, x.d)
    requires rw && At(s, x).present ==> Paged(At(s, x).page) && CountOf(s, At(s, x).page) == 1
    ensures Inv(SetRw(s, x, rw))
    ensures forall y :: IsSlot(y) ==>
              At(SetRw(s, x, rw), y) == if y == x then At(s, x).(rw := rw) else At(s, y)
  {
    PutPteAt(s, x, At(s, x).(rw := rw));
    var s' := SetRw(s, x, rw);
    assert SlotOk(s, DirSlot(x.d));
    forall y | IsSlot(y) ensures SlotOk(s', y) { assert SlotOk(s, y); }
    forall q | Paged(q) ensures CountExact(s', q) { CountsKept(s, s', q); }
    AlignedKept(s, s');
  }

  lemma SetDirtyKeeps(s: Sys, x: Slot)
    requires Inv(s) && IsSlot(x) && x.PteSlot? && HasTable(s, x.d)
    ensures Inv(SetDirty(s, x))
    ensures forall y :: IsSlot(y) ==>
              At(SetDirty(s, x), y) == if y == x then At(s, x).(dirty := true) else At(s, y)
  {
    PutPteAt(s, x, At(s, x).(dirty := true));
    var s' := SetDirty(s, x);
    assert SlotOk(s, DirSlot(x.d)) && SlotOk(s, x);
    forall y | IsSlot(y) ensures SlotOk(s', y) { assert SlotOk(s, y); }
    forall q | Paged(q) ensures CountExact(s', q) { CountsKept(s, s', q); }
    AlignedKept(s, s');
  }

  /** A page with a read-only mapping is no table, and all its mappings are read-only. */
  lemma ReadOnlyPage(s: Sys, z: Slot, y: Slot)
    requires Inv(s) && IsSlot(z) && z.PteSlot? && At(s, z).present && !At(s, z).rw
    requires Paged(At(s, z).page) && IsSlot(y) && Refers(s, y, At(s, z).page)
    ensures y.PteSlot? && !At(s, y).rw && y.i == z.i && y.d % DIRS == z.d % DIRS
  {
    assert SlotOk(s, y);
    assert z in Refs(s, At(s, z).page);
    if y.DirSlot? || At(s, y).rw {
      OneRef(s, At(s, z).page, y);
    }
    assert Aligned(s, y, z);
  }

  ghost predicate CanShare(s: Sys, x: Slot, w: Word, z: Slot)
    requires Shape(s)
  {
    && IsSlot(x) && x.PteSlot? && HasTable(s, x.d) && !At(s, x).present
    && w.present && !w.rw && w.page < s.high
    && (Paged(w.page) ==> IsSlot(z) && z.PteSlot? && Refers(s, z, w.page) && !At(s, z).rw
                          && z.i == x.i && z.d % DIRS == x.d % DIRS)
  }

  lemma AddRefAt(s: Sys, x: Slot, w: Word, z: Slot)
    requires Inv(s) && CanShare(s, x, w, z)
    ensures forall y :: IsSlot(y) ==> At(AddRef(s, x, w), y) == if y == x then w else At(s, y)
    ensures Paged(w.page) ==> CountOf(AddRef(s, x, w), w.page) == CountOf(s, w.page) + 1
  {
    PutPteAt(s, x, w);
    if Paged(w.page) { CountFitsByte(s, w.page); }
    forall y | IsSlot(y) ensures At(AddRef(s, x, w), y) == if y == x then w else At(s, y) {
      assert At(AddRef(s, x, w), y) == At(Put(s, x, w), y);
    }
  }

  /** A second read-only reference to a page that slot z at the same offset refers to. */
  lemma AddRefKeeps(s: Sys, x: Slot, w: Word, z: Slot)
    requires Inv(s) && CanShare(s, x, w, z)
    ensures Inv(AddRef(s, x, w))
    ensures forall y :: IsSlot(y) ==> At(AddRef(s, x, w), y) == if y == x then w else At(s, y)
    ensures Paged(w.page) ==> CountOf(AddRef(s, x, w), w.page) == CountOf(s, w.page) + 1
  {
    AddRefAt(s, x, w, z);
    var s' := AddRef(s, x, w);
    var p := w.page;
    assert SlotOk(s, DirSlot(x.d));
    forall y | Paged(p) && IsSlot(y) && Refers(s, y, p)
      ensures y.PteSlot? && !At(s, y).rw && y.i == x.i && y.d % DIRS == x.d % DIRS
    {
      ReadOnlyPage(s, z, y);
    }
    forall q | Paged(q) ensures CountExact(s', q) {
      assert CountExact(s, q);
      if q == p { RefsGain(s, s', p, x); } else { RefsSame(s, s', q); }
    }
    forall y | IsSlot(y) ensures SlotOk(s', y) { assert SlotOk(s, y); }
    forall y, y' | IsSlot(y) && IsSlot(y') ensures Aligned(s', y, y') {
      assert Aligned(s, y, y');
    }
  }

  ghost predicate Dropped(s: Sys, s': Sys, x: Slot)
    requires Shape(s) && Shape(s') && IsSlot(x)
  {
    && s'.high == s.high && s'.held == s.held && At(s, x).present && At(s, x).page < s.high
    && s'.count == (if Paged(At(s, x).page)
                    then s.count[At(s, x).page - LOW_FRAMES := Dec(CountOf(s, At(s, x).page))]
                    else s.count)
    && (forall y :: IsSlot(y) ==> At(s', y) == if y == x then ZERO else At(s, y))
  }

  lemma DropCounts(s: Sys, s': Sys, x: Slot, q: nat)
    requires Inv(s) && Shape(s') && IsSlot(x) && Dropped(s, s', x) && Paged(q)
    ensures CountExact(s', q)
    ensures q == At(s, x).page ==> CountOf(s', q) == CountOf(s, q) - 1
  {
    assert CountExact(s, q);
    assert HeldOf(s', q) == HeldOf(s, q);
    if q == At(s, x).page {
      OneRef(s, q, x);
      assert CountOf(s', q) == CountOf(s, q) - 1;
      assert !Refers(s', x, q);
      RefsGain(s', s, q, x);
    } else {
      assert CountOf(s', q) == CountOf(s, q);
      RefsSame(s, s', q);
    }
  }

  lemma DropSlots(s: Sys, s': Sys, x: Slot, y: Slot)
    requires Inv(s) && Shape(s') && IsSlot(x) && Dropped(s, s', x) && IsSlot(y)
    ensures SlotOk(s', y)
  {
    assert SlotOk(s, y);
    var p := At(s, x).page;
    if y != x && Paged(p) && Refers(s, y, p) && CountOf(s, p) == 1 {
      assert x in Refs(s, p);
      OneRef(s, p, y);
    }
  }

  lemma DropKeeps(s: Sys, s': Sys, x: Slot)
    requires Inv(s) && Shape(s') && IsSlot(x) && Dropped(s, s', x) && KernelOk(s')
    ensures Inv(s')
  {
    forall q | Paged(q) ensures CountExact(s', q) { DropCounts(s, s', x, q); }
    forall y | IsSlot(y) ensures SlotOk(s', y) { DropSlots(s, s', x, y); }
    AlignedKept(s, s');
  }

  /** free_page finds a positive count, so its panic is out of reach. */
  lemma DropPteKeeps(s: Sys, x: Slot)
    requires Inv(s) && IsSlot(x) && x.PteSlot? && At(s, x).present
    ensures At(s, x).page < s.high
    ensures Paged(At(s, x).page) ==> CountOf(s, At(s, x).page) > 0
    ensures Inv(Drop(s, x))
    ensures forall y :: IsSlot(y) ==> At(Drop(s, x), y) == if y == x then ZERO else At(s, y)
  {
    assert SlotOk(s, DirSlot(x.d));
    assert SlotOk(s, x);
    if Paged(At(s, x).page) { OneRef(s, At(s, x).page, x); }
    PutPteAt(s, x, ZERO);
    var s' := Drop(s, x);
    forall y | IsSlot(y) ensures At(s', y) == if y == x then ZERO else At(s, y) {
      assert At(s', y) == At(Put(s, x, ZERO), y);
    }
    DropKeeps(s, s', x);
  }

  lemma DropDirKeeps(s: Sys, d: nat)
    requires Inv(s) && HasTable(s, d) && EmptyTable(s, d)
    ensures At(s, DirSlot(d)).page < s.high && Paged(At(s, DirSlot(d)).page)
    ensures CountOf(s, At(s, DirSlot(d)).page) == 1
    ensures Inv(Drop(s, DirSlot(d)))
    ensures forall y :: IsSlot(y) ==> At(Drop(s, DirSlot(d)), y) == if y == DirSlot(d) then ZERO else At(s, y)
  {
    assert SlotOk(s, DirSlot(d));
    PutDirAt(s, d, ZERO);
    var s' := Drop(s, DirSlot(d));
    forall y | IsSlot(y) ensures At(s', y) == if y == DirSlot(d) then ZERO else At(s, y) {
      assert At(s', y) == At(Put(s, DirSlot(d), ZERO), y);
    }
    DropKeeps(s, s', DirSlot(d));
  }
}
