/** Physical memory, the page directory, the page tables and `mem_map` of mm/memory.c,
    as one value, with the invariant every paging operation keeps.

    Memory is untyped, as in the source: a frame is 1024 words, and the same frame can be
    read as data or as a page table. Only the invariant keeps the two apart. */
module PageState {
  import opened Collections


  /** A 32-bit word, split into its upper 20 bits (`0xfffff000 & w`), the bits present (1),
      rw (2), user (4) and dirty (0x40), and the other eight bits. */
  datatype Word = Word(page: nat, present: bool, rw: bool, user: bool, dirty: bool, rest: nat)

  const ZERO: Word := Word(0, false, false, false, false, 0)

  /** `page | 7` */
  function MappedTo(p: nat): Word {
    Word(p, true, true, true, false, 0)
  }

  type Page = pg: seq<Word> | |pg| == 1024 witness seq(1024, _ => ZERO)
  type Byte = b: nat | b < 256

  function ZeroPage(): Page {
    seq(1024, _ => ZERO)
  }

  /** 16 Mb of physical memory in frames; the frames below LOW_FRAMES are the kernel's. */
  const FRAMES := 4096
  const LOW_FRAMES := 256
  const PAGING_PAGES := FRAMES - LOW_FRAMES
  /** A task has 64 Mb of linear space: 16 directory entries. Task 0 is the kernel's own. */
  const DIRS := 16
  const NR_TASKS := 64

  /** `count` is `mem_map`. `held[n]` counts the kernel's own uses of page n: a task structure,
      a pipe, a page on its way into a table, or the mark USED of a page never handed out. */
  datatype Sys = Sys(mem: seq<Page>, count: seq<Byte>, held: seq<nat>, high: nat)

  /** Where a user page or page table can be referred to from. */
  datatype Slot = DirSlot(d: nat) | PteSlot(d: nat, i: nat)

  predicate IsSlot(x: Slot) {
    && DIRS <= x.d < 1024
    && (x.PteSlot? ==> x.i < 1024)
  }

  predicate Shape(s: Sys) {
    && |s.mem| == FRAMES
    && |s.count| == PAGING_PAGES
    && |s.held| == PAGING_PAGES
    && LOW_FRAMES <= s.high <= FRAMES
  }

  predicate Paged(p: nat) { LOW_FRAMES <= p < FRAMES }

  function CountOf(s: Sys, p: nat): Byte
    requires Shape(s) && Paged(p)
  {
    s.count[p - LOW_FRAMES]
  }

  function HeldOf(s: Sys, p: nat): nat
    requires Shape(s) && Paged(p)
  {
    s.held[p - LOW_FRAMES]
  }

  /** The word in a slot. The directory is frame 0; a table missing or out of range reads as 0. */
  function At(s: Sys, x: Slot): Word
    requires Shape(s) && IsSlot(x)
  {
    var e := s.mem[0][x.d];
    if x.DirSlot? then e
    else if e.present && e.page < FRAMES then s.mem[e.page][x.i]
    else ZERO
  }

  predicate Refers(s: Sys, x: Slot, p: nat)
    requires Shape(s) && IsSlot(x)
  {
    At(s, x).present && At(s, x).page == p
  }

  ghost function Slots(): (r: set<Slot>)
    ensures forall x :: x in r <==> IsSlot(x)
  {
    (set d | DIRS <= d < 1024 :: DirSlot(d)) +
    (set d, i | DIRS <= d < 1024 && 0 <= i < 1024 :: PteSlot(d, i))
  }

  /** Every slot that refers to frame p. */
  ghost function Refs(s: Sys, p: nat): (r: set<Slot>)
    requires Shape(s)
    ensures forall x :: x in r <==> IsSlot(x) && Refers(s, x, p)
  {
    set x | x in Slots() && IsSlot(x) && Refers(s, x, p)
  }

  // ----- the invariant -----

  /** mem_map is exact: one for each reference and one for each use by the kernel. */
  ghost predicate CountExact(s: Sys, p: nat)
    requires Shape(s) && Paged(p)
  {
    && CountOf(s, p) == |Refs(s, p)| + HeldOf(s, p)
    && HeldOf(s, p) <= 100
    && (s.high <= p ==> HeldOf(s, p) > 0)
  }

  /** A table has exactly one reference, so it is nobody's data; a writable page has exactly one
      reference; kernel memory below 1 Mb is never mapped writable. */
  ghost predicate SlotOk(s: Sys, x: Slot)
    requires Shape(s) && IsSlot(x)
  {
    var w := At(s, x);
    w.present ==>
      && w.page < s.high
      && (x.DirSlot? ==> Paged(w.page) && CountOf(s, w.page) == 1)
      && (x.PteSlot? && w.rw ==> Paged(w.page) && CountOf(s, w.page) == 1)
  }

  /** Two entries for one page lie at the same offset of their tasks' 64 Mb. */
  ghost predicate Aligned(s: Sys, x: Slot, y: Slot)
    requires Shape(s) && IsSlot(x) && IsSlot(y)
  {
    x.PteSlot? && y.PteSlot? && At(s, x).present && At(s, y).present
    && At(s, x).page == At(s, y).page && Paged(At(s, x).page)
    ==> x.i == y.i && x.d % DIRS == y.d % DIRS
  }

  /** The kernel's tables lie in low memory above the directory, and the first 640 kb of its
      first table map low memory (used by the first fork only). */
  ghost predicate KernelOk(s: Sys)
    requires Shape(s)
  {
    && (forall d :: 0 <= d < DIRS && s.mem[0][d].present ==> 1 <= s.mem[0][d].page < LOW_FRAMES)
    && (s.mem[0][0].present ==>
          forall i :: 0 <= i < 160 && s.mem[s.mem[0][0].page][i].present
                      ==> s.mem[s.mem[0][0].page][i].page < LOW_FRAMES)
  }

  ghost predicate Inv(s: Sys) {
    && Shape(s)
    && KernelOk(s)
    && (forall p :: Paged(p) ==> CountExact(s, p))
    && (forall x :: IsSlot(x) ==> SlotOk(s, x))
    && (forall x, y :: IsSlot(x) && IsSlot(y) ==> Aligned(s, x, y))
  }

  // ----- what a task sees -----

  datatype View = Unmapped | Low | Mapped(page: Page)

  /** What a task reads through entry x. Frames of the kernel's low memory change under a
      task's eyes and are only named. */
  function ViewOf(s: Sys, x: Slot): View
    requires Shape(s) && IsSlot(x)
  {
    var w := At(s, x);
    if !w.present then Unmapped
    else if Paged(w.page) then Mapped(s.mem[w.page])
    else Low
  }

  /** Entry x still shows the page it showed. */
  ghost predicate ViewKept(s: Sys, s': Sys, x: Slot)
    requires Shape(s) && Shape(s')
  {
    IsSlot(x) && x.PteSlot? && ViewOf(s, x) != Low ==> ViewOf(s', x) == ViewOf(s, x)
  }

  ghost predicate ViewsKept(s: Sys, s': Sys)
    requires Shape(s) && Shape(s')
  {
    forall x :: ViewKept(s, s', x)
  }

  ghost predicate OtherViewsKept(s: Sys, s': Sys, x: Slot)
    requires Shape(s) && Shape(s')
  {
    forall y :: y != x ==> ViewKept(s, s', y)
  }

  // ----- counting references -----

  lemma RefsSame(s: Sys, s': Sys, p: nat)
    requires Shape(s) && Shape(s')
    requires forall x :: IsSlot(x) ==> Refers(s, x, p) == Refers(s', x, p)
    ensures Refs(s', p) == Refs(s, p)
  {
  }

  /** One slot starts to refer to p; all others are as before. */
  lemma RefsGain(s: Sys, s': Sys, p: nat, y: Slot)
    requires Shape(s) && Shape(s') && IsSlot(y)
    requires forall x :: IsSlot(x) && x != y ==> Refers(s, x, p) == Refers(s', x, p)
    requires !Refers(s, y, p) && Refers(s', y, p)
    ensures Refs(s', p) == Refs(s, p) + {y}
    ensures |Refs(s', p)| == |Refs(s, p)| + 1
  {
    assert Refs(s', p) == Refs(s, p) + {y};
  }

  lemma OneRef(s: Sys, p: nat, x: Slot)
    requires Inv(s) && Paged(p) && IsSlot(x) && Refers(s, x, p)
    ensures CountOf(s, p) >= 1
    ensures CountOf(s, p) == 1 ==> HeldOf(s, p) == 0 && Refs(s, p) == {x}
  {
    assert CountExact(s, p);
    var rest := Refs(s, p) - {x};
    assert Refs(s, p) == rest + {x};
    assert |Refs(s, p)| == |rest| + 1;
  }

  /** A page the kernel holds alone is in no slot. */
  lemma NoRef(s: Sys, p: nat, x: Slot)
    requires Inv(s) && Paged(p) && IsSlot(x) && CountOf(s, p) == HeldOf(s, p)
    ensures Refs(s, p) == {}
    ensures !Refers(s, x, p)
  {
    assert CountExact(s, p);
  }

  /** The frame of a task's table holds no other table, and no task's data. */
  lemma TableIsPrivate(s: Sys, d: nat, x: Slot)
    requires Inv(s) && DIRS <= d < 1024 && At(s, DirSlot(d)).present
    requires IsSlot(x) && x != DirSlot(d)
    ensures Paged(At(s, DirSlot(d)).page)
    ensures !Refers(s, x, At(s, DirSlot(d)).page)
  {
    assert SlotOk(s, DirSlot(d));
    OneRef(s, At(s, DirSlot(d)).page, DirSlot(d));
  }

  /** Same task-relative position: entry k of this set belongs to task k. */
  ghost function Column(r: nat, i: nat, n: nat): set<Slot> {
    set k | 1 <= k < n :: PteSlot(DIRS * k + r, i)
  }

  lemma {:induction false} ColumnSize(r: nat, i: nat, n: nat)
    requires n >= 1
    ensures |Column(r, i, n)| <= n - 1
  {
    if n > 1 {
      ColumnSize(r, i, n - 1);
      assert Column(r, i, n) == Column(r, i, n - 1) + {PteSlot(DIRS * (n - 1) + r, i)};
    } else {
      assert Column(r, i, n) == {};
    }
  }

  /** A byte is enough for mem_map: no page ever has more references than there are tasks. */
  lemma CountFitsByte(s: Sys, p: nat)
    requires Inv(s) && Paged(p)
    ensures |Refs(s, p)| < NR_TASKS
    ensures CountOf(s, p) < NR_TASKS + 100
  {
    assert CountExact(s, p);
    if x :| x in Refs(s, p) {
      if x.DirSlot? {
        assert SlotOk(s, x);
        OneRef(s, p, x);
        assert |Refs(s, p)| <= 1;
      } else {
        var col := Column(x.d % DIRS, x.i, NR_TASKS);
        forall y | y in Refs(s, p) ensures y in col {
          if y.DirSlot? {
            assert SlotOk(s, y);
            OneRef(s, p, y);
            assert false;
          } else {
            assert Aligned(s, x, y);
            assert y == PteSlot(DIRS * (y.d / DIRS) + x.d % DIRS, x.i);
          }
        }
        ColumnSize(x.d % DIRS, x.i, NR_TASKS);
        SubsetSize(Refs(s, p), col);
      }
    }
  }
}
