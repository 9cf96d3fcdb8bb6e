/** Whole runs of the memory manager: any interleaving of forks, faults, stores, sharing,
    teardown and the kernel's own use of pages. */
module PageRuns {
  import opened PageState
  import opened PageSteps
  import opened PageOps
  import opened PageFork

  datatype Op =
    | Fork(parent: nat, child: nat, n: nat)      // copy_mem of n tables
    | Release(task: nat, n: nat)                 // free_page_tables, at exit and exec
    | WriteFault(x: Slot)                        // do_wp_page, write_verify
    | StoreWord(x: Slot, off: nat, v: Word)      // a store the hardware lets through
    | KernelStore(x: Slot, off: nat, v: Word)    // put_fs_byte: in kernel mode a 386 ignores rw
    | MissingPage(x: Slot, pg: Page)             // get_empty_page, or a page read from disk
    | ShareClean(x: Slot, y: Slot)               // try_to_share
    | PutHeld(p: nat, x: Slot)                   // put_page, as exec does for its argument pages
    | KernelTake                                 // get_free_page
    | KernelFill(p: nat, pg: Page)
    | KernelGive(p: nat)                         // free_page

  function TaskOf(x: Slot): nat { x.d / DIRS }

  ghost predicate Enabled(s: Sys, op: Op)
    requires Shape(s)
  {
    match op
    case Fork(a, b, n) =>
      a < NR_TASKS && 1 <= b < NR_TASKS && a != b && n <= DIRS && (a == 0 ==> n <= 1)
      && EmptyRange(s, DIRS * b, n)
    case Release(a, n) => 1 <= a < NR_TASKS && n <= DIRS
    case WriteFault(x) => Entry(s, x)
    case StoreWord(x, off, _) => Entry(s, x) && At(s, x).rw && off < 1024
    case KernelStore(x, off, _) => Entry(s, x) && Paged(At(s, x).page) && off < 1024
    case MissingPage(x, _) => Room(s, x)
    case ShareClean(x, y) =>
      IsSlot(x) && x.PteSlot? && Room(s, y) && TaskOf(x) != TaskOf(y) && x.i == y.i && x.d % DIRS == y.d % DIRS
    case PutHeld(p, x) => Room(s, x) && Paged(p) && p < s.high && CountOf(s, p) == HeldOf(s, p) == 1
    case KernelTake => true
    case KernelFill(p, _) => Paged(p) && p < s.high && CountOf(s, p) == HeldOf(s, p) > 0
    case KernelGive(p) => Paged(p) && p < s.high && HeldOf(s, p) > 0
  }

  function EntriesOf(parent: nat): nat { if parent == 0 then 160 else 1024 }

  ghost function Step(s: Sys, op: Op): (r: Sys)
    requires Shape(s) && Enabled(s, op)
    ensures Shape(r)
  {
    match op
    case Fork(a, b, n) => CopyMem(s, DIRS * a, DIRS * b, n, EntriesOf(a)).sys
    case Release(a, n) => FreeTables(s, DIRS * a, n)
    case WriteFault(x) => Unprotect(s, x).sys
    case StoreWord(x, off, v) => Stored(SetDirty(s, x), x, off, v)
    case KernelStore(x, off, v) => Stored(SetDirty(s, x), x, off, v)
    case MissingPage(x, pg) => NewPage(s, x, pg).sys
    case ShareClean(x, y) => TryToShare(s, x, y).0
    case PutHeld(p, x) => PutPage(s, p, x).sys
    case KernelTake => if FreeFrame(s) == 0 then s else Take(s, FreeFrame(s))
    case KernelFill(p, pg) => Filled(s, p, pg)
    case KernelGive(p) => GiveBack(s, p)
  }

  /** The task whose mapping or memory an operation is meant to change. A write fault changes
      what nobody sees, and a fork only what the child sees. */
  predicate Touches(op: Op, task: nat) {
    match op
    case Fork(_, b, _) => b == task
    case Release(a, _) => a == task
    case WriteFault(_) => false
    case StoreWord(x, _, _) => TaskOf(x) == task
    case KernelStore(x, _, _) => TaskOf(x) == task
    case MissingPage(x, _) => TaskOf(x) == task
    case ShareClean(_, y) => TaskOf(y) == task
    case PutHeld(_, x) => TaskOf(x) == task
    case KernelTake => false
    case KernelFill(_, _) => false
    case KernelGive(_) => false
  }

  /** What entry y shows may change at this operation: it is for y's task, or it is a store of the
      kernel into the page that y shows. */
  ghost predicate Affects(s: Sys, op: Op, y: Slot)
    requires Shape(s)
  {
    if op.KernelStore? then Entry(s, y) && Entry(s, op.x) && At(s, y).page == At(s, op.x).page
    else Touches(op, TaskOf(y))
  }

  lemma ForkKeeps(s: Sys, a: nat, b: nat, n: nat)
    requires Inv(s) && Enabled(s, Fork(a, b, n))
    ensures Ranges(DIRS * a, DIRS * b, n, EntriesOf(a))
    ensures var r := Step(s, Fork(a, b, n));
            Inv(r) && forall y :: TaskOf(y) != b ==> ViewKept(s, r, y)
  {
    if CopyMem(s, DIRS * a, DIRS * b, n, EntriesOf(a)).ok {
      ForkShares(s, DIRS * a, DIRS * b, n, EntriesOf(a));
    } else {
      FailedForkUndone(s, DIRS * a, DIRS * b, n, EntriesOf(a));
    }
  }

  /** The mark a store leaves in its entry changes nothing that is seen. */
  lemma DirtyUnseen(s: Sys, x: Slot)
    requires Inv(s) && Entry(s, x)
    ensures var s1 := SetDirty(s, x);
            && Inv(s1) && ViewsKept(s, s1)
            && (forall y :: IsSlot(y) ==> At(s1, y) == if y == x then At(s, x).(dirty := true) else At(s, y))
  {
    EntryHasTable(s, x);
    SetDirtyKeeps(s, x);
    PutPagesKept(s, x, At(s, x).(dirty := true));
    forall y ensures ViewKept(s, SetDirty(s, x), y) { SameView(s, SetDirty(s, x), y); }
  }

  /** A store, which also marks the entry dirty: exactly the one word changes, for the one entry. */
  lemma StoreKeeps(s: Sys, x: Slot, off: nat, v: Word)
    requires Inv(s) && Enabled(s, StoreWord(x, off, v))
    ensures var r := Step(s, StoreWord(x, off, v));
            && Inv(r) && At(r, x) == At(s, x).(dirty := true) && OtherViewsKept(s, r, x)
            && ViewOf(s, x).Mapped? && ViewOf(r, x) == Mapped(ViewOf(s, x).page[off := v])
  {
    var s1 := SetDirty(s, x);
    DirtyUnseen(s, x);
    assert SlotOk(s, x);
    StoredKeeps(s1, x, off, v);
    var r := Step(s, StoreWord(x, off, v));
    forall y | y != x ensures ViewKept(s, r, y) {
      assert ViewKept(s, s1, y);
      if Entry(s1, y) { assert SlotOk(s1, y); }
    }
    assert ViewKept(s, s1, x);
  }

  lemma KernelStoreKeeps(s: Sys, x: Slot, off: nat, v: Word)
    requires Inv(s) && Enabled(s, KernelStore(x, off, v))
    ensures var r := Step(s, KernelStore(x, off, v));
            && Inv(r)
            && (forall y :: !(Entry(s, y) && At(s, y).page == At(s, x).page) ==> ViewKept(s, r, y))
            && (forall y :: Entry(s, y) && At(s, y).page == At(s, x).page ==>
                  ViewOf(s, y).Mapped? && ViewOf(r, y) == Mapped(ViewOf(s, y).page[off := v]))
  {
    var s1 := SetDirty(s, x);
    DirtyUnseen(s, x);
    StoredAnywayKeeps(s1, x, off, v);
    var r := Step(s, KernelStore(x, off, v));
    forall y | !(Entry(s, y) && At(s, y).page == At(s, x).page) ensures ViewKept(s, r, y) {
      assert ViewKept(s, s1, y);
    }
    forall y | Entry(s, y) && At(s, y).page == At(s, x).page
      ensures ViewOf(s, y).Mapped? && ViewOf(r, y) == Mapped(ViewOf(s, y).page[off := v])
    {
      assert ViewKept(s, s1, y);
    }
  }

  /** The kernel's store is seen by nobody else if and only if the page has no other entry. */
  lemma KernelStoreIff(s: Sys, x: Slot)
    requires Inv(s) && Entry(s, x) && Paged(At(s, x).page)
    ensures Refs(s, At(s, x).page) == {x}
       <==> forall off: nat, v: Word :: off < 1024 ==> OtherViewsKept(s, Step(s, KernelStore(x, off, v)), x)
  {
    var p := At(s, x).page;
    assert x in Refs(s, p);
    if Refs(s, p) == {x} {
      forall off: nat, v: Word | off < 1024 ensures OtherViewsKept(s, Step(s, KernelStore(x, off, v)), x) {
        KernelStoreKeeps(s, x, off, v);
        forall y | y != x ensures ViewKept(s, Step(s, KernelStore(x, off, v)), y) {
          assert y !in Refs(s, p);
        }
      }
    } else {
      var y :| y in Refs(s, p) && y != x;
      OtherSees(s, x, y);
    }
  }

  /** Another entry for the page, of whatever task, shows the store. */
  lemma OtherSees(s: Sys, x: Slot, y: Slot)
    requires Inv(s) && Entry(s, x) && Paged(At(s, x).page) && y in Refs(s, At(s, x).page)
    ensures Entry(s, y) && exists v: Word :: !ViewKept(s, Step(s, KernelStore(x, 0, v)), y)
  {
    if y.DirSlot? && y.d >= DIRS && At(s, y).present { TableIsPrivate(s, y.d, x); }
    var was := s.mem[At(s, x).page][0];
    var v := was.(dirty := !was.dirty);
    KernelStoreKeeps(s, x, 0, v);
    assert ViewOf(s, y).page[0] == was && ViewOf(s, y).page[0 := v][0] == v;
    assert !ViewKept(s, Step(s, KernelStore(x, 0, v)), y);
  }

  /** What the kernel can check right before the store: through a writable entry it is private. */
  lemma WritableIsPrivate(s: Sys, x: Slot)
    requires Inv(s) && Entry(s, x) && At(s, x).rw
    ensures Paged(At(s, x).page) && Refs(s, At(s, x).page) == {x}
  {
    assert SlotOk(s, x);
    OneRef(s, At(s, x).page, x);
  }

  /** A check made earlier does not last: once the clean page has been shared away, a store of the
      kernel into it is seen by the other task. */
  lemma SharedThenStored(s: Sys, x: Slot, y: Slot)
    requires Inv(s) && Enabled(s, ShareClean(x, y)) && TryToShare(s, x, y).1 == SharedPage
    ensures var r := Step(s, ShareClean(x, y));
            && Enabled(r, KernelStore(x, 0, s.mem[0][0]))
            && exists v: Word :: !ViewKept(r, Step(r, KernelStore(x, 0, v)), y)
  {
    TryToShareKeeps(s, x, y);
    var r := Step(s, ShareClean(x, y));
    SharedEntries(s, x, y);
    OtherSees(r, x, y);
  }

  lemma SharedEntries(s: Sys, x: Slot, y: Slot)
    requires Inv(s) && Enabled(s, ShareClean(x, y)) && TryToShare(s, x, y).1 == SharedPage
    ensures var r := TryToShare(s, x, y).0;
            Entry(r, x) && Entry(r, y) && At(r, x).page == At(r, y).page && Paged(At(r, x).page)
  {
    WithTableKeeps(s, y.d);
    var s0 := WithTable(s, y.d).sys;
    assert At(s0, x) == At(s, x) && At(s0, y) == At(s, y);
    ShareEntry(s0, x, y);
  }

  lemma PlainStepKeeps(s: Sys, op: Op)
    requires Inv(s) && Enabled(s, op) && (op.KernelTake? || op.KernelFill? || op.KernelGive? || op.StoreWord?)
    ensures Inv(Step(s, op))
    ensures forall y :: !Touches(op, TaskOf(y)) ==> ViewKept(s, Step(s, op), y)
  {
    match op
    case KernelTake =>
      if FreeFrame(s) != 0 { TakeKeeps(s, FreeFrame(s)); }
    case KernelFill(p, pg) => FillKeeps(s, p, pg);
    case KernelGive(p) => GiveBackKeeps(s, p);
    case StoreWord(x, off, v) => StoreKeeps(s, x, off, v);
  }

  /** Every operation keeps the counts exact, tables private and writable pages unshared, and
      shows nothing new but through the entries it affects. */
  lemma StepKeeps(s: Sys, op: Op)
    requires Inv(s) && Enabled(s, op)
    ensures Inv(Step(s, op))
    ensures forall y :: !Affects(s, op, y) ==> ViewKept(s, Step(s, op), y)
  {
    match op
    case Fork(a, b, n) => ForkKeeps(s, a, b, n);
    case Release(a, n) => FreeTablesKeep(s, DIRS * a, n);
    case WriteFault(x) => UnprotectKeeps(s, x);
    case KernelStore(x, off, v) => KernelStoreKeeps(s, x, off, v);
    case MissingPage(x, pg) => NewPageKeeps(s, x, pg);
    case ShareClean(x, y) => TryToShareKeeps(s, x, y);
    case PutHeld(p, x) => PutPageKeeps(s, p, x);
    case _ => PlainStepKeeps(s, op);
  }

  /** The task that stores sees exactly its own store. */
  lemma StoreSeen(s: Sys, x: Slot, off: nat, v: Word)
    requires Inv(s) && Enabled(s, StoreWord(x, off, v))
    ensures ViewOf(s, x).Mapped?
    ensures ViewOf(Step(s, StoreWord(x, off, v)), x) == Mapped(ViewOf(s, x).page[off := v])
    ensures OtherViewsKept(s, Step(s, StoreWord(x, off, v)), x)
    ensures At(Step(s, StoreWord(x, off, v)), x).dirty
  {
    StoreKeeps(s, x, off, v);
  }

  // ----- runs -----

  ghost predicate Runs(s: Sys, ops: seq<Op>)
    requires Shape(s)
    decreases |ops|
  {
    ops == [] || (Enabled(s, ops[0]) && Runs(Step(s, ops[0]), ops[1..]))
  }

  ghost function End(s: Sys, ops: seq<Op>): (r: Sys)
    requires Shape(s) && Runs(s, ops)
    ensures Shape(r)
    decreases |ops|
  {
    if ops == [] then s else End(Step(s, ops[0]), ops[1..])
  }

  /** The invariant holds in every reachable state. */
  lemma {:induction false} InvAlways(s: Sys, ops: seq<Op>)
    requires Inv(s) && Runs(s, ops)
    ensures Inv(End(s, ops))
    decreases |ops|
  {
    if ops != [] {
      StepKeeps(s, ops[0]);
      InvAlways(Step(s, ops[0]), ops[1..]);
    }
  }

  /** No operation of the run is for y's task, nor a store of the kernel into the page y shows. */
  ghost predicate LeftAlone(s: Sys, ops: seq<Op>, y: Slot)
    requires Shape(s) && Runs(s, ops)
    decreases |ops|
  {
    ops == [] || (!Affects(s, ops[0], y) && LeftAlone(Step(s, ops[0]), ops[1..], y))
  }

  /** Isolation: whatever the others do, and the kernel on their behalf, and in whatever order, a
      task goes on reading the same bytes. */
  lemma {:induction false} Isolation(s: Sys, ops: seq<Op>, y: Slot)
    requires Inv(s) && Runs(s, ops) && LeftAlone(s, ops, y)
    ensures ViewKept(s, End(s, ops), y)
    decreases |ops|
  {
    if ops != [] {
      StepKeeps(s, ops[0]);
      Isolation(Step(s, ops[0]), ops[1..], y);
    }
  }

  /** The kernel stores only where it has just made sure that it may: through writable entries. */
  ghost predicate Verified(s: Sys, ops: seq<Op>)
    requires Shape(s) && Runs(s, ops)
    decreases |ops|
  {
    ops == []
    || ((ops[0].KernelStore? ==> At(s, ops[0].x).rw) && Verified(Step(s, ops[0]), ops[1..]))
  }

  /** In such a run only operations for its own task can reach what a task sees. */
  lemma {:induction false} VerifiedLeavesAlone(s: Sys, ops: seq<Op>, y: Slot)
    requires Inv(s) && Runs(s, ops) && Verified(s, ops)
    requires forall op :: op in ops ==> !Touches(op, TaskOf(y))
    ensures LeftAlone(s, ops, y)
    decreases |ops|
  {
    if ops != [] {
      var op := ops[0];
      assert op in ops;
      if op.KernelStore? {
        WritableIsPrivate(s, op.x);
        if Affects(s, op, y) { assert y in Refs(s, At(s, op.x).page); }
      }
      StepKeeps(s, op);
      VerifiedLeavesAlone(Step(s, op), ops[1..], y);
    }
  }

  /** What entry y shows after the stores through it, by its task or by the kernel for it. */
  function Folded(v: View, ops: seq<Op>, y: Slot): View
    decreases |ops|
  {
    if ops == [] then v
    else
      var op := ops[0];
      var own := (op.StoreWord? || op.KernelStore?) && op.x == y && op.off < 1024 && v.Mapped?;
      var next := if own then Mapped(v.page[op.off := op.v]) else v;
      Folded(next, ops[1..], y)
  }

  /** All that affects y are stores of its own task, and of the kernel through y itself. */
  ghost predicate OnlyStored(s: Sys, ops: seq<Op>, y: Slot)
    requires Shape(s) && Runs(s, ops)
    decreases |ops|
  {
    ops == []
    || ((Affects(s, ops[0], y) ==> ops[0].StoreWord? || (ops[0].KernelStore? && ops[0].x == y))
        && OnlyStored(Step(s, ops[0]), ops[1..], y))
  }

  /** While a task neither maps nor unmaps anything itself, every entry of it shows exactly the
      stores through it, in order, on top of what it showed: through write faults, copies and forks
      of its own and whatever everybody else does. */
  lemma {:induction false} OwnStoresOnly(s: Sys, ops: seq<Op>, y: Slot)
    requires Inv(s) && Runs(s, ops) && IsSlot(y) && y.PteSlot? && ViewOf(s, y) != Low
    requires OnlyStored(s, ops, y)
    ensures ViewOf(End(s, ops), y) == Folded(ViewOf(s, y), ops, y)
    decreases |ops|
  {
    if ops != [] {
      var op := ops[0];
      StepKeeps(s, op);
      if op.StoreWord? { StoreKeeps(s, op.x, op.off, op.v); }
      if op.KernelStore? { KernelStoreKeeps(s, op.x, op.off, op.v); }
      if !((op.StoreWord? || op.KernelStore?) && op.x == y) { assert ViewKept(s, Step(s, op), y); }
      OwnStoresOnly(Step(s, op), ops[1..], y);
    }
  }

  /** A forked child keeps the memory its parent had at the fork, however much the parent and
      everybody else write afterwards. */
  lemma ForkIsSnapshot(s: Sys, a: nat, b: nat, n: nat, ops: seq<Op>, d: nat, i: nat)
    requires Inv(s) && Enabled(s, Fork(a, b, n)) && a > 0
    requires CopyMem(s, DIRS * a, DIRS * b, n, 1024).ok
    requires var s1 := Step(s, Fork(a, b, n)); Runs(s1, ops) && LeftAlone(s1, ops, PteSlot(DIRS * b + d, i))
    requires d < n && i < 1024 && ViewOf(s, PteSlot(DIRS * a + d, i)) != Low
    ensures var s1 := Step(s, Fork(a, b, n));
            ViewOf(End(s1, ops), PteSlot(DIRS * b + d, i)) == ViewOf(s, PteSlot(DIRS * a + d, i))
  {
    ForkKeeps(s, a, b, n);
    ForkShares(s, DIRS * a, DIRS * b, n, 1024);
    var s1 := Step(s, Fork(a, b, n));
    var y := PteSlot(DIRS * b + d, i);
    assert ViewOf(s1, PteSlot(DIRS * b + d, i)) == ViewOf(s, PteSlot(DIRS * a + d, i));
    Isolation(s1, ops, y);
    assert ViewKept(s1, End(s1, ops), y);
  }

  /** In every reachable state no page is handed out while anything refers to it, and mem_map
      stays far from wrapping round. */
  lemma NoDoubleUse(s: Sys, ops: seq<Op>, p: nat)
    requires Inv(s) && Runs(s, ops) && Paged(p)
    ensures var r := End(s, ops);
            && (FreeFrame(r) == p ==> Refs(r, p) == {} && HeldOf(r, p) == 0 && p < r.high)
            && CountOf(r, p) == |Refs(r, p)| + HeldOf(r, p)
            && CountOf(r, p) < NR_TASKS + 100
  {
    InvAlways(s, ops);
    assert CountExact(End(s, ops), p);
    CountFitsByte(End(s, ops), p);
  }
}
