/** The dirty bit over whole runs: which stores try_to_share knows of when it tests it. */
module PageDirty {
  import opened PageState
  import opened PageSteps
  import opened PageOps
  import opened PageFork
  import opened PageRoom
  import opened PageRuns

  predicate StoresThrough(op: Op, x: Slot) {
    (op.StoreWord? || op.KernelStore?) && op.x == x
  }

  /** The operation is a write fault that gives entry x another page. */
  ghost predicate Copies(s: Sys, op: Op, x: Slot)
    requires Shape(s) && IsSlot(x) && Enabled(s, op)
  {
    op == WriteFault(x) && At(Step(s, op), x).page != At(s, x).page
  }

  /** A word has been stored through x, and x has not been given another page since; `before` says
      whether that was so when the run began. */
  ghost predicate StoredSince(s: Sys, ops: seq<Op>, x: Slot, before: bool)
    requires Shape(s) && Runs(s, ops) && IsSlot(x)
    decreases |ops|
  {
    if ops == [] then before
    else
      var now := StoresThrough(ops[0], x) || (before && !Copies(s, ops[0], x));
      StoredSince(Step(s, ops[0]), ops[1..], x, now)
  }

  /** x's task stores, but neither maps nor unmaps anything. */
  predicate Stays(ops: seq<Op>, x: Slot) {
    forall op :: op in ops && Touches(op, TaskOf(x)) ==> op.StoreWord? || op.KernelStore?
  }

  // ----- one step -----

  ghost predicate DirtyKept(s: Sys, r: Sys, x: Slot)
    requires Shape(s) && Shape(r)
  {
    Entry(s, x) ==> Entry(r, x) && At(r, x).dirty == At(s, x).dirty
  }

  lemma ForkKeepsDirty(s: Sys, a: nat, b: nat, n: nat, x: Slot)
    requires Inv(s) && Enabled(s, Fork(a, b, n)) && TaskOf(x) != b
    ensures DirtyKept(s, Step(s, Fork(a, b, n)), x)
  {
    ForkKeeps(s, a, b, n);
    var f, t, nr := DIRS * a, DIRS * b, EntriesOf(a);
    if Entry(s, x) {
      if CopyMem(s, f, t, n, nr).ok {
        CopyTablesKeep(s, f, t, n, nr);
        assert RangeSlot(s, Step(s, Fork(a, b, n)), f, t, n, x);
      } else {
        FailedForkUndone(s, f, t, n, nr);
        assert Softer(s, Step(s, Fork(a, b, n)), x);
      }
    }
  }

  lemma ShareKeepsDirty(s: Sys, z: Slot, y: Slot, x: Slot)
    requires Inv(s) && Enabled(s, ShareClean(z, y)) && x != y
    ensures DirtyKept(s, Step(s, ShareClean(z, y)), x)
  {
    WithTableKeeps(s, y.d);
    var s0 := WithTable(s, y.d).sys;
    if Entry(s, x) && TryToShare(s, z, y).1 == SharedPage {
      assert At(s0, z) == At(s, z) && At(s0, y) == At(s, y) && At(s0, x) == At(s, x);
      ShareEntry(s0, z, y);
    }
  }

  lemma StoreKeepsDirty(s: Sys, op: Op, x: Slot)
    requires Inv(s) && Enabled(s, op) && (op.StoreWord? || op.KernelStore?)
    ensures Entry(s, x) ==> Entry(Step(s, op), x) && At(Step(s, op), x).dirty == (op.x == x || At(s, x).dirty)
  {
    var s1 := SetDirty(s, op.x);
    DirtyUnseen(s, op.x);
    StoredAnywayKeeps(s1, op.x, op.off, op.v) by { assert SlotOk(s, op.x); }
  }

  /** A write fault keeps the mark, unless it copies. */
  lemma FaultDirty(s: Sys, z: Slot, x: Slot)
    requires Inv(s) && Enabled(s, WriteFault(z)) && Entry(s, x)
    ensures var r := Step(s, WriteFault(z));
            Entry(r, x) && At(r, x).dirty == (At(s, x).dirty && !Copies(s, WriteFault(z), x))
  {
    UnprotectKeeps(s, z);
    if z == x {
      EntryHasTable(s, x);
      if Paged(At(s, x).page) && CountOf(s, At(s, x).page) == 1 {
        SetRwKeeps(s, x, true);
      } else if FreeFrame(s) != 0 {
        CopyKeeps(s, x, FreeFrame(s));
        TakeKeeps(s, FreeFrame(s));
      }
    }
  }

  lemma OtherKeepsDirty(s: Sys, op: Op, x: Slot)
    requires Inv(s) && Enabled(s, op) && !Touches(op, TaskOf(x)) && Entry(s, x)
    requires op.Release? || op.MissingPage? || op.PutHeld? || op.KernelTake? || op.KernelFill? || op.KernelGive?
    ensures DirtyKept(s, Step(s, op), x)
  {
    match op
    case Release(a, n) => FreeTablesKeep(s, DIRS * a, n);
    case MissingPage(z, pg) => NewPageKeeps(s, z, pg);
    case PutHeld(p, z) => PutPageKeeps(s, p, z);
    case KernelTake => if FreeFrame(s) != 0 { TakeKeeps(s, FreeFrame(s)); }
    case KernelFill(p, pg) => FillKeeps(s, p, pg);
    case KernelGive(p) => GiveBackKeeps(s, p);
  }

  lemma StepDirty(s: Sys, op: Op, x: Slot)
    requires Inv(s) && Enabled(s, op) && Entry(s, x)
    requires Touches(op, TaskOf(x)) ==> op.StoreWord? || op.KernelStore?
    ensures var r := Step(s, op);
            Entry(r, x) && At(r, x).dirty == (StoresThrough(op, x) || (At(s, x).dirty && !Copies(s, op, x)))
  {
    match op
    case Fork(a, b, n) => ForkKeepsDirty(s, a, b, n, x);
    case WriteFault(z) => FaultDirty(s, z, x);
    case StoreWord(_, _, _) => StoreKeepsDirty(s, op, x);
    case KernelStore(_, _, _) => StoreKeepsDirty(s, op, x);
    case ShareClean(z, y) => ShareKeepsDirty(s, z, y, x);
    case _ => OtherKeepsDirty(s, op, x);
  }

  // ----- runs -----

  /** The mark of an entry tells exactly whether a word has been stored through it since it was
      given its page. */
  lemma {:induction false} DirtyIff(s: Sys, ops: seq<Op>, x: Slot)
    requires Inv(s) && Runs(s, ops) && Entry(s, x) && Stays(ops, x)
    ensures Inv(End(s, ops)) && Entry(End(s, ops), x)
    ensures At(End(s, ops), x).dirty <==> StoredSince(s, ops, x, At(s, x).dirty)
    decreases |ops|
  {
    if ops != [] {
      assert ops[0] in ops;
      StepKeeps(s, ops[0]);
      StepDirty(s, ops[0], x);
      DirtyIff(Step(s, ops[0]), ops[1..], x);
    }
  }

  /** A page is given to another task if and only if nothing has been stored through the entry since
      it was given that page, which is in main memory, and there is a page for a missing table. */
  lemma SharedIff(s: Sys, ops: seq<Op>, x: Slot, y: Slot)
    requires Inv(s) && Runs(s, ops) && Entry(s, x) && !At(s, x).dirty && Stays(ops, x)
    requires Enabled(End(s, ops), ShareClean(x, y))
    ensures var r := End(s, ops);
            TryToShare(r, x, y).1 == SharedPage
            <==> && !StoredSince(s, ops, x, false)
                 && Paged(At(r, x).page) && TableNeed(r, y.d) <= |Zeros(r)|
  {
    DirtyIff(s, ops, x);
    var r := End(s, ops);
    ShareOkIff(r, x, y);
    assert SlotOk(r, x);
  }

  ghost predicate Leads(s: Sys, op: Op, r: Sys) {
    Shape(s) && Enabled(s, op) && r == Step(s, op)
  }

  /** From s a word is stored through x and x's task forks; there is memory for the tables. */
  ghost predicate StoredForked(s: Sys, s1: Sys, s2: Sys, x: Slot, off: nat, v: Word, b: nat, n: nat) {
    && TaskOf(x) >= 1 && x.d % DIRS < n
    && Leads(s, StoreWord(x, off, v), s1) && Leads(s1, Fork(TaskOf(x), b, n), s2)
    && |Tables(s1, DIRS * TaskOf(x), n)| <= |Zeros(s1)|
  }

  /** What the mark does not tell: that the page still is what was loaded. After a store, a fork, and a
      write fault that copies, the entry shows the word stored and is not marked. */
  lemma {:induction false} StoredUnmarked(s: Sys, s1: Sys, s2: Sys, s3: Sys, x: Slot, off: nat, v: Word, b: nat, n: nat)
    requires Inv(s) && StoredForked(s, s1, s2, x, off, v, b, n) && Zeros(s2) != {} && Leads(s2, WriteFault(x), s3)
    ensures Inv(s3) && Entry(s3, x) && !At(s3, x).dirty && Paged(At(s3, x).page)
    ensures ViewOf(s, x).Mapped? && off < 1024 && ViewOf(s3, x) == Mapped(ViewOf(s, x).page[off := v])
  {
    StoredAndForked(s, s1, s2, x, off, v, b, n);
    FaultForgets(s2, s3, x);
  }

  /** And then try_to_share gives it to another task. */
  lemma UnmarkedIsShared(s: Sys, x: Slot, y: Slot)
    requires Inv(s) && Entry(s, x) && !At(s, x).dirty && Paged(At(s, x).page)
    requires Enabled(s, ShareClean(x, y)) && TableNeed(s, y.d) <= |Zeros(s)|
    ensures TryToShare(s, x, y).1 == SharedPage && ViewOf(TryToShare(s, x, y).0, y) == ViewOf(s, x)
  {
    ShareOkIff(s, x, y);
    TryToShareKeeps(s, x, y);
  }

  lemma {:induction false} StoredAndForked(s: Sys, s1: Sys, s2: Sys, x: Slot, off: nat, v: Word, b: nat, n: nat)
    requires Inv(s) && StoredForked(s, s1, s2, x, off, v, b, n)
    ensures Inv(s2) && Entry(s2, x) && Paged(At(s2, x).page) && Refs(s2, At(s2, x).page) != {x}
    ensures ViewOf(s, x).Mapped? && off < 1024 && ViewOf(s2, x) == Mapped(ViewOf(s, x).page[off := v])
  {
    StoreKeeps(s, x, off, v);
    ForkTwoRefs(s1, TaskOf(x), b, n, x);
    assert ViewKept(s1, s2, x);
  }

  /** A write fault that copies leaves the entry unmarked, with what it showed. */
  lemma FaultForgets(s: Sys, r: Sys, x: Slot)
    requires Inv(s) && Entry(s, x) && Paged(At(s, x).page) && Refs(s, At(s, x).page) != {x} && Zeros(s) != {}
    requires Leads(s, WriteFault(x), r)
    ensures Inv(r) && Entry(r, x) && !At(r, x).dirty && Paged(At(r, x).page) && ViewOf(r, x) == ViewOf(s, x)
  {
    UnprotectKeeps(s, x);
    UnprotectOkIff(s, x);
    FaultDirty(s, x, x);
    CopiedElsewhere(s, x);
    assert ViewKept(s, r, x);
  }

  /** After a fork the entry is not alone on its page. */
  lemma ForkTwoRefs(s: Sys, a: nat, b: nat, n: nat, x: Slot)
    requires Inv(s) && Enabled(s, Fork(a, b, n)) && a >= 1 && Entry(s, x) && Paged(At(s, x).page)
    requires TaskOf(x) == a && x.d % DIRS < n && |Tables(s, DIRS * a, n)| <= |Zeros(s)|
    ensures var r := Step(s, Fork(a, b, n));
            && Inv(r) && ViewKept(s, r, x) && Entry(r, x) && At(r, x).page == At(s, x).page
            && Refs(r, At(s, x).page) != {x}
  {
    ForkKeeps(s, a, b, n);
    var f, t, r := DIRS * a, DIRS * b, Step(s, Fork(a, b, n));
    ForkOkIff(s, f, t, n, 1024);
    CopyTablesKeep(s, f, t, n, 1024);
    assert RangeSlot(s, r, f, t, n, x);
    ChildRefers(s, r, f, t, n, x);
    assert ViewKept(s, r, x);
  }

  lemma ChildRefers(s: Sys, r: Sys, f: nat, t: nat, n: nat, x: Slot)
    requires Inv(s) && Shape(r) && Ranges(f, t, n, 1024) && DIRS <= f && Entry(s, x) && f <= x.d < f + n
    requires InheritsAll(s, r, t - f, t, t + n, 1024)
    ensures Refs(r, At(s, x).page) != {x}
  {
    var z := PteSlot(x.d + (t - f), x.i);
    assert Inherits(s, r, t - f, z.d, z.i, 1024);
    assert Source(s, x.d, x.i) == At(s, x);
    assert z in Refs(r, At(s, x).page);
  }

  /** A write fault of an entry that is not alone copies. */
  lemma CopiedElsewhere(s: Sys, x: Slot)
    requires Inv(s) && Entry(s, x) && Paged(At(s, x).page) && Refs(s, At(s, x).page) != {x} && Unprotect(s, x).ok
    ensures Copies(s, WriteFault(x), x) && Paged(At(Step(s, WriteFault(x)), x).page)
  {
    UnprotectKeeps(s, x);
    OneRef(s, At(s, x).page, x);
    CopyKeeps(s, x, FreeFrame(s));
  }
}
