/** copy_strings and create_tables (fs/exec.c) in their own form. */
module Exec {
  import opened ExecArgs
  import opened Collections

  /** get_fs_byte of a string with its terminating zero. */
  function CharAt(s: seq<Byte>, i: nat): Byte { if i < |s| then s[i] else 0 }

  /** From `pages`, the bytes b have been put at p, up to p0, with just the pages they needed. */
  ghost predicate Copied(pages: seq<Slot>, now: seq<Slot>, b: seq<Byte>, p: nat, p0: nat)
    requires PagesOk(pages) && p0 <= SPACE
  {
    PagesOk(now) && p + |b| == p0 && Flat(now) == Over(Flat(pages), p, b) && Present(now, p, p0) &&
        Grown(pages, now, p, p0)
  }

  lemma CopiedOn(pages: seq<Slot>, mid: seq<Slot>, now: seq<Slot>, a: seq<Byte>, b: seq<Byte>, p: nat, p1: nat, p0: nat)
    requires PagesOk(pages) && p0 <= SPACE && Copied(pages, mid, b, p1, p0) && Copied(mid, now, a, p, p1)
    ensures Copied(pages, now, a + b, p, p0)
  {
    GrownTwice(pages, mid, now, p, p1, p0);
    OverTwice(Flat(pages), p, a, b);
  }

  /** The pages of the argument block, and how many get_free_page will still give. */
  class ArgBlock {
    const page: array<Slot>
    var left: nat

    ghost predicate Valid()
      reads page
    {
      PagesOk(page[..])
    }

    /** The do-while loop: the length with the terminating zero. */
    method Length(s: seq<Byte>) returns (len: nat)
      requires IsString(s)
      ensures len == |s| + 1
    {
      len := 0;
      var b;
      var tmp := 0;
      len, b, tmp := 1, CharAt(s, 0), 1;
      while b != 0
        invariant 1 <= len <= |s| + 1 && tmp == len && b == CharAt(s, len - 1)
        decreases |s| + 1 - len
      {
        len, b, tmp := len + 1, CharAt(s, tmp), tmp + 1;
      }
    }

    /** page[k], got when it is not there; false when there is none to get. */
    method GetPage(k: nat) returns (ok: bool)
      requires Valid() && k < PAGES
      modifies this`left, page
      ensures Valid() && Flat(page[..]) == Flat(old(page[..]))
      ensures ok ==> page[..] == WithPage(old(page[..]), k) && page[k].Page?
      ensures !ok ==> left == old(left) == 0 && old(page[k]).NoPage? && page[..] == old(page[..])
      ensures ok ==> left == old(left) - if old(page[k]).NoPage? then 1 else 0
    {
      ghost var was := page[..];
      WithPageFlat(was, k);
      if page[k].NoPage? {
        if left == 0 {
          return false;
        }
        left := left - 1;
        page[k] := Page(ZeroPage());
      }
      assert page[..] == WithPage(was, k);
      ok := true;
    }

    /** `offset` and `pag` say where p lies: the page and the offset in it, looked up afresh only when
        the offset runs out. */
    ghost predicate Cursor(p: nat, offset: nat, pag: nat)
      reads page
    {
      offset > 0 ==> pag < page.Length && page[pag].Page? && p == pag * PAGE + offset && offset < PAGE
    }

    /** One byte of copy_strings, below p0. */
    method CopyByte(b: Byte, p0: nat, offset0: nat, pag0: nat) returns (offset: nat, pag: nat, ok: bool)
      requires Valid() && 0 < p0 <= SPACE && Cursor(p0, offset0, pag0)
      modifies this`left, page
      ensures Valid() && (!ok ==> Need(old(page[..]), p0 - 1, p0) > old(left))
      ensures ok ==> Copied(old(page[..]), page[..], [b], p0 - 1, p0) && Cursor(p0 - 1, offset, pag)
      ensures ok ==> left == old(left) - Need(old(page[..]), p0 - 1, p0)
    {
      ghost var was := page[..];
      var p := p0 - 1;
      offset, pag := offset0, pag0;
      if offset == 0 {
        offset := p % PAGE;
        pag := p / PAGE;
        ok := GetPage(pag);
        if !ok {
          return;
        }
      } else {
        offset := offset - 1;
      }
      ghost var now := page[..];
      StoredFlat(now, pag, offset, b);
      page[pag] := Page(page[pag].bytes[offset := b]);
      assert page[..] == Stored(now, pag, offset, b);
      assert Flat(page[..]) == Over(Flat(was), p, [b]);
      ok := true;
    }

    /** The inner loop of copy_strings: s and its zero below p, last byte first. */
    method CopyString(s: seq<Byte>, p0: nat, offset0: nat, pag0: nat) returns (p: nat, offset: nat, pag: nat, ok: bool)
      requires Valid() && IsString(s) && |s| + 1 <= p0 <= SPACE && Cursor(p0, offset0, pag0)
      modifies this`left, page
      ensures Valid() && (!ok ==> Need(old(page[..]), p0 - |s| - 1, p0) > old(left))
      ensures ok ==> Copied(old(page[..]), page[..], s + [0], p, p0) && Cursor(p, offset, pag)
      ensures ok ==> left == old(left) - Need(old(page[..]), p, p0)
    {
      ghost var pages, have := page[..], left;
      var len := Length(s);
      p, offset, pag, ok := p0, offset0, pag0, true;
      ghost var all := s + [0];
      assert all[len..] == [];
      OverNothing(Flat(pages), p);
      while len > 0
        invariant 0 <= len <= |s| + 1 && Valid() && Cursor(p, offset, pag)
        invariant Copied(pages, page[..], all[len..], p, p0) && left == have - Need(pages, p, p0)
        decreases len
      {
        ghost var mid, p1 := page[..], p;
        NeedSplit(pages, mid, p - 1, p, p0);
        p, len := p - 1, len - 1;
        offset, pag, ok := CopyByte(CharAt(s, len), p + 1, offset, pag);
        if !ok {
          NeedMore(pages, p0 - |s| - 1, p, p0);
          return;
        }
        assert [CharAt(s, len)] + all[len + 1..] == all[len..];
        CopiedOn(pages, mid, page[..], [CharAt(s, len)], all[len + 1..], p, p1, p0);
      }
      ok := true;
      assert all[0..] == all;
    }

    /** The strings from the argc-th on have been copied below p0, down to p. */
    ghost predicate Copying(pages: seq<Slot>, have: nat, argv: seq<seq<Byte>>, argc: nat, p: nat, p0: nat)
      requires PagesOk(pages) && argc <= |argv| && p0 <= SPACE
      reads this, page
    {
      Valid() && left == have - Need(pages, p, p0) && Copied(pages, page[..], Join(argv[argc..]), p, p0)
    }

    /** One round of the outer loop of copy_strings. */
    method CopyNext(ghost pages: seq<Slot>, ghost have: nat, argv: seq<seq<Byte>>, argc: nat, p1: nat, p0: nat,
                    offset1: nat, pag1: nat)
      returns (p: nat, offset: nat, pag: nat, ok: bool)
      requires PagesOk(pages) && AllStrings(argv) && argc < |argv| && |Join(argv)| <= p0 <= SPACE
      requires Copying(pages, have, argv, argc + 1, p1, p0)
      requires Cursor(p1, offset1, pag1)
      modifies this`left, page
      ensures Valid()
      ensures !ok ==> Need(pages, p0 - |Join(argv)|, p0) > have
      ensures ok ==> Copying(pages, have, argv, argc, p, p0)
      ensures ok ==> Cursor(p, offset, pag)
    {
      TailFits(argv, argc);
      ghost var mid, next := page[..], p1 - |argv[argc]| - 1;
      NeedSplit(pages, mid, next, p1, p0);
      p, offset, pag, ok := CopyString(argv[argc], p1, offset1, pag1);
      if !ok {
        NeedMore(pages, p0 - |Join(argv)|, next, p0);
        return;
      }
      CopiedOn(pages, mid, page[..], argv[argc] + [0], Join(argv[argc + 1..]), p, p1, p0);
    }

    /** copy_strings; 0 exactly when p is 0, when nothing is left below, or when more pages are
        missing than can be got. The strings must fit: the test of the source compares an unsigned
        difference with 0. */
    method CopyStrings(argv: seq<seq<Byte>>, p0: nat) returns (p: nat)
      requires Valid() && AllStrings(argv) && p0 <= SPACE && (p0 > 0 ==> |Join(argv)| <= p0)
      modifies this`left, page
      ensures Valid()
      ensures p == 0 <==> p0 == 0 || |Join(argv)| == p0 || Need(old(page[..]), p0 - |Join(argv)|, p0) > old(left)
      ensures p0 == 0 ==> left == old(left)
      ensures p > 0 ==> left == old(left) - Need(old(page[..]), p, p0)
      ensures p > 0 ==> Copied(old(page[..]), page[..], Join(argv), p, p0)
    {
      if p0 == 0 {
        return 0;
      }
      ghost var pages, have := page[..], left;
      var argc, offset: nat, pag: nat, ok := |argv|, 0, 0, true;
      p := p0;
      assert argv[argc..] == [];
      OverNothing(Flat(pages), p);
      while argc > 0
        invariant 0 <= argc <= |argv| && Copying(pages, have, argv, argc, p, p0)
        invariant Cursor(p, offset, pag)
        decreases argc
      {
        argc := argc - 1;
        p, offset, pag, ok := CopyNext(pages, have, argv, argc, p, p0, offset, pag);
        if !ok {
          return 0;
        }
      }
      assert argv[0..] == argv;
    }

    lemma TailFits(argv: seq<seq<Byte>>, i: nat)
      requires AllStrings(argv) && i < |argv|
      ensures IsString(argv[i]) && Join(argv[i..]) == argv[i] + [0] + Join(argv[i + 1..])
      ensures |Join(argv)| == |Join(argv[..i])| + |Join(argv[i..])|
    {
      JoinFrom(argv, i);
      JoinSplit(argv[..i], argv[i..]);
      assert argv[..i] + argv[i..] == argv;
    }
  }

  /** User memory of the new program. */
  class UserMemory {
    const mem: array<Byte>

    method PutFsLong(v: nat, a: nat)
      requires a + 4 <= mem.Length && v < 0x1_0000_0000
      modifies mem
      ensures mem[..] == PutLong(old(mem[..]), a, v)
    {
      ghost var was := mem[..];
      mem[a] := v % 256;
      mem[a + 1] := v / 256 % 256;
      mem[a + 2] := v / 65536 % 256;
      mem[a + 3] := v / 16777216;
      assert mem[..] == PutLong(was, a, v);
    }

    /** Going over one string and its zero. */
    method SkipString(p: nat, ghost ss: seq<seq<Byte>>, ghost i: nat, ghost base: nat) returns (q: nat)
      requires AllStrings(ss) && i < |ss| && base + |Join(ss)| <= mem.Length
      requires mem[..][base..base + |Join(ss)|] == Join(ss) && p == base + Offset(ss, i)
      ensures q == base + Offset(ss, i + 1)
    {
      StringBytes(mem[..], base, ss, i);
      JoinAt(ss, i);
      q := p + 1;
      while mem[q - 1] != 0
        invariant p < q <= p + |ss[i]| + 1
        decreases p + |ss[i]| + 1 - q
      {
        q := q + 1;
      }
    }

    lemma PutOutside(m: seq<Byte>, a: nat, v: nat)
      requires a + 4 <= |m| && v < 0x1_0000_0000
      ensures SameOutside(m, PutLong(m, a, v), a, a + 4) && Long(PutLong(m, a, v), a) == v
    {
      LongPut(m, a, v);
    }

    /** One of the two loops of create_tables, with the null pointer at its end. */
    method FillTable(n: nat, at: nat, p: nat, ghost ss: seq<seq<Byte>>, ghost first: nat, ghost base: nat)
        returns (q: nat)
      requires AllStrings(ss) && first + n <= |ss| && base + |Join(ss)| <= mem.Length <= 0x1_0000_0000
      requires at + 4 * n + 4 <= base && mem[..][base..base + |Join(ss)|] == Join(ss) && p == base + Offset(ss, first)
      modifies mem
      ensures q == base + Offset(ss, first + n)
      ensures Entries(mem[..], at, n, base, ss, first) && Long(mem[..], at + 4 * n) == 0
      ensures SameOutside(old(mem[..]), mem[..], at, at + 4 * n + 4)
    {
      ghost var was := mem[..];
      q := p;
      var i := 0;
      while i < n
        invariant i <= n && q == base + Offset(ss, first + i)
        invariant Entries(mem[..], at, i, base, ss, first)
        invariant SameOutside(was, mem[..], at, at + 4 * i)
        invariant mem[..][base..base + |Join(ss)|] == Join(ss)
      {
        ghost var now := mem[..];
        q := FillEntry(q, at, i, ss, first, base);
        SameTwice(was, now, mem[..], at, at + 4 * i, at + 4 * i + 4);
        i := i + 1;
      }
      ghost var now := mem[..];
      PutNull(at, n, ss, first, base);
      SameTwice(was, now, mem[..], at, at + 4 * n, at + 4 * n + 4);
    }

    /** One entry, and on to the next string. */
    method FillEntry(p: nat, at: nat, i: nat, ghost ss: seq<seq<Byte>>, ghost first: nat, ghost base: nat)
        returns (q: nat)
      requires AllStrings(ss) && first + i < |ss| && base + |Join(ss)| <= mem.Length <= 0x1_0000_0000
      requires at + 4 * i + 4 <= base && mem[..][base..base + |Join(ss)|] == Join(ss) &&
               p == base + Offset(ss, first + i)
      requires Entries(mem[..], at, i, base, ss, first)
      modifies mem
      ensures Entries(mem[..], at, i + 1, base, ss, first) && q == base + Offset(ss, first + i + 1)
      ensures SameOutside(old(mem[..]), mem[..], at + 4 * i, at + 4 * i + 4)
      ensures mem[..][base..base + |Join(ss)|] == Join(ss)
    {
      ghost var now := mem[..];
      JoinAt(ss, first + i);
      PutEntry(p, at, i, ss, first, base);
      BlockKept(now, mem[..], at + 4 * i, at + 4 * i + 4, base, |Join(ss)|);
      q := SkipString(p, ss, first + i, base);
    }

    method PutNull(at: nat, n: nat, ghost ss: seq<seq<Byte>>, ghost first: nat, ghost base: nat)
      requires first + n <= |ss| && at + 4 * n + 4 <= mem.Length && Entries(mem[..], at, n, base, ss, first)
      modifies mem
      ensures Entries(mem[..], at, n, base, ss, first) && Long(mem[..], at + 4 * n) == 0
      ensures SameOutside(old(mem[..]), mem[..], at + 4 * n, at + 4 * n + 4)
    {
      ghost var now := mem[..];
      PutFsLong(0, at + 4 * n);
      PutOutside(now, at + 4 * n, 0);
      EntriesKept(now, mem[..], at + 4 * n, at + 4 * n + 4, at, n, base, ss, first);
    }

    lemma SameTwice(a: seq<Byte>, b: seq<Byte>, c: seq<Byte>, from: nat, mid: nat, to: nat)
      requires from <= mid <= to && SameOutside(a, b, from, mid) && SameOutside(b, c, mid, to)
      ensures SameOutside(a, c, from, to)
    {
    }

    method PutEntry(q: nat, at: nat, i: nat, ghost ss: seq<seq<Byte>>, ghost first: nat, ghost base: nat)
      requires first + i < |ss| && at + 4 * i + 4 <= mem.Length && q < 0x1_0000_0000 &&
               q == base + Offset(ss, first + i)
      requires Entries(mem[..], at, i, base, ss, first)
      modifies mem
      ensures Entries(mem[..], at, i + 1, base, ss, first)
      ensures SameOutside(old(mem[..]), mem[..], at + 4 * i, at + 4 * i + 4)
    {
      ghost var now := mem[..];
      PutFsLong(q, at + 4 * i);
      PutOutside(now, at + 4 * i, q);
      EntriesKept(now, mem[..], at + 4 * i, at + 4 * i + 4, at, i, base, ss, first);
    }

    /** create_tables: the tables below the block of strings at p, and the stack pointer. */
    method CreateTables(p: nat, argc: nat, envc: nat, ghost args: seq<seq<Byte>>, ghost env: seq<seq<Byte>>)
        returns (sp: nat)
      requires AllStrings(args) && AllStrings(env) && argc == |args| && envc == |env|
      requires p + |Join(args + env)| <= mem.Length <= 0x1_0000_0000 && 4 * (argc + envc + 5) + 3 <= p
      requires mem[..][p..p + |Join(args + env)|] == Join(args + env)
      modifies mem
      ensures sp % 4 == 0 && sp + 4 * (argc + envc + 5) <= p < sp + 4 * (argc + envc + 5) + 4
      ensures StartsWith(mem[..], sp, args, env)
      ensures SameOutside(old(mem[..]), mem[..], sp, sp + 4 * (argc + envc + 5))
    {
      var argv, envp;
      sp, argv, envp := Reserve(p, argc, envc);
      FillAll(sp, argv, envp, p, argc, envc, args, env);
    }

    /** Where the tables go. */
    method Reserve(p: nat, argc: nat, envc: nat) returns (sp: nat, argv: nat, envp: nat)
      requires 4 * (argc + envc + 5) + 3 <= p
      ensures sp % 4 == 0 && argv == sp + 12 && envp == argv + 4 * (argc + 1)
      ensures envp + 4 * (envc + 1) <= p < envp + 4 * (envc + 1) + 4
    {
      var top := p - p % 4;
      envp := top - 4 * (envc + 1);
      argv := envp - 4 * (argc + 1);
      sp := argv - 12;
      assert top % 4 == 0 && sp == top - 4 * (argc + envc + 5);
    }

    /** The stores of create_tables. */
    method FillAll(sp: nat, argv: nat, envp: nat, p: nat, argc: nat, envc: nat, ghost args: seq<seq<Byte>>,
        ghost env: seq<seq<Byte>>)
      requires AllStrings(args) && AllStrings(env) && argc == |args| && envc == |env|
      requires p + |Join(args + env)| <= mem.Length <= 0x1_0000_0000
      requires argv == sp + 12 && envp == argv + 4 * (argc + 1) && envp + 4 * (envc + 1) <= p
      requires mem[..][p..p + |Join(args + env)|] == Join(args + env)
      modifies mem
      ensures StartsWith(mem[..], sp, args, env)
      ensures SameOutside(old(mem[..]), mem[..], sp, sp + 4 * (argc + envc + 5))
    {
      ghost var was, n, end := mem[..], |Join(args + env)|, envp + 4 * (envc + 1);
      BothStrings(args, env);
      var q := FillFirst(sp, argv, envp, p, argc, args, env);
      ghost var m2 := mem[..];
      q := FillTable(envc, envp, q, args + env, argc, p);
      BlockKept(m2, mem[..], envp, end, p, n);
      SameTwice(was, m2, mem[..], sp, envp, end);
      Finish(m2, mem[..], sp, argv, envp, end, p, args, env);
    }

    /** The three words and the argument table. */
    method FillFirst(sp: nat, argv: nat, envp: nat, p: nat, argc: nat, ghost args: seq<seq<Byte>>,
        ghost env: seq<seq<Byte>>) returns (q: nat)
      requires AllStrings(args + env) && argc == |args|
      requires p + |Join(args + env)| <= mem.Length <= 0x1_0000_0000
      requires argv == sp + 12 && envp == argv + 4 * (argc + 1) && envp < p
      requires mem[..][p..p + |Join(args + env)|] == Join(args + env)
      modifies mem
      ensures SameOutside(old(mem[..]), mem[..], sp, envp) && mem[..][p..p + |Join(args + env)|] == Join(args + env)
      ensures q == p + Offset(args + env, argc)
      ensures Long(mem[..], sp) == argc && Long(mem[..], sp + 4) == argv && Long(mem[..], sp + 8) == envp
      ensures Entries(mem[..], argv, argc, p, args + env, 0) && Long(mem[..], argv + 4 * argc) == 0
    {
      ghost var was, n := mem[..], |Join(args + env)|;
      PutThree(sp, argc, argv, envp);
      ghost var m1 := mem[..];
      BlockKept(was, m1, sp, sp + 12, p, n);
      q := FillTable(argc, argv, p, args + env, 0, p);
      BlockKept(m1, mem[..], argv, envp, p, n);
      SameTwice(was, m1, mem[..], sp, argv, envp);
      WordsKept(m1, mem[..], sp, argv, envp);
    }

    lemma Finish(m2: seq<Byte>, m3: seq<Byte>, sp: nat, argv: nat, envp: nat, end: nat, p: nat, args: seq<seq<Byte>>,
        env: seq<seq<Byte>>)
      requires AllStrings(args + env) && p + |Join(args + env)| <= |m2|
      requires argv == sp + 12 && envp == argv + 4 * (|args| + 1) && end == envp + 4 * (|env| + 1) && end <= p
      requires SameOutside(m2, m3, envp, end) && m3[p..p + |Join(args + env)|] == Join(args + env)
      requires Long(m2, sp) == |args| && Long(m2, sp + 4) == argv && Long(m2, sp + 8) == envp
      requires Entries(m2, argv, |args|, p, args + env, 0) && Long(m2, argv + 4 * |args|) == 0
      requires Entries(m3, envp, |env|, p, args + env, |args|) && Long(m3, envp + 4 * |env|) == 0
      ensures StartsWith(m3, sp, args, env)
    {
      WordsKept(m2, m3, sp, envp, end);
      ArgsFound(m2, m3, argv, envp, end, p, args, env);
      EnvFound(m3, envp, p, args, env);
    }

    lemma WordsKept(m2: seq<Byte>, m3: seq<Byte>, sp: nat, from: nat, to: nat)
      requires sp + 12 <= from <= to <= |m2| && SameOutside(m2, m3, from, to)
      ensures Long(m3, sp) == Long(m2, sp) && Long(m3, sp + 4) == Long(m2, sp + 4) &&
              Long(m3, sp + 8) == Long(m2, sp + 8)
    {
      LongKept(m2, m3, from, to, sp);
      LongKept(m2, m3, from, to, sp + 4);
      LongKept(m2, m3, from, to, sp + 8);
    }

    lemma EnvFound(m: seq<Byte>, envp: nat, p: nat, args: seq<seq<Byte>>, env: seq<seq<Byte>>)
      requires AllStrings(args + env) && p + |Join(args + env)| <= |m| && envp + 4 * (|env| + 1) <= p
      requires m[p..p + |Join(args + env)|] == Join(args + env)
      requires Entries(m, envp, |env|, p, args + env, |args|) && Long(m, envp + 4 * |env|) == 0
      ensures Table(m, envp, env)
    {
      assert (args + env)[|args|..|args| + |env|] == env;
      TableFound(m, envp, p, args + env, |args|, env);
    }

    lemma ArgsFound(m2: seq<Byte>, m3: seq<Byte>, argv: nat, envp: nat, end: nat, p: nat, args: seq<seq<Byte>>,
        env: seq<seq<Byte>>)
      requires AllStrings(args + env) && p + |Join(args + env)| <= |m2| && envp == argv + 4 * (|args| + 1) &&
               envp <= end <= p
      requires SameOutside(m2, m3, envp, end) && m3[p..p + |Join(args + env)|] == Join(args + env)
      requires Entries(m2, argv, |args|, p, args + env, 0) && Long(m2, argv + 4 * |args|) == 0
      ensures Table(m3, argv, args)
    {
      EntriesKept(m2, m3, envp, end, argv, |args|, p, args + env, 0);
      LongKept(m2, m3, envp, end, argv + 4 * |args|);
      assert (args + env)[0..0 + |args|] == args;
      TableFound(m3, argv, p, args + env, 0, args);
    }

    method PutThree(sp: nat, argc: nat, argv: nat, envp: nat)
      requires sp + 12 <= mem.Length && argc < 0x1_0000_0000 && argv < 0x1_0000_0000 && envp < 0x1_0000_0000
      modifies mem
      ensures SameOutside(old(mem[..]), mem[..], sp, sp + 12)
      ensures Long(mem[..], sp) == argc && Long(mem[..], sp + 4) == argv && Long(mem[..], sp + 8) == envp
    {
      ghost var m0 := mem[..];
      PutFsLong(envp, sp + 8);
      ghost var m1 := mem[..];
      PutOutside(m0, sp + 8, envp);
      PutFsLong(argv, sp + 4);
      ghost var m2 := mem[..];
      PutOutside(m1, sp + 4, argv);
      LongKept(m1, m2, sp + 4, sp + 8, sp + 8);
      PutFsLong(argc, sp);
      PutOutside(m2, sp, argc);
      LongKept(m2, mem[..], sp, sp + 4, sp + 8);
      LongKept(m2, mem[..], sp, sp + 4, sp + 4);
    }

    lemma BothStrings(args: seq<seq<Byte>>, env: seq<seq<Byte>>)
      requires AllStrings(args) && AllStrings(env)
      ensures AllStrings(args + env)
    {
      var ss := args + env;
      forall i | 0 <= i < |ss| ensures IsString(ss[i]) {
        if i < |args| { assert ss[i] == args[i]; } else { assert ss[i] == env[i - |args|]; }
      }
    }

    /** put_page, by which the page's bytes are seen at `at`. */
    method MapPage(bytes: seq<Byte>, at: nat)
      requires |bytes| == PAGE && at + PAGE <= mem.Length
      modifies mem
      ensures mem[..] == old(mem[..])[..at] + bytes + old(mem[..])[at + PAGE..]
    {
      forall k | 0 <= k < PAGE {
        mem[at + k] := bytes[k];
      }
    }

    /** The loop of change_ldt: the pages of the block at the top of an address space still empty. */
    method MapPages(page: seq<Slot>)
      requires PagesOk(page) && SPACE <= mem.Length
      requires forall a :: mem.Length - SPACE <= a < mem.Length ==> mem[a] == 0
      modifies mem
      ensures mem[..][mem.Length - SPACE..] == Flat(page)
    {
      ghost var low := mem.Length - SPACE;
      var at := mem.Length;
      var i := PAGES;
      while i > 0
        invariant 0 <= i <= PAGES && at == low + PAGE * i
        invariant Mapped(mem[..], low, page, i)
      {
        i := i - 1;
        at := at - PAGE;
        ghost var was := mem[..];
        if page[i].Page? {
          MapPage(page[i].bytes, at);
        }
        MappedMore(was, mem[..], low, page, i);
      }
      forall a | 0 <= a < SPACE ensures mem[..][low..][a] == Flat(page)[a] {
        assert mem[..][low..][a] == mem[..][low + a];
      }
    }

    /** The pages from i on are in place, and below them there is nothing yet. */
    ghost predicate Mapped(m: seq<Byte>, low: nat, page: seq<Slot>, i: nat)
      requires PagesOk(page) && |m| == low + SPACE
    {
      forall x :: low <= x < low + SPACE ==> m[x] == if x - low < PAGE * i then 0 else FlatAt(page, x - low)
    }

    lemma MappedMore(m: seq<Byte>, r: seq<Byte>, low: nat, page: seq<Slot>, i: nat)
      requires PagesOk(page) && |m| == low + SPACE && i < PAGES && Mapped(m, low, page, i + 1)
      requires if page[i].Page? then r == m[..low + PAGE * i] + page[i].bytes + m[low + PAGE * i + PAGE..] else r == m
      ensures |r| == |m| && Mapped(r, low, page, i)
    {
      forall x | low <= x < low + SPACE ensures r[x] == if x - low < PAGE * i then 0 else FlatAt(page, x - low) {
        var a := x - low;
        if PAGE * i <= a < PAGE * i + PAGE { assert a / PAGE == i && a % PAGE == a - PAGE * i; }
      }
    }
  }

  const DATA_LIMIT := 0x4000000

  /** The environment and then the arguments; the block ends 4 bytes below the end of its space. */
  method CopyBoth(block: ArgBlock, argv: seq<seq<Byte>>, envp: seq<seq<Byte>>) returns (p: nat)
    requires block.Valid() && AllStrings(argv) && AllStrings(envp) && |Join(argv)| + |Join(envp)| <= SPACE - 4
    modifies block`left, block.page
    ensures block.Valid()
    ensures p == 0 <==> var n := |Join(argv)| + |Join(envp)|;
                        n == SPACE - 4 || Need(old(block.page[..]), SPACE - 4 - n, SPACE - 4) > old(block.left)
    ensures p > 0 ==> p + |Join(argv + envp)| == SPACE - 4
                      && Flat(block.page[..])[p..SPACE - 4] == Join(argv + envp)
  {
    ghost var g0 := block.page[..];
    var p1 := block.CopyStrings(envp, SPACE - 4);
    ghost var g1 := block.page[..];
    NeedBoth(g0, g1, SPACE - 4 - |Join(envp)| - |Join(argv)|, SPACE - 4 - |Join(envp)|, SPACE - 4);
    p := block.CopyStrings(argv, p1);
    if p > 0 { BlockBuilt(g0, g1, block.page[..], argv, envp, p, p1); }
  }

  lemma NeedBoth(g0: seq<Slot>, g1: seq<Slot>, p: nat, p1: nat, end: nat)
    requires p <= p1 <= end <= SPACE && |g0| == PAGES
    ensures Need(g0, p1, end) <= Need(g0, p, end)
    ensures Grown(g0, g1, p1, end) ==> Need(g0, p, end) == Need(g0, p1, end) + Need(g1, p, p1)
  {
    NeedMore(g0, p, p1, end);
    if Grown(g0, g1, p1, end) { NeedSplit(g0, g1, p, p1, end); }
  }

  /** What do_execve does with the argument lists; 0 exactly when they fill all of the space or more
      pages are missing than can be got. */
  method Execve(block: ArgBlock, user: UserMemory, argv: seq<seq<Byte>>, envp: seq<seq<Byte>>) returns (sp: nat)
    requires block.Valid()
    requires user.mem.Length == DATA_LIMIT && forall a :: 0 <= a < DATA_LIMIT ==> user.mem[a] == 0
    requires AllStrings(argv) && AllStrings(envp) && |Join(argv)| + |Join(envp)| <= SPACE - 4
    modifies block`left, block.page, user.mem
    ensures sp == 0 <==> var n := |Join(argv)| + |Join(envp)|;
                         n == SPACE - 4 || Need(old(block.page[..]), SPACE - 4 - n, SPACE - 4) > old(block.left)
    ensures sp != 0 ==> sp % 4 == 0 && StartsWith(user.mem[..], sp, argv, envp)
  {
    var p := CopyBoth(block, argv, envp);
    if p == 0 {
      return 0;
    }
    ghost var flat := Flat(block.page[..]);
    user.MapPages(block.page[..]);
    BlockMoved(user.mem[..], flat, p, |Join(argv + envp)|);
    OffsetsGrow(argv, |argv|);
    OffsetsGrow(envp, |envp|);
    sp := user.CreateTables(p + DATA_LIMIT - SPACE, |argv|, |envp|, argv, envp);
  }

  /** The arguments lie right below the environment. */
  lemma BlockBuilt(g0: seq<Slot>, g1: seq<Slot>, g2: seq<Slot>, argv: seq<seq<Byte>>, envp: seq<seq<Byte>>, p: nat,
      p1: nat)
    requires PagesOk(g0) && Copied(g0, g1, Join(envp), p1, SPACE - 4) && Copied(g1, g2, Join(argv), p, p1)
    ensures p + |Join(argv + envp)| == SPACE - 4 && Flat(g2)[p..SPACE - 4] == Join(argv + envp)
  {
    JoinSplit(argv, envp);
    CopiedOn(g0, g1, g2, Join(argv), Join(envp), p, p1, SPACE - 4);
    OverSlice(Flat(g0), p, Join(argv + envp), SPACE - 4);
  }

  lemma BlockMoved(m: seq<Byte>, flat: seq<Byte>, p: nat, n: nat)
    requires |m| == DATA_LIMIT && |flat| == SPACE && m[DATA_LIMIT - SPACE..] == flat && p + n <= SPACE
    ensures var q := p + DATA_LIMIT - SPACE; m[q..q + n] == flat[p..p + n]
  {
    assert m[DATA_LIMIT - SPACE..] == m[DATA_LIMIT - SPACE..DATA_LIMIT - SPACE + SPACE];
    SliceOfSlice(m, DATA_LIMIT - SPACE, SPACE, p, p + n);
  }
}
