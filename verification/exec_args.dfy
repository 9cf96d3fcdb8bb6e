/** The argument block of execve (fs/exec.c) as values: strings laid end to end, each with its zero,
    pages that are only there when something was put in them, and words in user memory. */
module ExecArgs {
  import opened Collections

  type Byte = b: nat | b < 256

  const PAGE := 4096
  const PAGES := 32
  const SPACE := PAGE * PAGES

  // ----- strings end to end -----

  predicate IsString(s: seq<Byte>) { forall i :: 0 <= i < |s| ==> s[i] != 0 }

  predicate AllStrings(ss: seq<seq<Byte>>) { forall i :: 0 <= i < |ss| ==> IsString(ss[i]) }

  function Join(ss: seq<seq<Byte>>): seq<Byte> {
    if ss == [] then [] else ss[0] + [0] + Join(ss[1..])
  }

  /** Where string i begins in the block. */
  function Offset(ss: seq<seq<Byte>>, i: nat): nat
    requires i <= |ss|
  {
    if i == 0 then 0 else |ss[0]| + 1 + Offset(ss[1..], i - 1)
  }

  lemma {:induction false} JoinAt(ss: seq<seq<Byte>>, i: nat)
    requires i < |ss|
    ensures Offset(ss, i) + |ss[i]| + 1 == Offset(ss, i + 1) <= |Join(ss)|
    ensures Join(ss)[Offset(ss, i)..Offset(ss, i + 1)] == ss[i] + [0]
  {
    if i == 0 {
      assert Offset(ss, 1) == |ss[0]| + 1 + Offset(ss[1..], 0);
      assert Join(ss)[0..|ss[0]| + 1] == ss[0] + [0];
    } else {
      JoinAt(ss[1..], i - 1);
      var n := |ss[0]| + 1;
      var a, b := Offset(ss[1..], i - 1), Offset(ss[1..], i);
      assert Join(ss)[n + a..n + b] == Join(ss[1..])[a..b]
          by { assert (ss[0] + [0] + Join(ss[1..]))[n..] == Join(ss[1..]); }
      assert ss[1..][i - 1] == ss[i];
    }
  }

  lemma {:induction false} JoinSplit(a: seq<seq<Byte>>, b: seq<seq<Byte>>)
    ensures Join(a + b) == Join(a) + Join(b)
  {
    if a == [] {
      assert a + b == b;
    } else {
      JoinSplit(a[1..], b);
      assert (a + b)[1..] == a[1..] + b;
    }
  }

  lemma JoinFrom(ss: seq<seq<Byte>>, i: nat)
    requires i < |ss|
    ensures Join(ss[i..]) == ss[i] + [0] + Join(ss[i + 1..])
  {
    assert ss[i..][1..] == ss[i + 1..];
  }

  /** m with the bytes b put at p. */
  function Over(m: seq<Byte>, p: nat, b: seq<Byte>): (r: seq<Byte>)
    requires p + |b| <= |m|
    ensures |r| == |m|
  {
    seq(|m|, i requires 0 <= i < |m| => if p <= i < p + |b| then b[i - p] else m[i])
  }

  lemma OverNothing(m: seq<Byte>, p: nat)
    requires p <= |m|
    ensures Over(m, p, []) == m
  {
  }

  lemma OverTwice(m: seq<Byte>, p: nat, a: seq<Byte>, b: seq<Byte>)
    requires p + |a| + |b| <= |m|
    ensures Over(Over(m, p + |a|, b), p, a) == Over(m, p, a + b)
  {
  }

  lemma OverSlice(m: seq<Byte>, p: nat, b: seq<Byte>, end: nat)
    requires p + |b| <= end <= |m|
    ensures Over(m, p, b)[p..end] == b + m[p + |b|..end]
  {
  }

  // ----- the pages -----

  datatype Slot = NoPage | Page(bytes: seq<Byte>)

  predicate PagesOk(pages: seq<Slot>) {
    |pages| == PAGES && forall k :: 0 <= k < PAGES && pages[k].Page? ==> |pages[k].bytes| == PAGE
  }

  /** The byte at an address of the block; a page that is not there counts as zeros, which is what
      get_free_page would give. */
  function FlatAt(pages: seq<Slot>, a: nat): Byte
    requires PagesOk(pages) && a < SPACE
  {
    if pages[a / PAGE].Page? then pages[a / PAGE].bytes[a % PAGE] else 0
  }

  function Flat(pages: seq<Slot>): (r: seq<Byte>)
    requires PagesOk(pages)
    ensures |r| == SPACE && forall a :: 0 <= a < SPACE ==> r[a] == FlatAt(pages, a)
  {
    seq(SPACE, a requires 0 <= a < SPACE => FlatAt(pages, a))
  }

  function ZeroPage(): seq<Byte> { seq(PAGE, _ => 0) }

  function WithPage(pages: seq<Slot>, k: nat): (r: seq<Slot>)
    requires PagesOk(pages) && k < PAGES
    ensures PagesOk(r)
  {
    if pages[k].Page? then pages else pages[k := Page(ZeroPage())]
  }

  lemma WithPageFlat(pages: seq<Slot>, k: nat)
    requires PagesOk(pages) && k < PAGES
    ensures Flat(WithPage(pages, k)) == Flat(pages)
  {
  }

  function Stored(pages: seq<Slot>, k: nat, off: nat, b: Byte): (r: seq<Slot>)
    requires PagesOk(pages) && k < PAGES && pages[k].Page? && off < PAGE
    ensures PagesOk(r)
  {
    pages[k := Page(pages[k].bytes[off := b])]
  }

  lemma StoredFlat(pages: seq<Slot>, k: nat, off: nat, b: Byte)
    requires PagesOk(pages) && k < PAGES && pages[k].Page? && off < PAGE
    ensures k * PAGE + off < SPACE && Flat(Stored(pages, k, off, b)) == Flat(pages)[k * PAGE + off := b]
  {
    forall a | 0 <= a < SPACE ensures FlatAt(Stored(pages, k, off, b), a)
      == if a == k * PAGE + off then b else FlatAt(pages, a) {
      if a / PAGE == k && a % PAGE == off { assert a == k * PAGE + off; }
    }
  }

  /** Every page that holds a byte from `from` to `to` is there. */
  predicate Present(pages: seq<Slot>, from: nat, to: nat)
    requires |pages| == PAGES && to <= SPACE
  {
    forall a :: from <= a < to ==> pages[a / PAGE].Page?
  }

  /** How many pages have to be got to fill the bytes from p to p0, top down. */
  function Need(pages: seq<Slot>, p: nat, p0: nat): nat
    requires |pages| == PAGES && p0 <= SPACE
    decreases p0 - p
  {
    if p >= p0 then 0
    else if pages[p / PAGE].NoPage? && (p + 1 == p0 || (p + 1) / PAGE != p / PAGE) then Need(pages, p + 1, p0) + 1
    else Need(pages, p + 1, p0)
  }

  predicate Touched(k: nat, p: nat, p0: nat) { p < p0 && p / PAGE <= k <= (p0 - 1) / PAGE }

  /** Exactly the pages of the bytes from p to p0 have been added. */
  predicate Grown(was: seq<Slot>, now: seq<Slot>, p: nat, p0: nat) {
    && |was| == PAGES && |now| == PAGES
    && forall k :: 0 <= k < PAGES ==> (now[k].Page? <==> was[k].Page? || Touched(k, p, p0))
  }

  lemma GrownTwice(was: seq<Slot>, mid: seq<Slot>, now: seq<Slot>, p: nat, p1: nat, p0: nat)
    requires p <= p1 <= p0 && Grown(was, mid, p1, p0) && Grown(mid, now, p, p1)
    ensures Grown(was, now, p, p0)
  {
  }

  lemma {:induction false} NeedSplit(was: seq<Slot>, mid: seq<Slot>, p: nat, p1: nat, p0: nat)
    requires p <= p1 <= p0 <= SPACE && Grown(was, mid, p1, p0)
    ensures Need(was, p, p0) == Need(was, p1, p0) + Need(mid, p, p1)
    decreases p1 - p
  {
    if p < p1 { NeedSplit(was, mid, p + 1, p1, p0); }
  }

  lemma {:induction false} NeedMore(pages: seq<Slot>, p: nat, q: nat, p0: nat)
    requires p <= q <= p0 <= SPACE && |pages| == PAGES
    ensures Need(pages, q, p0) <= Need(pages, p, p0)
    decreases q - p
  {
    if p < q { NeedMore(pages, p + 1, q, p0); }
  }

  // ----- words in user memory -----

  function Long(m: seq<Byte>, a: nat): nat
    requires a + 4 <= |m|
  {
    var b0: nat, b1: nat, b2: nat, b3: nat := m[a], m[a + 1], m[a + 2], m[a + 3];
    b0 + 256 * b1 + 65536 * b2 + 16777216 * b3
  }

  function PutLong(m: seq<Byte>, a: nat, v: nat): (r: seq<Byte>)
    requires a + 4 <= |m| && v < 0x1_0000_0000
    ensures |r| == |m|
  {
    m[a := v % 256][a + 1 := v / 256 % 256][a + 2 := v / 65536 % 256][a + 3 := v / 16777216]
  }

  lemma LongPut(m: seq<Byte>, a: nat, v: nat)
    requires a + 4 <= |m| && v < 0x1_0000_0000
    ensures Long(PutLong(m, a, v), a) == v
    ensures forall b: nat :: b + 4 <= |m| && (b + 4 <= a || a + 4 <= b) ==> Long(PutLong(m, a, v), b) == Long(m, b)
    ensures forall x: nat :: x < |m| && (x < a || a + 4 <= x) ==> PutLong(m, a, v)[x] == m[x]
  {
    assert v == v % 256 + 256 * (v / 256);
    assert v / 256 == v / 256 % 256 + 256 * (v / 65536);
    assert v / 65536 == v / 65536 % 256 + 256 * (v / 16777216);
  }

  /** The string at an address: up to the first zero. */
  function StringAt(m: seq<Byte>, a: nat): seq<Byte>
    decreases |m| - a
  {
    if a >= |m| || m[a] == 0 then [] else [m[a]] + StringAt(m, a + 1)
  }

  lemma {:induction false} ReadString(m: seq<Byte>, a: nat, s: seq<Byte>)
    requires IsString(s) && a + |s| + 1 <= |m| && m[a..a + |s| + 1] == s + [0]
    ensures StringAt(m, a) == s
    decreases |s|
  {
    assert m[a] == m[a..a + |s| + 1][0];
    if s != [] {
      assert m[a + 1..a + 1 + |s|] == m[a..a + |s| + 1][1..] == s[1..] + [0];
      ReadString(m, a + 1, s[1..]);
    }
  }

  // ----- the tables -----

  /** Entry i of the table at `at` is the address of string first + i of ss, in a block that begins
      at p. */
  predicate EntryOk(m: seq<Byte>, at: nat, i: nat, p: nat, ss: seq<seq<Byte>>, first: nat)
    requires first + i < |ss| && at + 4 * i + 4 <= |m|
  {
    Long(m, at + 4 * i) == p + Offset(ss, first + i)
  }

  predicate Entries(m: seq<Byte>, at: nat, n: nat, p: nat, ss: seq<seq<Byte>>, first: nat)
    requires first + n <= |ss| && at + 4 * n <= |m|
  {
    forall i :: 0 <= i < n ==> EntryOk(m, at, i, p, ss, first)
  }

  /** Entry i of the table at `at` leads to string i of ss. */
  predicate Leads(m: seq<Byte>, at: nat, ss: seq<seq<Byte>>, i: nat)
    requires i < |ss| && at + 4 * i + 4 <= |m|
  {
    StringAt(m, Long(m, at + 4 * i)) == ss[i]
  }

  /** A table at `at` that leads to the strings ss, ended by a null pointer. */
  predicate Table(m: seq<Byte>, at: nat, ss: seq<seq<Byte>>)
    requires at + 4 * |ss| + 4 <= |m|
  {
    (forall i :: 0 <= i < |ss| ==> Leads(m, at, ss, i)) && Long(m, at + 4 * |ss|) == 0
  }

  /** What a program finds at its stack pointer: the number of arguments, the two tables, each
      ended by a null pointer, and in them the strings it was given. */
  predicate StartsWith(m: seq<Byte>, sp: nat, args: seq<seq<Byte>>, env: seq<seq<Byte>>) {
    && sp + 4 * (|args| + |env| + 5) <= |m|
    && Long(m, sp) == |args|
    && var argv, envp := Long(m, sp + 4), Long(m, sp + 8);
    && argv == sp + 12 && envp == argv + 4 * (|args| + 1)
    && Table(m, argv, args) && Table(m, envp, env)
  }

  lemma SliceOfSlice(m: seq<Byte>, p: nat, n: nat, a: nat, b: nat)
    requires a <= b <= n && p + n <= |m|
    ensures m[p + a..p + b] == m[p..p + n][a..b]
  {
    var x, y := m[p + a..p + b], m[p..p + n][a..b];
    assert |x| == |y|;
    forall i | 0 <= i < b - a ensures x[i] == y[i] { assert x[i] == m[p + a + i]; }
  }

  lemma StringBytes(m: seq<Byte>, p: nat, ss: seq<seq<Byte>>, i: nat)
    requires AllStrings(ss) && i < |ss| && p + |Join(ss)| <= |m| && m[p..p + |Join(ss)|] == Join(ss)
    ensures p + Offset(ss, i) + |ss[i]| < p + |Join(ss)|
    ensures forall k :: p + Offset(ss, i) <= k < p + Offset(ss, i) + |ss[i]| ==> m[k] != 0
    ensures m[p + Offset(ss, i) + |ss[i]|] == 0
  {
    JoinAt(ss, i);
    var a, b, s := Offset(ss, i), Offset(ss, i + 1), ss[i];
    SliceOfSlice(m, p, |Join(ss)|, a, b);
    forall k | p + a <= k < p + b ensures m[k] == (s + [0])[k - p - a] { assert m[p + a..p + b][k - p - a] == m[k]; }
  }

  lemma StringInBlock(m: seq<Byte>, p: nat, ss: seq<seq<Byte>>, i: nat)
    requires AllStrings(ss) && i < |ss| && p + |Join(ss)| <= |m| && m[p..p + |Join(ss)|] == Join(ss)
    ensures StringAt(m, p + Offset(ss, i)) == ss[i]
  {
    JoinAt(ss, i);
    var a, b := Offset(ss, i), Offset(ss, i + 1);
    SliceOfSlice(m, p, |Join(ss)|, a, b);
    ReadString(m, p + a, ss[i]);
  }

  /** A table of addresses into an intact block is a table of its strings. */
  lemma TableFound(m: seq<Byte>, at: nat, p: nat, all: seq<seq<Byte>>, first: nat, ss: seq<seq<Byte>>)
    requires AllStrings(all) && p + |Join(all)| <= |m| && m[p..p + |Join(all)|] == Join(all)
    requires first + |ss| <= |all| && all[first..first + |ss|] == ss && at + 4 * |ss| + 4 <= |m|
    requires Entries(m, at, |ss|, p, all, first) && Long(m, at + 4 * |ss|) == 0
    ensures Table(m, at, ss)
  {
    forall i | 0 <= i < |ss| ensures Leads(m, at, ss, i) {
      assert EntryOk(m, at, i, p, all, first);
      StringInBlock(m, p, all, first + i);
      assert all[first..first + |ss|][i] == all[first + i];
    }
  }

  lemma LongKept(m: seq<Byte>, r: seq<Byte>, from: nat, to: nat, a: nat)
    requires SameOutside(m, r, from, to) && a + 4 <= |m| && (a + 4 <= from || to <= a)
    ensures Long(r, a) == Long(m, a)
  {
  }

  lemma EntriesKept(m: seq<Byte>, r: seq<Byte>, from: nat, to: nat, at: nat, n: nat, p: nat, ss: seq<seq<Byte>>,
      first: nat)
    requires SameOutside(m, r, from, to) && first + n <= |ss| && at + 4 * n <= |m| && (at + 4 * n <= from || to <= at)
    requires Entries(m, at, n, p, ss, first)
    ensures Entries(r, at, n, p, ss, first)
  {
    forall i | 0 <= i < n ensures EntryOk(r, at, i, p, ss, first) {
      assert EntryOk(m, at, i, p, ss, first);
      LongKept(m, r, from, to, at + 4 * i);
    }
  }

  lemma BlockKept(m: seq<Byte>, r: seq<Byte>, from: nat, to: nat, p: nat, n: nat)
    requires SameOutside(m, r, from, to) && to <= p && p + n <= |m|
    ensures r[p..p + n] == m[p..p + n]
  {
  }

  lemma {:induction false} OffsetsGrow(ss: seq<seq<Byte>>, i: nat)
    requires i <= |ss|
    ensures i <= Offset(ss, i) <= |Join(ss)|
  {
    if i > 0 { OffsetsGrow(ss[1..], i - 1); }
  }
}
