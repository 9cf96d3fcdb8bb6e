/** kernel/chr_drv/console.c in its own form, over video memory with a moving origin. Addresses are
    counted in cells (two bytes) from video_mem_start. Every method is proved to do to the visible
    window what Terminal says, so the card's fast scroll cannot be told from copying rows. */
module ConsoleDriver {
  import opened Terminal
  import opened Collections

  class Console {
    const cols: nat
    const lines: nat
    /** An EGA or VGA card, which can scroll by moving the origin. */
    const ega: bool
    const mem: array<Cell>
    const par: array<nat>
    var x: nat
    var y: nat
    var pos: nat
    var origin: nat
    var scrEnd: nat
    var top: nat
    var bottom: nat
    var state: nat
    var npar: nat
    var ques: bool
    var attr: nat
    var savedX: nat
    var savedY: nat
    /** Where the window has begun so far, the present origin last. */
    ghost var path: seq<nat>

    ghost function ModeNow(): Mode
      reads this, par
    {
      if state == 0 then Normal else if state == 1 then Escape else if state == 2 then Bracket
          else Params(par[..], npar)
    }

    /** What the user sees, and what the next byte will be taken for. */
    ghost function S(): Screen
      requires origin <= scrEnd <= mem.Length
      reads this, mem, par
    {
      Screen(cols, lines, mem[origin..scrEnd], x, y, top, bottom, attr, savedX, savedY, ModeNow())
    }

    ghost predicate Valid()
      reads this, mem, par
    {
      && mem as object != par as object && par.Length == NPAR
      && origin <= scrEnd <= mem.Length && Ok(S())
      && pos == origin + Start(cols, y) + x
      && state <= 3 && PathOk() && (!ega ==> path == [0])
    }

    /** The window only ever moves on by a row, or back to the start when it cannot. */
    ghost predicate PathOk()
      reads this
    {
      && path != [] && path[|path| - 1] == origin
      && forall k, j :: 0 <= k && j == k + 1 && j < |path| ==>
          path[j] == Moved(path[k], cols, Start(cols, lines), mem.Length)
    }

    /** Since memory was `was` and the window had come along `before`, only cells have changed that
        lay in the window then or at some time since. */
    ghost predicate Drew(was: seq<Cell>, before: seq<nat>)
      reads this, mem
    {
      before != [] && before <= path && Kept(was, mem[..], path, |before| - 1, Start(cols, lines))
    }

    /** How many steps the window takes for n scrolls of the whole screen. */
    ghost function Steps(n: nat): nat { if ega then n else 0 }

    lemma Drawn(was: seq<Cell>, before: seq<nat>)
      requires Valid() && before != [] && before <= path && OnlyWindow(was)
      ensures Drew(was, before)
    {
      forall i | 0 <= i < |was| && Unseen(i, path, |before| - 1, Start(cols, lines)) ensures mem[..][i] == was[i] {
        assert !InWindow(i, path[|path| - 1], Start(cols, lines));
      }
    }

    lemma DrawnOn(was: seq<Cell>, before: seq<nat>, mid: seq<Cell>, between: seq<nat>)
      requires before != [] && before <= between && Kept(was, mid, between, |before| - 1, Start(cols, lines))
      requires Drew(mid, between)
      ensures Drew(was, before)
    {
      KeptOn(was, mid, mem[..], between, path, |before| - 1, Start(cols, lines));
    }

    /** On a card that does not move its origin nothing outside the screen ever changes. */
    lemma DrewWindow(was: seq<Cell>, before: seq<nat>)
      requires Valid() && Drew(was, before) && path == [0]
      ensures OnlyWindow(was)
    {
      forall i | 0 <= i < mem.Length && !(origin <= i < scrEnd) ensures mem[i] == was[i] {
        assert Unseen(i, path, |before| - 1, Start(cols, lines));
        assert mem[..][i] == was[i];
      }
    }

    /** Memory that is not shown has not changed. */
    ghost predicate OnlyWindow(was: seq<Cell>)
      reads this, mem
    {
      |was| == mem.Length && forall i :: 0 <= i < mem.Length && !(origin <= i < scrEnd) ==> mem[i] == was[i]
    }

    constructor (columns: nat, rows: nat, ega: bool, mem: array<Cell>, x: nat, y: nat)
      requires 8 <= columns < 65536 && columns % 2 == 0 && 1 <= rows < 65536 && rows * columns <= mem.Length
      requires x <= columns && y < rows
      ensures Valid() && this.mem == mem && this.ega == ega
      ensures origin == 0 && path == [0] && scrEnd == rows * columns
      ensures S() == Screen(columns, rows, mem[..scrEnd], x, y, 0, rows, 7, 0, 0, Normal)
    {
      cols, lines, this.ega, this.mem := columns, rows, ega, mem;
      par := new nat[NPAR](_ => 0);
      origin, scrEnd := 0, rows * columns;
      top, bottom := 0, rows;
      this.x, this.y, pos := x, y, y * columns + x;
      state, npar, ques, attr, savedX, savedY := 0, 0, false, 7, 0, 0;
      path := [0];
      StartIs(columns, rows);
      StartIs(columns, y);
      new;
      assert mem[0..rows * columns] == mem[..rows * columns];
      FreshOk(columns, rows, mem[..rows * columns], x, y);
    }

    /** The common part of every method that only moves the cursor. */
    method GotoXY(newX: nat, newY: nat)
      requires Valid()
      modifies this
      ensures Valid() && S() == Terminal.GotoXY(old(S()), newX, newY)
      ensures origin == old(origin) && scrEnd == old(scrEnd) && state == old(state) && path == old(path)
    {
      if newX > cols || newY >= lines {
        return;
      }
      x := newX;
      y := newY;
      StartIs(cols, y);
      pos := origin + y * cols + x;
    }

    // ----- block moves -----

    /** rep movsl, upwards: n pairs of cells. */
    method Movsl(dst: nat, src: nat, n: nat)
      requires dst <= src && src + 2 * n <= mem.Length
      modifies mem
      ensures mem[..] == Copied(old(mem[..]), dst, src, 2 * n)
    {
      ghost var was := mem[..];
      var k := 0;
      while k < n
        invariant k <= n
        invariant mem[..] == Copied(was, dst, src, 2 * k)
      {
        CopiedPair(was, dst, src, 2 * k);
        mem[dst + 2 * k], mem[dst + 2 * k + 1] := mem[src + 2 * k], mem[src + 2 * k + 1];
        k := k + 1;
      }
    }

    /** rep movsl with the direction flag set: n pairs, downwards from the pairs at dst and src. */
    method MovslDown(dst: int, src: int, n: nat)
      requires src <= dst && dst + 2 <= mem.Length && 0 <= src + 2 - 2 * n
      modifies mem
      ensures mem[..] == Copied(old(mem[..]), dst + 2 - 2 * n, src + 2 - 2 * n, 2 * n)
    {
      ghost var was := mem[..];
      var k := 0;
      while k < n
        invariant k <= n
        invariant mem[..] == Copied(was, dst + 2 - 2 * k, src + 2 - 2 * k, 2 * k)
      {
        CopiedPairDown(was, dst + 2 - 2 * k, src + 2 - 2 * k, 2 * k);
        mem[dst - 2 * k], mem[dst - 2 * k + 1] := mem[src - 2 * k], mem[src - 2 * k + 1];
        k := k + 1;
      }
    }

    /** rep stosw of the erase character. */
    method Stosw(dst: nat, n: nat)
      requires dst + n <= mem.Length
      modifies mem
      ensures mem[..] == Blank(old(mem[..]), dst, dst + n)
    {
      ghost var was := mem[..];
      var k := 0;
      while k < n
        invariant k <= n
        invariant mem[..] == Blank(was, dst, dst + k)
      {
        mem[dst + k] := ERASE;
        k := k + 1;
      }
    }

    /** The same downwards; dst is the last cell. */
    method StoswDown(dst: int, n: nat)
      requires 0 <= dst + 1 - n && dst < mem.Length
      modifies mem
      ensures mem[..] == Blank(old(mem[..]), dst + 1 - n, dst + 1)
    {
      ghost var was := mem[..];
      var k := 0;
      while k < n
        invariant k <= n
        invariant mem[..] == Blank(was, dst + 1 - k, dst + 1)
      {
        mem[dst - k] := ERASE;
        k := k + 1;
      }
    }

    // ----- scrolling -----

    /** The two block operations of an upward copy of n cells from `from` to `at`. */
    method ShiftUp(at: nat, from: nat, n: nat)
      requires at <= from && from + n <= mem.Length && at + n + cols <= mem.Length
      modifies mem
      ensures mem[..] == PairwiseMove(old(mem[..]), at, from, n, cols)
    {
      Movsl(at, from, n / 2);
      Stosw(at + n / 2 * 2, cols);
    }

    method ShiftDown(dst: int, n: nat)
      requires 0 <= dst + 2 - 2 * n - cols && dst + 2 <= mem.Length
      modifies mem
      ensures mem[..] == Blank(Copied(old(mem[..]), dst + 2 - 2 * n, dst + 2 - 2 * n - cols, 2 * n),
              dst + 2 - 2 * n - cols, dst + 2 - 2 * n)
    {
      MovslDown(dst, dst - cols, n);
      StoswDown(dst - 2 * n + 1, cols);
    }

    /** The window now shows `cells`, and nothing else about the screen has changed. */
    twostate lemma Shows(cells: seq<Cell>)
      requires old(Valid())
      requires par[..] == old(par[..]) && origin <= scrEnd <= mem.Length && mem[origin..scrEnd] == cells &&
               |cells| == |old(S()).cells|
      requires x == old(x) && y == old(y) && top == old(top) && bottom == old(bottom) && attr == old(attr)
      requires savedX == old(savedX) && savedY == old(savedY) && state == old(state) && npar == old(npar)
      requires pos - origin == old(pos) - old(origin) && PathOk() && (!ega ==> path == [0])
      ensures Valid() && S() == old(S()).(cells := cells)
    {
    }

    /** Rows top + 1 to bottom - 1 copied one up, and row bottom - 1 blanked. */
    method CopyUp()
      requires Valid()
      modifies mem
      ensures Valid() && S() == Up(old(S())) && OnlyWindow(old(mem[..]))
    {
      RegionFits();
      CopyUpAt(origin + top * cols, (bottom - top - 1) * cols);
    }

    /** ShiftUp seen through the window from o to e. */
    method ShiftUpWithin(dst: nat, n: nat, ghost o: nat, ghost e: nat, ghost f: nat, ghost t: nat)
      requires o + f + cols <= o + t <= e <= mem.Length && dst == o + f && n == t - f - cols && n % 2 == 0
      modifies mem
      ensures mem[o..e] == Delete(old(mem[o..e]), f, t, cols) && SameOutside(old(mem[..]), mem[..], o, e)
    {
      ghost var was := mem[..];
      assert was[o..e] == mem[o..e];
      ShiftUp(dst, dst + cols, n);
      WindowUp(was, mem[..], o, e, f, t, cols);
      assert mem[o..e] == mem[..][o..e];
    }

    method CopyUpAt(dst: nat, n: nat)
      requires Valid() && dst == origin + Start(cols, top)
      requires n == Start(cols, bottom) - Start(cols, top) - cols && n % 2 == 0
      requires Start(cols, top) + cols <= Start(cols, bottom) <= Start(cols, lines)
      modifies mem
      ensures Valid() && S() == Up(old(S())) && OnlyWindow(old(mem[..]))
    {
      ShiftUpWithin(dst, n, origin, scrEnd, Start(cols, top), Start(cols, bottom));
      Shows(mem[origin..scrEnd]);
    }

    method CopyDown()
      requires Valid()
      modifies mem
      ensures Valid() && S() == Down(old(S())) && OnlyWindow(old(mem[..]))
    {
      RegionFits();
      CopyDownAt(origin + bottom * cols - 2, (bottom - top - 1) * cols / 2);
    }

    method ShiftDownWithin(dst: int, n: nat, ghost o: nat, ghost e: nat, ghost f: nat, ghost t: nat)
      requires o + f + cols <= o + t <= e <= mem.Length && dst == o + t - 2 && 2 * n == t - f - cols && cols >= 2
      modifies mem
      ensures mem[o..e] == Insert(old(mem[o..e]), f, t, cols) && SameOutside(old(mem[..]), mem[..], o, e)
    {
      ghost var was := mem[..];
      WindowDown(was, o, e, f, t, cols);
      ShiftDown(dst, n);
      assert mem[o..e] == mem[..][o..e];
      assert was[o..e] == old(mem[o..e]);
    }

    method CopyDownAt(dst: int, n: nat)
      requires Valid() && dst == origin + Start(cols, bottom) - 2 &&
               2 * n == Start(cols, bottom) - Start(cols, top) - cols
      requires Start(cols, top) + cols <= Start(cols, bottom) <= Start(cols, lines)
      modifies mem
      ensures Valid() && S() == Down(old(S())) && OnlyWindow(old(mem[..]))
    {
      ShiftDownWithin(dst, n, origin, scrEnd, Start(cols, top), Start(cols, bottom));
      Shows(mem[origin..scrEnd]);
    }

    lemma RegionFits()
      requires Valid()
      ensures Start(cols, top) == top * cols && Start(cols, bottom) == bottom * cols
      ensures Start(cols, top) + cols <= Start(cols, bottom) <= Start(cols, lines)
      ensures (bottom - top - 1) * cols == Start(cols, bottom) - Start(cols, top) - cols
      ensures (bottom - top - 1) * cols % 2 == 0 && (bottom - top - 1) * cols / 2 * 2 == (bottom - top - 1) * cols
    {
      RegionSize(cols, top, bottom, lines);
    }

    /** scrup. The whole screen of an EGA card scrolls by moving the origin, and goes back to the
        start of video memory when it would run over the end. */
    method ScrUp()
      requires Valid()
      modifies mem, this`origin, this`pos, this`scrEnd, this`path
      ensures Valid() && S() == Up(old(S())) && OnlyWindow(old(mem[..]))
      ensures path == if ega && top == 0 && bottom == lines then old(path) + [origin] else old(path)
    {
      if ega && top == 0 && bottom == lines {
        FastUp();
      } else {
        CopyUp();
      }
    }

    method FastUp()
      requires Valid() && ega && top == 0 && bottom == lines
      modifies mem, this`origin, this`pos, this`scrEnd, this`path
      ensures Valid() && S() == Up(old(S())) && OnlyWindow(old(mem[..]))
      ensures path == old(path) + [origin]
    {
      RegionFits();
      ghost var cells := Delete(mem[origin..scrEnd], 0, scrEnd - origin, cols);
      if scrEnd + cols > mem.Length {
        Rewind((lines - 1) * cols);
      } else {
        Advance();
      }
      path := path + [origin];
      Shows(cells);
    }

    method Advance()
      requires origin + cols <= scrEnd && scrEnd + cols <= mem.Length
      modifies mem, this`origin, this`pos, this`scrEnd
      ensures origin == old(origin) + cols && scrEnd == old(scrEnd) + cols && pos == old(pos) + cols
      ensures mem[origin..scrEnd] == Delete(old(mem[origin..scrEnd]), 0, old(scrEnd - origin), cols) &&
              OnlyWindow(old(mem[..]))
    {
      ghost var was := mem[..];
      WindowMoved(was, origin + cols, scrEnd + cols, cols);
      origin := origin + cols;
      pos := pos + cols;
      scrEnd := scrEnd + cols;
      Stosw(scrEnd - cols, cols);
      assert mem[..][origin..scrEnd] == mem[origin..scrEnd];
    }

    method Rewind(n: nat)
      requires origin <= pos && origin + cols <= scrEnd <= mem.Length
      requires n == scrEnd - origin - cols && n % 2 == 0
      modifies mem, this`origin, this`pos, this`scrEnd
      ensures origin == 0 && scrEnd == old(scrEnd - origin) && pos == old(pos - origin)
      ensures mem[origin..scrEnd] == Delete(old(mem[origin..scrEnd]), 0, old(scrEnd - origin), cols) &&
              OnlyWindow(old(mem[..]))
    {
      ghost var o, e := origin, scrEnd;
      origin := origin + cols;
      pos := pos + cols;
      scrEnd := scrEnd + cols;
      ShiftBack(origin, n, o, e);
      scrEnd := scrEnd - origin;
      pos := pos - origin;
      origin := 0;
    }

    method ShiftBack(from: nat, n: nat, ghost o: nat, ghost e: nat)
      requires from == o + cols <= e <= mem.Length && n == e - o - cols && n % 2 == 0
      modifies mem
      ensures mem[0..e - o] == Delete(old(mem[o..e]), 0, e - o, cols)
      ensures SameOutside(old(mem[..]), mem[..], 0, e - o)
    {
      ghost var was := mem[..];
      WindowBack(was, o, e, cols);
      ShiftUp(0, from, n);
      assert mem[0..e - o] == mem[..][0..e - o];
      assert was[o..e] == old(mem[o..e]);
    }

    method ScrDown()
      requires Valid()
      modifies mem
      ensures Valid() && S() == Down(old(S())) && OnlyWindow(old(mem[..]))
    {
      CopyDown();
    }

    // ----- cursor and cells -----

    method Lf()
      requires Valid()
      modifies this, mem
      ensures Valid() && S() == Terminal.Lf(old(S())) && OnlyWindow(old(mem[..]))
      ensures path == old(path) || path == old(path) + [origin]
      ensures |path| == |old(path)| + Steps(LfScrolls(old(S())))
    {
      if y + 1 < bottom {
        y := y + 1;
        pos := pos + cols;
        return;
      }
      ScrUp();
    }

    method Ri()
      requires Valid()
      modifies this, mem
      ensures Valid() && S() == Terminal.Ri(old(S())) && OnlyWindow(old(mem[..]))
      ensures path == old(path)
    {
      if y > top {
        y := y - 1;
        pos := pos - cols;
        return;
      }
      ScrDown();
    }

    method Cr()
      requires Valid()
      modifies this
      ensures Valid() && S() == old(S()).(x := 0)
      ensures path == old(path)
    {
      pos := pos - x;
      x := 0;
    }

    lemma PosInside()
      requires Valid()
      ensures origin + Start(cols, y) + cols <= scrEnd && pos <= origin + Start(cols, y) + cols
    {
      RowsFit(y, lines, cols);
    }

    /** One store at pos. */
    method Store(c: Cell)
      requires Valid() && x < cols
      modifies mem
      ensures Valid() && pos - origin == At(S()) < |old(S()).cells|
      ensures S() == old(S()).(cells := old(S()).cells[At(old(S())) := c]) && OnlyWindow(old(mem[..]))
    {
      PosInside();
      ghost var was := mem[..];
      mem[pos] := c;
      Shows(was[origin..scrEnd][pos - origin := c]);
    }

    method Del()
      requires Valid()
      modifies this, mem
      ensures Valid() && S() == Terminal.Del(old(S())) && OnlyWindow(old(mem[..]))
      ensures path == old(path)
    {
      if x > 0 {
        PosInside();
        pos := pos - 1;
        x := x - 1;
        Store(ERASE);
      }
    }

    method CsiJ(n: nat)
      requires Valid()
      modifies mem
      ensures Valid() && S() == EraseDisplay(old(S()), n) && OnlyWindow(old(mem[..]))
    {
      PosInside();
      ghost var was := mem[..];
      var start, count;
      if n == 0 {
        start, count := pos, scrEnd - pos;
      } else if n == 1 {
        start, count := origin, pos - origin;
      } else if n == 2 {
        start, count := origin, cols * lines;
        StartIs(cols, lines);
      } else {
        return;
      }
      EraseCells(start, count);
    }

    method CsiK(n: nat)
      requires Valid()
      modifies mem
      ensures Valid() && S() == EraseLine(old(S()), n) && OnlyWindow(old(mem[..]))
    {
      PosInside();
      ghost var was := mem[..];
      var start, count;
      if n == 0 {
        if x >= cols {
          return;
        }
        start, count := pos, cols - x;
      } else if n == 1 {
        start, count := pos - x, if x < cols then x else cols;
      } else if n == 2 {
        start, count := pos - x, cols;
      } else {
        return;
      }
      EraseCells(start, count);
    }

    method EraseCells(start: nat, count: nat)
      requires Valid() && origin <= start && start + count <= scrEnd
      modifies mem
      ensures Valid() && OnlyWindow(old(mem[..]))
      ensures S() == old(S()).(cells := Blank(old(S()).cells, start - origin, start + count - origin))
    {
      ghost var was := mem[..];
      Stosw(start, count);
      assert mem[origin..scrEnd] == mem[..][origin..scrEnd];
      Shows(Blank(was[origin..scrEnd], start - origin, start + count - origin));
    }

    method SetAttribute(p: nat)
      requires attr < 256
      modifies this`attr
      ensures attr == AttributeAfter(old(attr), p)
    {
      if p == 0 {
        attr := 0x07;
      } else if p == 1 {
        attr := 0x0f;
      } else if p == 4 {
        attr := 0x0f;
      } else if p == 7 {
        attr := 0x70;
      } else if p == 27 {
        attr := 0x07;
      }
    }

    method CsiAttributes()
      requires Valid() && npar < NPAR
      modifies this`attr
      ensures par.Length == NPAR
      ensures Valid() && S() == old(S()).(attr := Attributes(old(attr), par[..], 0, npar))
    {
      var i := 0;
      while i <= npar
        invariant i <= npar + 1 && attr < 256
        invariant Attributes(attr, par[..], i, npar) == Attributes(old(attr), par[..], 0, npar)
        decreases npar + 1 - i
        modifies this`attr
      {
        SetAttribute(par[i]);
        i := i + 1;
      }
    }

    // ----- insertion and deletion -----

    /** The loop of insert_char. */
    method ShiftRight(at: nat, from: nat, to: nat)
      requires from <= to && at + (to - from) <= mem.Length
      modifies mem
      ensures mem[..] == Insert(old(mem[..]), at, at + (to - from), 1)
    {
      ghost var was := mem[..];
      NothingShifted(was, at, at);
      var i, p, carry := from, at, ERASE;
      assert mem[..] == Insert(was, at, at, 1);
      while i < to
        invariant from <= i <= to && p == at + (i - from)
        invariant carry == if i == from then ERASE else was[p - 1]
        invariant mem[..] == Insert(was, at, p, 1)
      {
        InsertOneMore(was, at, p);
        var tmp := mem[p];
        mem[p] := carry;
        carry := tmp;
        p := p + 1;
        i := i + 1;
      }
    }

    method InsertCharWithin(at: nat, from: nat, to: nat, ghost o: nat, ghost e: nat)
      requires from <= to && o <= at && at + (to - from) <= e <= mem.Length
      modifies mem
      ensures mem[o..e] == Insert(old(mem[o..e]), at - o, at + (to - from) - o, 1)
      ensures SameOutside(old(mem[..]), mem[..], o, e)
    {
      ghost var was := mem[..];
      WindowInsert(was, o, e, at, at + (to - from));
      ShiftRight(at, from, to);
      assert mem[o..e] == mem[..][o..e];
      assert was[o..e] == old(mem[o..e]);
    }

    method InsertChar()
      requires Valid()
      modifies mem
      ensures Valid() && S() == InsertChars(old(S()), 1) && OnlyWindow(old(mem[..]))
    {
      PosInside();
      InsertCharWithin(pos, x, cols, origin, scrEnd);
      Shows(mem[origin..scrEnd]);
    }

    /** The loop of delete_char, and the blank it ends with. */
    method ShiftLeft(at: nat, from: nat, to: nat)
      requires from < to && at + (to - from) <= mem.Length
      modifies mem
      ensures mem[..] == Delete(old(mem[..]), at, at + (to - from), 1)
    {
      ghost var was := mem[..];
      var i, p := from + 1, at;
      assert mem[..] == Copied(was, at, at + 1, 0);
      while i < to
        invariant from < i <= to && p == at + (i - from) - 1
        invariant mem[..] == Copied(was, at, at + 1, p - at)
      {
        CopyOneMore(was, at, p);
        mem[p] := mem[p + 1];
        p := p + 1;
        i := i + 1;
      }
      LastBlank(was, at, p);
      mem[p] := ERASE;
    }

    method DeleteCharWithin(at: nat, from: nat, to: nat, ghost o: nat, ghost e: nat)
      requires from < to && o <= at && at + (to - from) <= e <= mem.Length
      modifies mem
      ensures mem[o..e] == Delete(old(mem[o..e]), at - o, at + (to - from) - o, 1)
      ensures SameOutside(old(mem[..]), mem[..], o, e)
    {
      ghost var was := mem[..];
      WindowDelete(was, o, e, at, at + (to - from));
      ShiftLeft(at, from, to);
      assert mem[o..e] == mem[..][o..e];
      assert was[o..e] == old(mem[o..e]);
    }

    method DeleteChar()
      requires Valid()
      modifies mem
      ensures Valid() && S() == DeleteChars(old(S()), 1) && OnlyWindow(old(mem[..]))
    {
      PosInside();
      if x >= cols {
        NothingDeleted(S());
        return;
      }
      DeleteCharWithin(pos, x, cols, origin, scrEnd);
      Shows(mem[origin..scrEnd]);
    }

    method InsertLine()
      requires Valid()
      modifies this, mem
      ensures Valid() && S() == InsertLines(old(S()), 1) && OnlyWindow(old(mem[..]))
      ensures path == old(path)
    {
      ghost var s := S();
      LineIsRegion(s);
      var oldTop, oldBottom := top, bottom;
      top := y;
      bottom := lines;
      assert S() == s.(top := s.y, bottom := s.lines);
      ScrDown();
      assert S() == InsertLines(s, 1).(top := s.y, bottom := s.lines);
      top := oldTop;
      bottom := oldBottom;
    }

    method DeleteLine()
      requires Valid()
      modifies this, mem
      ensures Valid() && S() == DeleteLines(old(S()), 1) && OnlyWindow(old(mem[..]))
      ensures path == old(path) || path == old(path) + [origin]
      ensures |path| == |old(path)| + Steps(if y == 0 then 1 else 0)
    {
      ghost var s := S();
      LineIsRegion(s);
      var oldTop, oldBottom := top, bottom;
      top := y;
      bottom := lines;
      assert S() == s.(top := s.y, bottom := s.lines);
      ScrUp();
      assert S() == DeleteLines(s, 1).(top := s.y, bottom := s.lines);
      top := oldTop;
      bottom := oldBottom;
    }

    method InsertCharOn(ghost was: seq<Cell>, ghost before: seq<nat>)
      requires Valid() && Drew(was, before)
      modifies mem
      ensures Valid() && S() == InsertChars(old(S()), 1) && Drew(was, before)
    {
      ghost var mid, between := mem[..], path;
      InsertChar();
      Drawn(mid, between);
      DrawnOn(was, before, mid, between);
    }

    /** The loop of the next function. */
    method InsertCharTimes(n: nat, ghost was: seq<Cell>, ghost before: seq<nat>)
      requires Valid() && Drew(was, before)
      modifies mem
      ensures Valid() && S() == Times(old(S()), Edit.InsertChar, n) && Drew(was, before)
    {
      var k := 0;
      while k < n
        invariant k <= n && Valid() && S() == Times(old(S()), Edit.InsertChar, k)
        invariant Drew(was, before)
      {
        InsertCharOn(was, before);
        k := k + 1;
      }
    }

    method CsiAt(nr: nat)
      requires Valid()
      modifies mem
      ensures Valid() && S() == AtOnce(old(S()), Edit.InsertChar, Cap(nr, cols))
      ensures Drew(old(mem[..]), old(path))
    {
      var n := if nr > cols then cols else if nr == 0 then 1 else nr;
      Drawn(mem[..], path);
      TimesIsAtOnce(S(), Edit.InsertChar, n);
      InsertCharTimes(n, mem[..], path);
    }

    method DeleteCharOn(ghost was: seq<Cell>, ghost before: seq<nat>)
      requires Valid() && Drew(was, before)
      modifies mem
      ensures Valid() && S() == DeleteChars(old(S()), 1) && Drew(was, before)
    {
      ghost var mid, between := mem[..], path;
      DeleteChar();
      Drawn(mid, between);
      DrawnOn(was, before, mid, between);
    }

    /** The loop of the next function. */
    method DeleteCharTimes(n: nat, ghost was: seq<Cell>, ghost before: seq<nat>)
      requires Valid() && Drew(was, before)
      modifies mem
      ensures Valid() && S() == Times(old(S()), Edit.DeleteChar, n) && Drew(was, before)
    {
      var k := 0;
      while k < n
        invariant k <= n && Valid() && S() == Times(old(S()), Edit.DeleteChar, k)
        invariant Drew(was, before)
      {
        DeleteCharOn(was, before);
        k := k + 1;
      }
    }

    method CsiP(nr: nat)
      requires Valid()
      modifies mem
      ensures Valid() && S() == AtOnce(old(S()), Edit.DeleteChar, Cap(nr, cols))
      ensures Drew(old(mem[..]), old(path))
    {
      var n := if nr > cols then cols else if nr == 0 then 1 else nr;
      Drawn(mem[..], path);
      TimesIsAtOnce(S(), Edit.DeleteChar, n);
      DeleteCharTimes(n, mem[..], path);
    }

    method InsertLineOn(ghost was: seq<Cell>, ghost before: seq<nat>)
      requires Valid() && Drew(was, before)
      modifies this, mem
      ensures Valid() && S() == InsertLines(old(S()), 1) && Drew(was, before)
      ensures path == old(path)
    {
      ghost var mid, between := mem[..], path;
      InsertLine();
      Drawn(mid, between);
      DrawnOn(was, before, mid, between);
    }

    /** The loop of the next function. */
    method InsertLineTimes(n: nat, ghost was: seq<Cell>, ghost before: seq<nat>)
      requires Valid() && Drew(was, before)
      modifies this, mem
      ensures Valid() && S() == Times(old(S()), Edit.InsertLine, n) && Drew(was, before)
      ensures path == old(path)
    {
      var k := 0;
      while k < n
        invariant k <= n && Valid() && S() == Times(old(S()), Edit.InsertLine, k)
        invariant Drew(was, before) && path == old(path)
      {
        InsertLineOn(was, before);
        k := k + 1;
      }
    }

    method CsiL(nr: nat)
      requires Valid()
      modifies this, mem
      ensures Valid() && S() == AtOnce(old(S()), Edit.InsertLine, Cap(nr, lines))
      ensures Drew(old(mem[..]), old(path))
      ensures path == old(path)
    {
      var n := if nr > lines then lines else if nr == 0 then 1 else nr;
      Drawn(mem[..], path);
      TimesIsAtOnce(S(), Edit.InsertLine, n);
      InsertLineTimes(n, mem[..], path);
    }

    method DeleteLineOn(ghost was: seq<Cell>, ghost before: seq<nat>)
      requires Valid() && Drew(was, before)
      modifies this, mem
      ensures Valid() && S() == DeleteLines(old(S()), 1) && Drew(was, before)
      ensures |path| == |old(path)| + Steps(if old(y) == 0 then 1 else 0)
    {
      ghost var mid, between := mem[..], path;
      DeleteLine();
      Drawn(mid, between);
      DrawnOn(was, before, mid, between);
    }

    /** The loop of the next function. */
    method DeleteLineTimes(n: nat, ghost was: seq<Cell>, ghost before: seq<nat>)
      requires Valid() && Drew(was, before)
      modifies this, mem
      ensures Valid() && S() == Times(old(S()), Edit.DeleteLine, n) && Drew(was, before)
      ensures |path| == |old(path)| + Steps(if old(y) == 0 then n else 0)
    {
      var k := 0;
      while k < n
        invariant k <= n && Valid() && S() == Times(old(S()), Edit.DeleteLine, k)
        invariant Drew(was, before) && y == old(y) && |path| == |old(path)| + Steps(if y == 0 then k else 0)
      {
        DeleteLineOn(was, before);
        k := k + 1;
      }
    }

    method CsiM(nr: nat)
      requires Valid()
      modifies this, mem
      ensures Valid() && S() == AtOnce(old(S()), Edit.DeleteLine, Cap(nr, lines))
      ensures Drew(old(mem[..]), old(path))
      ensures |path| == |old(path)| + Steps(if old(y) == 0 then Cap(nr, lines) else 0)
    {
      var n := if nr > lines then lines else if nr == 0 then 1 else nr;
      Drawn(mem[..], path);
      TimesIsAtOnce(S(), Edit.DeleteLine, n);
      DeleteLineTimes(n, mem[..], path);
    }

    // ----- con_write -----

    /** The line feed before a character, or after a tab, that has run to column at. */
    method WrapFrom(at: nat)
      requires Valid() && cols <= at <= 2 * cols
      modifies this, mem
      ensures Valid() && S() == Wrap(old(S()), at) && state == old(state) && attr == old(attr)
      ensures Drew(old(mem[..]), old(path))
      ensures |path| == |old(path)| + Steps(LfScrolls(old(S())))
    {
      ghost var was, before := mem[..], path;
      pos := pos + at - x - cols;
      x := at - cols;
      Lf();
      Drawn(was, before);
    }

    method PutChar(c: char)
      requires Valid() && 31 as char < c < 127 as char
      modifies this, mem
      ensures Valid() && S() == Char(old(S()), c)
      ensures Drew(old(mem[..]), old(path))
      ensures |path| == |old(path)| + Steps(if old(x) >= cols then LfScrolls(old(S())) else 0)
    {
      ghost var was, before := mem[..], path;
      Drawn(was, before);
      if x >= cols {
        WrapFrom(x);
      }
      ghost var mid, between := mem[..], path;
      StoreNext(attr * 256 + c as nat);
      DrawnOn(was, before, mid, between);
    }

    method StoreNext(c: Cell)
      requires Valid() && x < cols
      modifies this, mem
      ensures Valid() && At(old(S())) < |old(S()).cells|
      ensures S() == old(S()).(cells := old(S()).cells[At(old(S())) := c], x := old(x) + 1)
      ensures Drew(old(mem[..]), old(path))
      ensures path == old(path)
    {
      ghost var was, before := mem[..], path;
      Store(c);
      pos := pos + 1;
      x := x + 1;
      Drawn(was, before);
    }

    method PutTab()
      requires Valid()
      modifies this, mem
      ensures Valid() && S() == Tab(old(S()))
      ensures Drew(old(mem[..]), old(path))
      ensures |path| == |old(path)| + Steps(if old(x) + 8 - old(x) % 8 > cols then LfScrolls(old(S())) else 0)
    {
      Drawn(mem[..], path);
      var c := 8 - x % 8;
      if x + c > cols {
        WrapFrom(x + c);
      } else {
        x := x + c;
        pos := pos + c;
      }
    }

    method PutPlain(c: char, erase: char)
      requires Valid() && state == 0
      modifies this, mem
      ensures Valid() && S() == Plain(old(S()), c, erase)
      ensures Drew(old(mem[..]), old(path))
      ensures |path| == |old(path)| + Steps(PlainScrolls(old(S()), c, erase))
    {
      if 31 as char < c < 127 as char {
        PutChar(c);
      } else {
        PutControl(c, erase);
      }
    }

    method PutControl(c: char, erase: char)
      requires Valid() && state == 0 && !(31 as char < c < 127 as char)
      modifies this, mem
      ensures Valid() && S() == Plain(old(S()), c, erase)
      ensures Drew(old(mem[..]), old(path))
      ensures |path| == |old(path)| + Steps(PlainScrolls(old(S()), c, erase))
    {
      ghost var was, before := mem[..], path;
      if c == 10 as char || c == 11 as char || c == 12 as char {
        Lf();
        Drawn(was, before);
      } else if c == erase && c < 128 as char && c != ESC && c != 13 as char {
        Del();
        Drawn(was, before);
      } else if c == 9 as char {
        PutTab();
      } else {
        Drawn(was, before);
        PutCursor(c);
      }
    }

    /** The controls that draw nothing. */
    method PutCursor(c: char)
      requires Valid() && state == 0
      modifies this
      ensures Valid() && path == old(path)
      ensures S() == if c == ESC then old(S()).(mode := Escape)
                     else if c == 13 as char then old(S()).(x := 0)
                     else if c == 8 as char && old(x) > 0 then old(S()).(x := old(x) - 1)
                     else old(S())
    {
      if c == ESC {
        state := 1;
      } else if c == 13 as char {
        Cr();
      } else if c == 8 as char {
        if x > 0 {
          x := x - 1;
          pos := pos - 1;
        }
      }
    }

    method SaveCur()
      requires Valid()
      modifies this
      ensures Valid() && S() == old(S()).(savedX := old(x), savedY := old(y))
      ensures path == old(path)
    {
      savedX := x;
      savedY := y;
    }

    /** After ESC, what draws nothing: a new line's start, and the tests of ESC 7 and ESC 8. */
    method PutUndrawn(c: char)
      requires Valid() && state == 0 && c !in "[MD"
      modifies this
      ensures Valid() && path == old(path)
      ensures S() == Escaped(old(S()).(mode := Escape), c)
    {
      if c == 'E' {
        GotoXY(0, y + 1);
      } else if c != 'Z' {
        if x == '7' as nat {
          SaveCur();
        } else if x == '8' as nat {
          GotoXY(savedX, savedY);
        }
      }
    }

    /** After ESC, the line feeds. */
    method PutFeed(c: char)
      requires Valid() && state == 0 && c in "MD"
      modifies this, mem
      ensures Valid() && S() == Escaped(old(S()).(mode := Escape), c) && Drew(old(mem[..]), old(path))
      ensures |path| == |old(path)| + Steps(if c == 'D' then LfScrolls(old(S())) else 0)
    {
      ghost var was, before := mem[..], path;
      if c == 'M' {
        Ri();
      } else {
        Lf();
      }
      Drawn(was, before);
    }

    method PutEscaped(c: char)
      requires Valid() && state == 1
      modifies this, mem
      ensures Valid() && S() == Escaped(old(S()), c)
      ensures Drew(old(mem[..]), old(path))
      ensures |path| == |old(path)| + Steps(PutScrolls(old(S()), c, 0 as char))
    {
      Drawn(mem[..], path);
      state := 0;
      if c == '[' {
        state := 2;
      } else if c in "MD" {
        PutFeed(c);
      } else {
        PutUndrawn(c);
      }
    }

    /** The moves to a place given by the parameters, counted from 1. */
    method PutAbsolute(c: char)
      requires Valid() && state == 0 && c in "G`dHf"
      modifies this, par
      ensures Valid() && S() == Moves(old(S()), c, old(par[0]), old(par[1]))
      ensures path == old(path)
    {
      if par[0] > 0 {
        par[0] := par[0] - 1;
      }
      var newX, newY := x, par[0];
      if c == 'G' || c == '`' {
        newX, newY := par[0], y;
      } else if c != 'd' {
        if par[1] > 0 {
          par[1] := par[1] - 1;
        }
        newX := par[1];
      }
      GotoXY(newX, newY);
    }

    /** The moves by a distance, at least 1. The sums are unsigned and wrap around. */
    method PutRelative(c: char)
      requires Valid() && state == 0 && c in "ABeCaDEF"
      modifies this, par
      ensures Valid() && S() == Moves(old(S()), c, old(par[0]), old(par[1]))
      ensures path == old(path)
    {
      if par[0] == 0 {
        par[0] := 1;
      }
      var newX, newY := Target(c, par[0]);
      GotoXY(newX, newY);
    }

    method Target(c: char, n: nat) returns (newX: nat, newY: nat)
      requires c in "ABeCaDEF"
      ensures (newX, newY) == Relative(x, y, c, n)
    {
      newX, newY := x, y;
      if c == 'A' {
        newY := Word32(y - n);
      } else if c == 'B' || c == 'e' {
        newY := Word32(y + n);
      } else if c == 'C' || c == 'a' {
        newX := Word32(x + n);
      } else if c == 'D' {
        newX := Word32(x - n);
      } else if c == 'E' {
        newX, newY := 0, Word32(y + n);
      } else {
        newX, newY := 0, Word32(y - n);
      }
    }

    method PutMove(c: char)
      requires Valid() && state == 0
      modifies this, par
      ensures Valid() && S() == Moves(old(S()), c, old(par[0]), old(par[1]))
      ensures path == old(path)
    {
      if c in "G`dHf" {
        PutAbsolute(c);
      } else if c in "ABeCaDEF" {
        PutRelative(c);
      }
    }

    method SetMargins()
      requires Valid() && state == 0
      modifies this, par
      ensures Valid() && S() == Margins(old(S()), old(par[0]), old(par[1]))
      ensures path == old(path)
    {
      if par[0] > 0 {
        par[0] := par[0] - 1;
      }
      if par[1] == 0 {
        par[1] := lines;
      }
      if par[0] < par[1] && par[1] <= lines {
        top := par[0];
        bottom := par[1];
      }
    }

    method PutFinal(c: char)
      requires Valid() && state == 0 && npar < NPAR
      modifies this, mem, par
      ensures Valid() && S() == Final(old(S()), c, old(par[..]), old(npar))
      ensures Drew(old(mem[..]), old(path))
      ensures |path| == |old(path)| + Steps(ParameterScrolls(old(S()), c, old(par[..])))
    {
      if c == 'J' {
        CsiJ(par[0]);
      } else if c == 'K' {
        CsiK(par[0]);
      } else if c == 'L' {
        CsiL(par[0]);
      } else if c == 'M' {
        CsiM(par[0]);
      } else if c == 'P' {
        CsiP(par[0]);
      } else if c == '@' {
        CsiAt(par[0]);
      } else if c == 'm' {
        CsiAttributes();
      } else if c == 'r' {
        SetMargins();
      } else if c == 's' {
        SaveCur();
      } else if c == 'u' {
        GotoXY(savedX, savedY);
      } else {
        PutMove(c);
      }
    }

    method PutParameter(c: char)
      requires Valid() && state == 3
      modifies this, mem, par
      ensures Valid() && S() == Parameter(old(S()), c)
      ensures Drew(old(mem[..]), old(path))
      ensures |path| == |old(path)| + Steps(PutScrolls(old(S()), c, 0 as char))
    {
      if c == ';' && npar < NPAR - 1 {
        npar := npar + 1;
        return;
      }
      if '0' <= c <= '9' {
        par[npar] := Word32(10 * par[npar] + (c as int - '0' as int));
        return;
      }
      state := 0;
      PutFinal(c);
    }

    method ClearParams()
      requires par.Length == NPAR
      modifies this`npar, par
      ensures npar == 0 && par[..] == NoParams()
    {
      npar := 0;
      while npar < NPAR
        invariant npar <= NPAR && forall i :: 0 <= i < npar ==> par[i] == 0
      {
        par[npar] := 0;
        npar := npar + 1;
      }
      npar := 0;
    }

    method PutBracket(c: char)
      requires Valid() && state == 2
      modifies this, mem, par
      ensures Valid() && S() == Put(old(S()), c, 0 as char)
      ensures Drew(old(mem[..]), old(path))
      ensures |path| == |old(path)| + Steps(PutScrolls(old(S()), c, 0 as char))
    {
      ClearParams();
      state := 3;
      assert S() == old(S()).(mode := Params(NoParams(), 0));
      ques := c == '?';
      if ques {
        return;
      }
      PutParameter(c);
    }

    /** con_write: the bytes waiting in the write queue, one after the other. */
    method ConWrite(bytes: string, erase: char)
      requires Valid()
      modifies this, mem, par
      ensures Valid() && S() == Feed(old(S()), bytes, erase)
      ensures Drew(old(mem[..]), old(path)) && (!ega ==> OnlyWindow(old(mem[..])))
      ensures |path| == |old(path)| + Steps(FeedScrolls(old(S()), bytes, erase))
    {
      ghost var s, was, before := S(), mem[..], path;
      Drawn(was, before);
      var nr := 0;
      while nr < |bytes|
        invariant nr <= |bytes| && Valid() && Drew(was, before)
        invariant Feed(S(), bytes[nr..], erase) == Feed(s, bytes, erase)
        invariant |path| + Steps(FeedScrolls(S(), bytes[nr..], erase)) == |before| + Steps(FeedScrolls(s, bytes, erase))
      {
        ghost var mid, between := mem[..], path;
        PutByte(bytes[nr], erase);
        DrawnOn(was, before, mid, between);
        nr := nr + 1;
      }
      if !ega { DrewWindow(was, before); }
    }

    method PutByte(c: char, erase: char)
      requires Valid()
      modifies this, mem, par
      ensures Valid() && S() == Put(old(S()), c, erase)
      ensures Drew(old(mem[..]), old(path))
      ensures |path| == |old(path)| + Steps(PutScrolls(old(S()), c, erase))
    {
      if state == 0 {
        PutPlain(c, erase);
      } else if state == 1 {
        PutEscaped(c);
      } else if state == 2 {
        PutBracket(c);
      } else {
        PutParameter(c);
      }
    }
  }

  predicate InWindow(i: int, origin: nat, size: nat) { origin <= i < origin + size }

  /** The origin after a fast scroll. */
  function Moved(origin: nat, cols: nat, size: nat, length: nat): nat {
    if origin + size + cols > length then 0 else origin + cols
  }

  /** Cell i was in none of the windows of the path from `from` on. */
  ghost predicate Unseen(i: int, path: seq<nat>, from: nat, size: nat) {
    forall k :: from <= k < |path| ==> !InWindow(i, path[k], size)
  }

  ghost predicate Kept(was: seq<Cell>, now: seq<Cell>, path: seq<nat>, from: nat, size: nat) {
    |now| == |was| && forall i :: 0 <= i < |was| && Unseen(i, path, from, size) ==> now[i] == was[i]
  }

  lemma KeptOn(a: seq<Cell>, b: seq<Cell>, c: seq<Cell>, path: seq<nat>, longer: seq<nat>, from: nat, size: nat)
    requires from < |path| && path <= longer && Kept(a, b, path, from, size) && Kept(b, c, longer, |path| - 1, size)
    ensures Kept(a, c, longer, from, size)
  {
    forall i | 0 <= i < |a| && Unseen(i, longer, from, size) ensures c[i] == a[i] {
      assert forall k :: from <= k < |path| ==> path[k] == longer[k];
      assert Unseen(i, path, from, size) && Unseen(i, longer, |path| - 1, size);
    }
  }

  /** Two cards that show the same, say one that moves its origin and one that copies rows, still
      show the same after any bytes. */
  method SameOnAnyCard(a: Console, b: Console, bytes: string, erase: char)
    requires a.Valid() && b.Valid() && a.S() == b.S() && a != b
    requires {a.mem as object, a.par as object} !! {b.mem as object, b.par as object}
    modifies a, a.mem, a.par, b, b.mem, b.par
    ensures a.Valid() && b.Valid() && a.S() == b.S()
  {
    a.ConWrite(bytes, erase);
    b.ConWrite(bytes, erase);
  }

  lemma InsertOneMore(m: seq<Cell>, from: nat, to: nat)
    requires from <= to < |m|
    ensures Insert(m, from, to, 1)[to] == m[to]
    ensures Insert(m, from, to + 1, 1) == Insert(m, from, to, 1)[to := if to == from then ERASE else m[to - 1]]
  {
  }

  lemma CopyOneMore(m: seq<Cell>, from: nat, to: nat)
    requires from <= to < |m| - 1
    ensures Copied(m, from, from + 1, to - from)[to + 1] == m[to + 1]
    ensures Copied(m, from, from + 1, to + 1 - from) == Copied(m, from, from + 1, to - from)[to := m[to + 1]]
  {
  }

  lemma LastBlank(m: seq<Cell>, from: nat, to: nat)
    requires from <= to < |m|
    ensures Copied(m, from, from + 1, to - from)[to := ERASE] == Delete(m, from, to + 1, 1)
  {
  }

  lemma WindowInsert(m: seq<Cell>, o: nat, e: nat, from: nat, to: nat)
    requires o <= from <= to <= e <= |m|
    ensures Insert(m, from, to, 1)[o..e] == Insert(m[o..e], from - o, to - o, 1) &&
            SameOutside(m, Insert(m, from, to, 1), o, e)
  {
    forall i | 0 <= i < e - o ensures Insert(m, from, to, 1)[o..e][i] == Insert(m[o..e], from - o, to - o, 1)[i] {
      assert Insert(m, from, to, 1)[o..e][i] == Insert(m, from, to, 1)[o + i];
    }
  }

  lemma WindowDelete(m: seq<Cell>, o: nat, e: nat, from: nat, to: nat)
    requires o <= from <= to <= e <= |m|
    ensures Delete(m, from, to, 1)[o..e] == Delete(m[o..e], from - o, to - o, 1) &&
            SameOutside(m, Delete(m, from, to, 1), o, e)
  {
    forall i | 0 <= i < e - o ensures Delete(m, from, to, 1)[o..e][i] == Delete(m[o..e], from - o, to - o, 1)[i] {
      assert Delete(m, from, to, 1)[o..e][i] == Delete(m, from, to, 1)[o + i];
    }
  }

  lemma NothingDeleted(s: Screen)
    requires Ok(s) && s.x >= s.cols
    ensures DeleteChars(s, 1) == s
  {
    AtFits(s);
    assert DeleteChars(s, 1).cells == s.cells;
  }

  /** Inserting and deleting a line are scrolling the rows from the cursor's on. */
  lemma LineIsRegion(s: Screen)
    requires Ok(s)
    ensures Ok(s.(top := s.y, bottom := s.lines))
    ensures Down(s.(top := s.y, bottom := s.lines)) == InsertLines(s, 1).(top := s.y, bottom := s.lines)
    ensures Up(s.(top := s.y, bottom := s.lines)) == DeleteLines(s, 1).(top := s.y, bottom := s.lines)
  {
    assert Start(s.cols, 1) == Start(s.cols, 0) + s.cols;
  }

  lemma CopiedPair(m: seq<Cell>, dst: nat, src: nat, n: nat)
    requires dst <= src && src + n + 2 <= |m|
    ensures var c := Copied(m, dst, src, n);
            Copied(m, dst, src, n + 2) == c[dst + n := c[src + n]][dst + n + 1 := c[src + n + 1]]
  {
  }

  lemma CopiedPairDown(m: seq<Cell>, dst: nat, src: nat, n: nat)
    requires src <= dst && 2 <= src && dst + n <= |m|
    ensures var c := Copied(m, dst, src, n);
            Copied(m, dst - 2, src - 2, n + 2) == c[dst - 2 := c[src - 2]][dst - 1 := c[src - 1]]
  {
  }

  /** Copying rows up within the window from o to e. */
  lemma WindowUp(m: seq<Cell>, r: seq<Cell>, o: nat, e: nat, f: nat, t: nat, cols: nat)
    requires o + f + cols <= o + t <= e <= |m| && (t - f - cols) % 2 == 0
    requires r == PairwiseMove(m, o + f, o + f + cols, t - f - cols, cols)
    ensures r[o..e] == Delete(m[o..e], f, t, cols) && SameOutside(m, r, o, e)
  {
    var n := t - f - cols;
    assert n / 2 * 2 == n;
    assert r == Blank(Copied(m, o + f, o + f + cols, n), o + t - cols, o + t);
    forall i | 0 <= i < e - o ensures r[o..e][i] == Delete(m[o..e], f, t, cols)[i] { assert r[o..e][i] == r[o + i]; }
  }

  lemma WindowDown(m: seq<Cell>, o: nat, e: nat, f: nat, t: nat, cols: nat)
    requires o + f + cols <= o + t <= e <= |m|
    ensures var r := Blank(Copied(m, o + f + cols, o + f, t - f - cols), o + f, o + f + cols);
            r[o..e] == Insert(m[o..e], f, t, cols) && SameOutside(m, r, o, e)
  {
    var r := Blank(Copied(m, o + f + cols, o + f, t - f - cols), o + f, o + f + cols);
    forall i | 0 <= i < e - o ensures r[o..e][i] == Insert(m[o..e], f, t, cols)[i] { assert r[o..e][i] == r[o + i]; }
  }

  /** Moving the window from o - cols to o and blanking its last row. */
  lemma WindowMoved(m: seq<Cell>, o: nat, e: nat, cols: nat)
    requires cols <= o && o + cols <= e <= |m|
    ensures var r := Blank(m, e - cols, e);
            r[o..e] == Delete(m[o - cols..e - cols], 0, e - o, cols) && SameOutside(m, r, o, e)
  {
    var r := Blank(m, e - cols, e);
    forall i | 0 <= i < e - o ensures r[o..e][i] == Delete(m[o - cols..e - cols], 0, e - o, cols)[i]
        { assert r[o..e][i] == r[o + i]; }
  }

  /** Moving the window from o to the start of memory, one row up. */
  lemma WindowBack(m: seq<Cell>, o: nat, e: nat, cols: nat)
    requires o + cols <= e <= |m| && (e - o - cols) % 2 == 0
    ensures var r := PairwiseMove(m, 0, o + cols, e - o - cols, cols);
            r[0..e - o] == Delete(m[o..e], 0, e - o, cols) && SameOutside(m, r, 0, e - o)
  {
    var n := e - o - cols;
    assert n / 2 * 2 == n;
    var r := Blank(Copied(m, 0, o + cols, n), n, e - o);
    assert r == PairwiseMove(m, 0, o + cols, n, cols);
    var shown, wanted := r[0..e - o], Delete(m[o..e], 0, e - o, cols);
    forall i | 0 <= i < e - o ensures shown[i] == wanted[i] { assert shown[i] == r[i]; }
  }

  lemma RegionSize(cols: nat, top: nat, bottom: nat, lines: nat)
    requires cols % 2 == 0 && top < bottom <= lines
    ensures Start(cols, top) == top * cols && Start(cols, bottom) == bottom * cols
    ensures Start(cols, top) + cols <= Start(cols, bottom) <= Start(cols, lines)
    ensures (bottom - top - 1) * cols == Start(cols, bottom) - Start(cols, top) - cols
    ensures (bottom - top - 1) * cols % 2 == 0 && (bottom - top - 1) * cols / 2 * 2 == (bottom - top - 1) * cols
  {
    StartIs(cols, top);
    StartIs(cols, bottom);
    RowsOrdered(top, bottom, cols);
    RowsOrdered(bottom, lines, cols);
    EvenProduct(bottom - top - 1, cols);
    assert (bottom - top - 1) * cols == bottom * cols - top * cols - cols;
  }

  lemma {:induction false} EvenProduct(a: nat, b: nat)
    requires b % 2 == 0
    ensures a * b % 2 == 0 && a * b / 2 * 2 == a * b
  {
    assert b == 2 * (b / 2);
    assert a * b == 2 * (a * (b / 2));
  }
}
