/** What the console (kernel/chr_drv/console.c) shows, as a plain grid: the meaning of every byte
    written, with no video memory and no origin. A cell is attribute * 256 + character. */
module Terminal {
  type Cell = c: nat | c < 65536

  const ERASE: Cell := 0x0720
  const NPAR := 16
  const ESC := 27 as char
  const BITS32 := 0x1_0000_0000

  /** Where an escape sequence stands: states 0, 1, 2 and 3 of con_write. */
  datatype Mode = Normal | Escape | Bracket | Params(par: seq<nat>, npar: nat)

  datatype Screen = Screen(
    cols: nat, lines: nat, cells: seq<Cell>, x: nat, y: nat, top: nat, bottom: nat,
    attr: nat, savedX: nat, savedY: nat, mode: Mode)

  /** r * cols: where row r begins. */
  function Start(cols: nat, r: nat): nat { if r == 0 then 0 else Start(cols, r - 1) + cols }

  predicate Ok(s: Screen) {
    && 8 <= s.cols < 65536 && s.cols % 2 == 0 && 1 <= s.lines < 65536
    && |s.cells| == Start(s.cols, s.lines)
    && s.x <= s.cols && s.y < s.lines && s.top < s.bottom <= s.lines
    && s.attr < 256 && s.savedX <= s.cols && s.savedY < s.lines
    && (s.mode.Params? ==>
          && |s.mode.par| == NPAR && s.mode.npar < NPAR
          && forall i :: 0 <= i < NPAR ==> s.mode.par[i] < BITS32)
  }

  /** The screen con_init finds. */
  lemma FreshOk(cols: nat, lines: nat, cells: seq<Cell>, x: nat, y: nat)
    requires 8 <= cols < 65536 && cols % 2 == 0 && 1 <= lines < 65536 && |cells| == Start(cols, lines)
    requires x <= cols && y < lines
    ensures Ok(Screen(cols, lines, cells, x, y, 0, lines, 7, 0, 0, Normal))
  {
  }

  function Blanks(n: nat): (r: seq<Cell>)
    ensures |r| == n && forall i :: 0 <= i < n ==> r[i] == ERASE
  {
    seq(n, _ => ERASE)
  }

  // ----- the two shifts every scroll, insertion and deletion is made of -----

  /** Between from and to, n cells go at the front, the rest moves up, blanks come in at the end. */
  function Delete(c: seq<Cell>, from: nat, to: nat, n: nat): (r: seq<Cell>)
    requires from <= to <= |c|
    ensures |r| == |c|
  {
    seq(|c|, i requires 0 <= i < |c| => if i < from || to <= i then c[i] else if i + n < to then c[i + n] else ERASE)
  }

  /** Between from and to, n blanks come in at the front, and the last n cells go. */
  function Insert(c: seq<Cell>, from: nat, to: nat, n: nat): (r: seq<Cell>)
    requires from <= to <= |c|
    ensures |r| == |c|
  {
    seq(|c|, i requires 0 <= i < |c| => if i < from || to <= i then c[i] else if i < from + n then ERASE else c[i - n])
  }

  function Blank(c: seq<Cell>, from: nat, to: nat): (r: seq<Cell>)
    requires from <= to <= |c|
    ensures |r| == |c|
  {
    seq(|c|, i requires 0 <= i < |c| => if from <= i < to then ERASE else c[i])
  }

  lemma DeleteTwice(c: seq<Cell>, from: nat, to: nat, a: nat, b: nat)
    requires from <= to <= |c|
    ensures Delete(Delete(c, from, to, a), from, to, b) == Delete(c, from, to, a + b)
  {
  }

  lemma InsertTwice(c: seq<Cell>, from: nat, to: nat, a: nat, b: nat)
    requires from <= to <= |c|
    ensures Insert(Insert(c, from, to, a), from, to, b) == Insert(c, from, to, a + b)
  {
  }

  /** Deleting what was inserted gives the cells back, but for those pushed out at the end. */
  lemma DeleteInserted(c: seq<Cell>, from: nat, to: nat, n: nat)
    requires from + n <= to <= |c|
    ensures Delete(Insert(c, from, to, n), from, to, n) == Blank(c, to - n, to)
  {
  }

  // ----- rows -----

  lemma {:induction false} RowsOrdered(a: nat, b: nat, cols: nat)
    requires a <= b
    ensures Start(cols, a) <= Start(cols, b)
    ensures a < b ==> Start(cols, a) + cols <= Start(cols, b)
    decreases b
  {
    if a < b { RowsOrdered(a, b - 1, cols); }
  }

  lemma RowsFit(r: nat, lines: nat, cols: nat)
    requires r < lines
    ensures Start(cols, r) + cols == Start(cols, r + 1) <= Start(cols, lines)
  {
    RowsOrdered(r, lines, cols);
  }

  lemma {:induction false} StartIs(cols: nat, r: nat)
    ensures Start(cols, r) == r * cols
  {
    if r > 0 { StartIs(cols, r - 1); }
  }

  function Row(s: Screen, r: nat): (row: seq<Cell>)
    requires Ok(s) && r < s.lines
    ensures |row| == s.cols
  {
    RowsFit(r, s.lines, s.cols);
    s.cells[Start(s.cols, r)..Start(s.cols, r) + s.cols]
  }

  function Up(s: Screen): (r: Screen)
    requires Ok(s)
    ensures Ok(r)
  {
    RowsOrdered(s.top, s.bottom, s.cols);
    RowsOrdered(s.bottom, s.lines, s.cols);
    s.(cells := Delete(s.cells, Start(s.cols, s.top), Start(s.cols, s.bottom), s.cols))
  }

  function Down(s: Screen): (r: Screen)
    requires Ok(s)
    ensures Ok(r)
  {
    RowsOrdered(s.top, s.bottom, s.cols);
    RowsOrdered(s.bottom, s.lines, s.cols);
    s.(cells := Insert(s.cells, Start(s.cols, s.top), Start(s.cols, s.bottom), s.cols))
  }

  lemma DeletedSlice(c: seq<Cell>, from: nat, to: nat, n: nat, at: nat)
    requires from <= to <= |c| && at + n <= |c|
    ensures at + n <= from || to <= at ==> Delete(c, from, to, n)[at..at + n] == c[at..at + n]
    ensures from <= at && at + n == to ==> Delete(c, from, to, n)[at..at + n] == Blanks(n)
    ensures from <= at && at + n + n <= to ==> Delete(c, from, to, n)[at..at + n] == c[at + n..at + n + n]
  {
    var r := Delete(c, from, to, n);
    var slice := r[at..at + n];
    assert forall i :: 0 <= i < n ==> slice[i] == r[at + i];
  }

  lemma InsertedSlice(c: seq<Cell>, from: nat, to: nat, n: nat, at: nat)
    requires from <= to <= |c| && at + n <= |c|
    ensures at + n <= from || to <= at ==> Insert(c, from, to, n)[at..at + n] == c[at..at + n]
    ensures from == at && at + n <= to ==> Insert(c, from, to, n)[at..at + n] == Blanks(n)
    ensures from + n <= at && at + n <= to ==> Insert(c, from, to, n)[at..at + n] == c[at - n..at]
  {
    var r := Insert(c, from, to, n);
    var slice := r[at..at + n];
    assert forall i :: 0 <= i < n ==> slice[i] == r[at + i];
  }

  lemma UpRowLast(s: Screen)
    requires Ok(s)
    ensures Row(Up(s), s.bottom - 1) == Blanks(s.cols)
  {
    var r := s.bottom - 1;
    RowsOrdered(s.top, r, s.cols);
    RowsOrdered(s.bottom, s.lines, s.cols);
    DeletedSlice(s.cells, Start(s.cols, s.top), Start(s.cols, s.bottom), s.cols, Start(s.cols, r));
  }

  lemma UpRowInside(s: Screen, r: nat)
    requires Ok(s) && s.top <= r && r + 1 < s.bottom
    ensures Row(Up(s), r) == Row(s, r + 1)
  {
    var f, t, at := Start(s.cols, s.top), Start(s.cols, s.bottom), Start(s.cols, r);
    RowsOrdered(s.top, r, s.cols);
    RowsOrdered(s.bottom, s.lines, s.cols);
    RowsOrdered(r + 1, s.bottom, s.cols);
    assert Start(s.cols, r + 1) == at + s.cols;
    DeletedSlice(s.cells, f, t, s.cols, at);
  }

  lemma UpRowAbove(s: Screen, r: nat)
    requires Ok(s) && r < s.top
    ensures Row(Up(s), r) == Row(s, r)
  {
    RowsOrdered(r, s.top, s.cols);
    RowsOrdered(s.top, s.bottom, s.cols);
    RowsOrdered(s.bottom, s.lines, s.cols);
    DeletedSlice(s.cells, Start(s.cols, s.top), Start(s.cols, s.bottom), s.cols, Start(s.cols, r));
  }

  lemma UpRowBelow(s: Screen, r: nat)
    requires Ok(s) && s.bottom <= r < s.lines
    ensures Row(Up(s), r) == Row(s, r)
  {
    RowsFit(r, s.lines, s.cols);
    RowsOrdered(s.top, s.bottom, s.cols);
    RowsOrdered(s.bottom, r, s.cols);
    DeletedSlice(s.cells, Start(s.cols, s.top), Start(s.cols, s.bottom), s.cols, Start(s.cols, r));
  }

  /** Scrolling up moves every row of the region one up and blanks the last; rows outside stay. */
  lemma UpRows(s: Screen, r: nat)
    requires Ok(s) && r < s.lines
    ensures Row(Up(s), r) ==
            if r < s.top || r >= s.bottom then Row(s, r)
            else if r == s.bottom - 1 then Blanks(s.cols)
            else Row(s, r + 1)
  {
    if r < s.top { UpRowAbove(s, r); }
    else if r >= s.bottom { UpRowBelow(s, r); }
    else if r == s.bottom - 1 { UpRowLast(s); }
    else { UpRowInside(s, r); }
  }

  lemma DownRowFirst(s: Screen)
    requires Ok(s)
    ensures Row(Down(s), s.top) == Blanks(s.cols)
  {
    var r := s.top;
    RowsOrdered(r, s.bottom, s.cols);
    RowsOrdered(s.bottom, s.lines, s.cols);
    InsertedSlice(s.cells, Start(s.cols, r), Start(s.cols, s.bottom), s.cols, Start(s.cols, r));
  }

  lemma DownRowInside(s: Screen, r: nat)
    requires Ok(s) && s.top < r < s.bottom
    ensures Row(Down(s), r) == Row(s, r - 1)
  {
    var f, t, at := Start(s.cols, s.top), Start(s.cols, s.bottom), Start(s.cols, r);
    RowsOrdered(s.top, r, s.cols);
    RowsOrdered(r, s.bottom, s.cols);
    RowsOrdered(s.bottom, s.lines, s.cols);
    assert at == Start(s.cols, r - 1) + s.cols;
    InsertedSlice(s.cells, f, t, s.cols, at);
  }

  lemma DownRowAbove(s: Screen, r: nat)
    requires Ok(s) && r < s.top
    ensures Row(Down(s), r) == Row(s, r)
  {
    RowsOrdered(r, s.top, s.cols);
    RowsOrdered(s.top, s.bottom, s.cols);
    RowsOrdered(s.bottom, s.lines, s.cols);
    InsertedSlice(s.cells, Start(s.cols, s.top), Start(s.cols, s.bottom), s.cols, Start(s.cols, r));
  }

  lemma DownRowBelow(s: Screen, r: nat)
    requires Ok(s) && s.bottom <= r < s.lines
    ensures Row(Down(s), r) == Row(s, r)
  {
    RowsFit(r, s.lines, s.cols);
    RowsOrdered(s.top, s.bottom, s.cols);
    RowsOrdered(s.bottom, r, s.cols);
    InsertedSlice(s.cells, Start(s.cols, s.top), Start(s.cols, s.bottom), s.cols, Start(s.cols, r));
  }

  /** Scrolling down moves every row of the region one down and blanks the first. */
  lemma DownRows(s: Screen, r: nat)
    requires Ok(s) && r < s.lines
    ensures Row(Down(s), r) ==
            if r < s.top || r >= s.bottom then Row(s, r)
            else if r == s.top then Blanks(s.cols)
            else Row(s, r - 1)
  {
    if r < s.top { DownRowAbove(s, r); }
    else if r >= s.bottom { DownRowBelow(s, r); }
    else if r == s.top { DownRowFirst(s); }
    else { DownRowInside(s, r); }
  }

  // ----- single operations -----

  function At(s: Screen): nat { Start(s.cols, s.y) + s.x }

  lemma AtFits(s: Screen)
    requires Ok(s)
    ensures Start(s.cols, s.y) + s.cols <= |s.cells| && At(s) <= |s.cells|
    ensures s.x < s.cols ==> At(s) < |s.cells|
  {
    RowsFit(s.y, s.lines, s.cols);
  }

  function GotoXY(s: Screen, x: nat, y: nat): (r: Screen)
    requires Ok(s)
    ensures Ok(r)
  {
    if x > s.cols || y >= s.lines then s else s.(x := x, y := y)
  }

  function Lf(s: Screen): (r: Screen)
    requires Ok(s)
    ensures Ok(r) && r.x == s.x
  {
    if s.y + 1 < s.bottom then s.(y := s.y + 1) else Up(s)
  }

  function Ri(s: Screen): (r: Screen)
    requires Ok(s)
    ensures Ok(r)
  {
    if s.y > s.top then s.(y := s.y - 1) else Down(s)
  }

  function Del(s: Screen): (r: Screen)
    requires Ok(s)
    ensures Ok(r)
  {
    AtFits(s);
    if s.x == 0 then s else s.(x := s.x - 1, cells := s.cells[At(s) - 1 := ERASE])
  }

  /** The line feed before a character, or after a tab, that has run past the last column. */
  function Wrap(s: Screen, x: nat): (r: Screen)
    requires Ok(s) && s.cols <= x <= 2 * s.cols
    ensures Ok(r)
  {
    Lf(s.(x := x - s.cols))
  }

  function Char(s: Screen, c: char): (r: Screen)
    requires Ok(s) && 31 as char < c < 127 as char
    ensures Ok(r)
  {
    var s1 := if s.x >= s.cols then Wrap(s, s.x) else s;
    AtFits(s1);
    s1.(cells := s1.cells[At(s1) := s.attr * 256 + c as nat], x := s1.x + 1)
  }

  function Tab(s: Screen): (r: Screen)
    requires Ok(s)
    ensures Ok(r)
  {
    var x := s.x + 8 - s.x % 8;
    if x > s.cols then Wrap(s, x) else s.(x := x)
  }

  function EraseDisplay(s: Screen, n: nat): (r: Screen)
    requires Ok(s)
    ensures Ok(r)
  {
    AtFits(s);
    if n == 0 then s.(cells := Blank(s.cells, At(s), |s.cells|))
    else if n == 1 then s.(cells := Blank(s.cells, 0, At(s)))
    else if n == 2 then s.(cells := Blanks(|s.cells|))
    else s
  }

  function EraseLine(s: Screen, n: nat): (r: Screen)
    requires Ok(s)
    ensures Ok(r)
  {
    AtFits(s);
    var row := Start(s.cols, s.y);
    if n == 0 then s.(cells := Blank(s.cells, At(s), row + s.cols))
    else if n == 1 then s.(cells := Blank(s.cells, row, At(s)))
    else if n == 2 then s.(cells := Blank(s.cells, row, row + s.cols))
    else s
  }

  function Cap(n: nat, most: nat): nat { if n > most then most else if n == 0 then 1 else n }

  function InsertChars(s: Screen, n: nat): (r: Screen)
    requires Ok(s)
    ensures Ok(r)
  {
    AtFits(s);
    s.(cells := Insert(s.cells, At(s), Start(s.cols, s.y) + s.cols, n))
  }

  function DeleteChars(s: Screen, n: nat): (r: Screen)
    requires Ok(s)
    ensures Ok(r)
  {
    AtFits(s);
    s.(cells := Delete(s.cells, At(s), Start(s.cols, s.y) + s.cols, n))
  }

  function InsertLines(s: Screen, n: nat): (r: Screen)
    requires Ok(s)
    ensures Ok(r)
  {
    AtFits(s);
    s.(cells := Insert(s.cells, Start(s.cols, s.y), |s.cells|, Start(s.cols, n)))
  }

  function DeleteLines(s: Screen, n: nat): (r: Screen)
    requires Ok(s)
    ensures Ok(r)
  {
    AtFits(s);
    s.(cells := Delete(s.cells, Start(s.cols, s.y), |s.cells|, Start(s.cols, n)))
  }

  // ----- n at once is one n times -----

  datatype Edit = InsertChar | DeleteChar | InsertLine | DeleteLine

  function Once(s: Screen, e: Edit): (r: Screen)
    requires Ok(s)
    ensures Ok(r) && r.y == s.y
  {
    match e
    case InsertChar => InsertChars(s, 1)
    case DeleteChar => DeleteChars(s, 1)
    case InsertLine => InsertLines(s, 1)
    case DeleteLine => DeleteLines(s, 1)
  }

  function Times(s: Screen, e: Edit, n: nat): (r: Screen)
    requires Ok(s)
    ensures Ok(r) && r.y == s.y
  {
    if n == 0 then s else Once(Times(s, e, n - 1), e)
  }

  function AtOnce(s: Screen, e: Edit, n: nat): (r: Screen)
    requires Ok(s)
    ensures Ok(r)
  {
    match e
    case InsertChar => InsertChars(s, n)
    case DeleteChar => DeleteChars(s, n)
    case InsertLine => InsertLines(s, n)
    case DeleteLine => DeleteLines(s, n)
  }

  /** Repeating an insertion or deletion n times comes to one of n characters or lines. */
  lemma {:induction false} TimesIsAtOnce(s: Screen, e: Edit, n: nat)
    requires Ok(s)
    ensures Times(s, e, n) == AtOnce(s, e, n)
  {
    if n == 0 {
      NoneAtOnce(s, e);
    } else {
      TimesIsAtOnce(s, e, n - 1);
      OnceMore(s, e, n - 1);
    }
  }

  lemma NothingShifted(c: seq<Cell>, from: nat, to: nat)
    requires from <= to <= |c|
    ensures Insert(c, from, to, 0) == c && Delete(c, from, to, 0) == c
  {
  }

  lemma NoneAtOnce(s: Screen, e: Edit)
    requires Ok(s)
    ensures AtOnce(s, e, 0) == s
  {
    AtFits(s);
    NothingShifted(s.cells, At(s), Start(s.cols, s.y) + s.cols);
    NothingShifted(s.cells, Start(s.cols, s.y), |s.cells|);
  }

  lemma OnceMore(s: Screen, e: Edit, k: nat)
    requires Ok(s)
    ensures Once(AtOnce(s, e, k), e) == AtOnce(s, e, k + 1)
  {
    if e.InsertChar? || e.DeleteChar? { OneMoreChar(s, e, k); } else { OneMoreLine(s, e, k); }
  }

  lemma OneMoreChar(s: Screen, e: Edit, k: nat)
    requires Ok(s) && (e.InsertChar? || e.DeleteChar?)
    ensures Once(AtOnce(s, e, k), e) == AtOnce(s, e, k + 1)
  {
    AtFits(s);
    InsertTwice(s.cells, At(s), Start(s.cols, s.y) + s.cols, k, 1);
    DeleteTwice(s.cells, At(s), Start(s.cols, s.y) + s.cols, k, 1);
  }

  lemma OneMoreLine(s: Screen, e: Edit, k: nat)
    requires Ok(s) && (e.InsertLine? || e.DeleteLine?)
    ensures Once(AtOnce(s, e, k), e) == AtOnce(s, e, k + 1)
  {
    AtFits(s);
    assert Start(s.cols, 1) == Start(s.cols, 0) + s.cols;
    InsertTwice(s.cells, Start(s.cols, s.y), |s.cells|, Start(s.cols, k), s.cols);
    DeleteTwice(s.cells, Start(s.cols, s.y), |s.cells|, Start(s.cols, k), s.cols);
  }

  /** The attribute after one parameter of csi_m. */
  function AttributeAfter(attr: nat, p: nat): (r: nat)
    requires attr < 256
    ensures r < 256
  {
    if p == 0 || p == 27 then 0x07 else if p == 1 || p == 4 then 0x0f else if p == 7 then 0x70 else attr
  }

  /** csi_m over the parameters from i to npar. */
  function Attributes(attr: nat, par: seq<nat>, i: nat, npar: nat): (r: nat)
    requires npar < |par| && attr < 256
    ensures r < 256
    decreases npar + 1 - i
  {
    if i > npar then attr else Attributes(AttributeAfter(attr, par[i]), par, i + 1, npar)
  }

  function Word32(n: int): nat { n % BITS32 }

  function Margins(s: Screen, p0: nat, p1: nat): (r: Screen)
    requires Ok(s)
    ensures Ok(r)
  {
    var t := if p0 > 0 then p0 - 1 else 0;
    var b := if p1 == 0 then s.lines else p1;
    if t < b <= s.lines then s.(top := t, bottom := b) else s
  }

  // ----- one byte -----

  function Plain(s: Screen, c: char, erase: char): (r: Screen)
    requires Ok(s)
    ensures Ok(r)
  {
    if 31 as char < c < 127 as char then Char(s, c)
    else if c == ESC then s.(mode := Escape)
    else if 10 as char <= c <= 12 as char then Lf(s)
    else if c == 13 as char then s.(x := 0)
    else if c == erase && c < 128 as char then Del(s)
    else if c == 8 as char then (if s.x > 0 then s.(x := s.x - 1) else s)
    else if c == 9 as char then Tab(s)
    else s
  }

  /** After ESC. The tests of ESC 7 and ESC 8 look at the column, not at the byte. */
  function Escaped(s: Screen, c: char): (r: Screen)
    requires Ok(s)
    ensures Ok(r)
  {
    var s := s.(mode := Normal);
    if c == '[' then s.(mode := Bracket)
    else if c == 'E' then GotoXY(s, 0, s.y + 1)
    else if c == 'M' then Ri(s)
    else if c == 'D' then Lf(s)
    else if c == 'Z' then s
    else if s.x == '7' as nat then s.(savedX := s.x, savedY := s.y)
    else if s.x == '8' as nat then GotoXY(s, s.savedX, s.savedY)
    else s
  }

  function Parameter(s: Screen, c: char): (r: Screen)
    requires Ok(s) && s.mode.Params?
    ensures Ok(r)
  {
    var par, npar := s.mode.par, s.mode.npar;
    if c == ';' && npar < NPAR - 1 then s.(mode := Params(par, npar + 1))
    else if '0' <= c <= '9' then s.(mode := Params(par[npar := Word32(10 * par[npar] + (c as int - '0' as int))], npar))
    else Final(s.(mode := Normal), c, par, npar)
  }

  /** Where the moves by a distance n lead. */
  function Relative(x: nat, y: nat, c: char, n: nat): (nat, nat) {
    match c
    case 'A' => (x, Word32(y - n))
    case 'B' => (x, Word32(y + n))
    case 'e' => (x, Word32(y + n))
    case 'C' => (Word32(x + n), y)
    case 'a' => (Word32(x + n), y)
    case 'D' => (Word32(x - n), y)
    case 'E' => (0, Word32(y + n))
    case 'F' => (0, Word32(y - n))
    case _ => (x, y)
  }

  function Moves(s: Screen, c: char, p0: nat, p1: nat): (r: Screen)
    requires Ok(s)
    ensures Ok(r)
  {
    var d0 := if p0 > 0 then p0 - 1 else 0;
    var d1 := if p1 > 0 then p1 - 1 else 0;
    match c
    case 'G' => GotoXY(s, d0, s.y)
    case '`' => GotoXY(s, d0, s.y)
    case 'd' => GotoXY(s, s.x, d0)
    case 'H' => GotoXY(s, d1, d0)
    case 'f' => GotoXY(s, d1, d0)
    case _ =>
      var to := Relative(s.x, s.y, c, if p0 == 0 then 1 else p0);
      GotoXY(s, to.0, to.1)
  }

  function Final(s: Screen, c: char, par: seq<nat>, npar: nat): (r: Screen)
    requires Ok(s) && |par| == NPAR && npar < NPAR
    ensures Ok(r)
  {
    match c
    case 'J' => EraseDisplay(s, par[0])
    case 'K' => EraseLine(s, par[0])
    case 'L' => AtOnce(s, InsertLine, Cap(par[0], s.lines))
    case 'M' => AtOnce(s, DeleteLine, Cap(par[0], s.lines))
    case 'P' => AtOnce(s, DeleteChar, Cap(par[0], s.cols))
    case '@' => AtOnce(s, InsertChar, Cap(par[0], s.cols))
    case 'm' => s.(attr := Attributes(s.attr, par, 0, npar))
    case 'r' => Margins(s, par[0], par[1])
    case 's' => s.(savedX := s.x, savedY := s.y)
    case 'u' => GotoXY(s, s.savedX, s.savedY)
    case _ => Moves(s, c, par[0], par[1])
  }

  function NoParams(): seq<nat> { seq(NPAR, _ => 0) }

  function Put(s: Screen, c: char, erase: char): (r: Screen)
    requires Ok(s)
    ensures Ok(r)
  {
    match s.mode
    case Normal => Plain(s, c, erase)
    case Escape => Escaped(s, c)
    case Bracket =>
      var s1 := s.(mode := Params(NoParams(), 0));
      if c == '?' then s1 else Parameter(s1, c)
    case Params(_, _) => Parameter(s, c)
  }

  /** All the bytes of one con_write, in order. */
  function Feed(s: Screen, bytes: string, erase: char): (r: Screen)
    requires Ok(s)
    ensures Ok(r)
    decreases |bytes|
  {
    if bytes == "" then s else Feed(Put(s, bytes[0], erase), bytes[1..], erase)
  }

  // ----- scrolls of the whole screen -----

  /** A scroll up is one of the whole screen when there are no margins. */
  function WholeUp(s: Screen): nat { if s.top == 0 && s.bottom == s.lines then 1 else 0 }

  function LfScrolls(s: Screen): nat { if s.y + 1 < s.bottom then 0 else WholeUp(s) }

  function PlainScrolls(s: Screen, c: char, erase: char): nat {
    if 31 as char < c < 127 as char then (if s.x >= s.cols then LfScrolls(s) else 0)
    else if 10 as char <= c <= 12 as char then LfScrolls(s)
    else if c == 9 as char && c != erase then (if s.x + 8 - s.x % 8 > s.cols then LfScrolls(s) else 0)
    else 0
  }

  function ParameterScrolls(s: Screen, c: char, par: seq<nat>): nat
    requires |par| == NPAR
  {
    if c == 'M' && s.y == 0 then Cap(par[0], s.lines) else 0
  }

  /** How many scrolls of the whole screen one byte makes. */
  function PutScrolls(s: Screen, c: char, erase: char): nat
    requires Ok(s)
  {
    match s.mode
    case Normal => PlainScrolls(s, c, erase)
    case Escape => if c == 'D' then LfScrolls(s) else 0
    case Bracket => ParameterScrolls(s, c, NoParams())
    case Params(par, _) => ParameterScrolls(s, c, par)
  }

  function FeedScrolls(s: Screen, bytes: string, erase: char): nat
    requires Ok(s)
    decreases |bytes|
  {
    if bytes == "" then 0 else PutScrolls(s, bytes[0], erase) + FeedScrolls(Put(s, bytes[0], erase), bytes[1..], erase)
  }

  lemma {:induction false} FeedSplit(s: Screen, a: string, b: string, erase: char)
    requires Ok(s)
    ensures Feed(s, a + b, erase) == Feed(Feed(s, a, erase), b, erase)
    decreases |a|
  {
    if a == "" {
      assert a + b == b;
    } else {
      assert (a + b)[1..] == a[1..] + b;
      FeedSplit(Put(s, a[0], erase), a[1..], b, erase);
    }
  }

  // ----- what programs rely on -----

  function Digit(n: nat): char
    requires n < 10
  {
    ('0' as int + n) as char
  }

  function Decimal(n: nat): string {
    if n < 10 then [Digit(n)] else Decimal(n / 10) + [Digit(n % 10)]
  }

  lemma PutDigit(s: Screen, d: nat, erase: char)
    requires Ok(s) && s.mode.Params? && d < 10 && 10 * s.mode.par[s.mode.npar] + d < BITS32
    ensures Put(s, Digit(d), erase) ==
            s.(mode := Params(s.mode.par[s.mode.npar := 10 * s.mode.par[s.mode.npar] + d], s.mode.npar))
  {
  }

  /** The digits of a number, written after a parameter that is still 0, make it that number. */
  lemma {:induction false} FeedDecimal(s: Screen, n: nat, erase: char)
    requires Ok(s) && s.mode.Params? && s.mode.par[s.mode.npar] == 0 && n < BITS32
    ensures Feed(s, Decimal(n), erase) == s.(mode := Params(s.mode.par[s.mode.npar := n], s.mode.npar))
    decreases n
  {
    if n < 10 {
      FeedOne(s, Digit(n), erase);
      PutDigit(s, n, erase);
    } else {
      FeedDecimal(s, n / 10, erase);
      FeedSplit(s, Decimal(n / 10), [Digit(n % 10)], erase);
      var s1 := Feed(s, Decimal(n / 10), erase);
      FeedOne(s1, Digit(n % 10), erase);
      PutDigit(s1, n % 10, erase);
      assert s.mode.par[s.mode.npar := n / 10][s.mode.npar := n] == s.mode.par[s.mode.npar := n];
    }
  }

  lemma FeedOne(s: Screen, c: char, erase: char)
    requires Ok(s)
    ensures Feed(s, [c], erase) == Put(s, c, erase)
  {
    assert Feed(s, [c], erase) == Feed(Put(s, c, erase), [c][1..], erase);
  }

  /** ESC [ row ; col H with decimal numbers puts the cursor there, counted from 1, when it is on
      the screen (or just right of it), and does nothing otherwise; nothing else changes. */
  lemma CursorAddress(s: Screen, row: nat, col: nat, erase: char)
    requires Ok(s) && s.mode.Normal? && row < BITS32 && col < BITS32
    ensures Feed(s, [ESC, '['] + Decimal(row) + [';'] + Decimal(col) + ['H'], erase) ==
            var y, x := if row == 0 then 0 else row - 1, if col == 0 then 0 else col - 1;
            if x > s.cols || y >= s.lines then s else s.(x := x, y := y)
  {
    var s1 := Put(Put(s, ESC, erase), '[', erase);
    FeedOne(s, ESC, erase);
    FeedOne(Put(s, ESC, erase), '[', erase);
    FeedSplit(s, [ESC], ['['], erase);
    assert [ESC] + ['['] == [ESC, '['];
    var head := [ESC, '['] + Decimal(row);
    FeedSplit(s, [ESC, '['], Decimal(row), erase);
    FirstDecimal(s1, row, erase);
    FeedSplit(s, head, [';'], erase);
    var s2 := Feed(s, head, erase);
    FeedOne(s2, ';', erase);
    var s3 := Put(s2, ';', erase);
    FeedSplit(s, head + [';'], Decimal(col), erase);
    FeedDecimal(s3, col, erase);
    var s4 := Feed(s3, Decimal(col), erase);
    FeedSplit(s, head + [';'] + Decimal(col), ['H'], erase);
    FeedOne(s4, 'H', erase);
  }

  lemma {:induction false} FirstDecimal(s: Screen, n: nat, erase: char)
    requires Ok(s) && s.mode.Bracket? && n < BITS32
    ensures Feed(s, Decimal(n), erase) == s.(mode := Params(NoParams()[0 := n], 0))
  {
    var s1 := s.(mode := Params(NoParams(), 0));
    FeedDecimal(s1, n, erase);
    SameStart(s, n, erase);
  }

  /** The first byte after the bracket is read as in the parameter state. */
  lemma {:induction false} SameStart(s: Screen, n: nat, erase: char)
    requires Ok(s) && s.mode.Bracket?
    ensures Feed(s, Decimal(n), erase) == Feed(s.(mode := Params(NoParams(), 0)), Decimal(n), erase)
  {
    var d, s1 := Decimal(n), s.(mode := Params(NoParams(), 0));
    FirstIsDigit(n);
    assert Put(s, d[0], erase) == Put(s1, d[0], erase);
  }

  lemma {:induction false} FirstIsDigit(n: nat)
    ensures |Decimal(n)| > 0 && '0' <= Decimal(n)[0] <= '9'
  {
    if n >= 10 { FirstIsDigit(n / 10); }
  }

  /** Printable text that fits on the line appears there, left to right, with the current attribute,
      and nothing else on the screen changes. */
  lemma {:induction false} PrintText(s: Screen, text: string, erase: char)
    requires Ok(s) && s.mode.Normal? && s.x + |text| <= s.cols
    requires forall i :: 0 <= i < |text| ==> 31 as char < text[i] < 127 as char
    ensures var r := Feed(s, text, erase);
            && r == s.(x := s.x + |text|, cells := r.cells)
            && (forall i :: 0 <= i < |r.cells| ==>
                  r.cells[i] == if At(s) <= i < At(s) + |text| then s.attr * 256 + text[i - At(s)] as nat
                      else s.cells[i])
    decreases |text|
  {
    AtFits(s);
    if text != "" {
      var s1 := Put(s, text[0], erase);
      PrintText(s1, text[1..], erase);
    }
  }

  // ----- saving the cursor -----

  function Saved(s: Screen): Screen { s.(savedX := s.x, savedY := s.y) }

  function Restored(s: Screen): Screen { s.(x := s.savedX, y := s.savedY) }

  predicate SavedHere(s: Screen) { s.savedX == s.x && s.savedY == s.y }

  lemma FeedEscape(s: Screen, c: char, erase: char)
    requires Ok(s) && s.mode.Normal?
    ensures Feed(s, [ESC, c], erase) == Escaped(s.(mode := Escape), c)
  {
    FeedOne(s, ESC, erase);
    FeedOne(Put(s, ESC, erase), c, erase);
    FeedSplit(s, [ESC], [c], erase);
    assert [ESC] + [c] == [ESC, c];
  }

  /** What ESC and a byte without another meaning do depends on the column, not on the byte: 55,
      the code of '7', saves the cursor, 56, the code of '8', restores it. */
  lemma EscapeByColumn(s: Screen, c: char, erase: char)
    requires Ok(s) && s.mode.Normal? && c !in "[EMDZ"
    ensures Feed(s, [ESC, c], erase) == if s.x == 55 then Saved(s) else if s.x == 56 then Restored(s) else s
  {
    FeedEscape(s, c, erase);
  }

  /** So ESC 7 saves the cursor if and only if it is in column 55, or was saved there already. */
  lemma EscapeSevenIff(s: Screen, erase: char)
    requires Ok(s) && s.mode.Normal?
    ensures Feed(s, [ESC, '7'], erase) == Saved(s) <==> s.x == 55 || SavedHere(s)
  {
    EscapeByColumn(s, '7', erase);
  }

  /** And ESC 8 restores it if and only if it is in column 56, or is where it was saved. */
  lemma EscapeEightIff(s: Screen, erase: char)
    requires Ok(s) && s.mode.Normal?
    ensures Feed(s, [ESC, '8'], erase) == Restored(s) <==> s.x == 56 || SavedHere(s)
  {
    EscapeByColumn(s, '8', erase);
  }

  /** From any other column, ESC 7, a carriage return and ESC 8 lose the position. */
  lemma EscapeSevenLost(s: Screen, erase: char)
    requires Ok(s) && s.mode.Normal? && s.x != 55 && s.x != 56
    ensures Feed(s, [ESC, '7'] + [13 as char] + [ESC, '8'], erase) == s.(x := 0)
  {
    var cr := [13 as char];
    EscapeByColumn(s, '7', erase);
    FeedSplit(s, [ESC, '7'], cr, erase);
    FeedOne(s, 13 as char, erase);
    FeedSplit(s, [ESC, '7'] + cr, [ESC, '8'], erase);
    EscapeByColumn(s.(x := 0), '8', erase);
  }

  lemma EscapeSevenLoses(erase: char) returns (s: Screen)
    ensures Ok(s) && s.mode.Normal? && s.x == 10
    ensures Feed(s, [ESC, '7'] + [13 as char] + [ESC, '8'], erase) == s.(x := 0) != s
  {
    s := Screen(80, 1, Blanks(80), 10, 0, 0, 1, 7, 0, 0, Normal);
    assert Start(80, 1) == Start(80, 0) + 80;
    EscapeSevenLost(s, erase);
  }

  lemma FeedFinal(s: Screen, c: char, erase: char)
    requires Ok(s) && s.mode.Normal? && c in "su"
    ensures Feed(s, [ESC, '[', c], erase) == if c == 's' then Saved(s) else GotoXY(s, s.savedX, s.savedY)
  {
    FeedOne(s, ESC, erase);
    var s1 := Put(s, ESC, erase);
    FeedOne(s1, '[', erase);
    var s2 := Put(s1, '[', erase);
    FeedOne(s2, c, erase);
    FeedSplit(s, [ESC], ['['], erase);
    FeedSplit(s, [ESC] + ['['], [c], erase);
    assert [ESC] + ['['] + [c] == [ESC, '[', c];
  }

  lemma CharElsewhere(s: Screen, x: nat, y: nat, c: char)
    requires Ok(s) && Ok(s.(savedX := x, savedY := y)) && 31 as char < c < 127 as char && s.x < s.cols
    ensures Char(s.(savedX := x, savedY := y), c) == Char(s, c).(savedX := x, savedY := y)
  {
  }

  /** Where the cursor is saved makes no difference to text. */
  lemma {:induction false} SameText(s: Screen, x: nat, y: nat, text: string, erase: char)
    requires Ok(s) && Ok(s.(savedX := x, savedY := y)) && s.mode.Normal? && s.x + |text| <= s.cols
    requires forall i :: 0 <= i < |text| ==> 31 as char < text[i] < 127 as char
    ensures var r := Feed(s, text, erase);
            r.x == s.x + |text| && r.mode.Normal? && r == s.(x := r.x, cells := r.cells)
            && Feed(s.(savedX := x, savedY := y), text, erase) == r.(savedX := x, savedY := y)
    decreases |text|
  {
    if text != "" {
      CharElsewhere(s, x, y, text[0]);
      SameText(Put(s, text[0], erase), x, y, text[1..], erase);
    }
  }

  /** ESC [ s, then text that fits on the line, then ESC [ u: the cursor is back, the text stays. */
  lemma SaveRestore(s: Screen, text: string, erase: char)
    requires Ok(s) && s.mode.Normal? && s.x + |text| <= s.cols
    requires forall i :: 0 <= i < |text| ==> 31 as char < text[i] < 127 as char
    ensures var r := Feed(s, [ESC, '[', 's'] + text + [ESC, '[', 'u'], erase);
            && r == Saved(s).(cells := Feed(s, text, erase).cells)
            && r.x == s.x && r.y == s.y
  {
    var save, restore, s1 := [ESC, '[', 's'], [ESC, '[', 'u'], Saved(s);
    FeedFinal(s, 's', erase);
    FeedSplit(s, save, text, erase);
    SameText(s, s.x, s.y, text, erase);
    var s2 := Feed(s1, text, erase);
    FeedSplit(s, save + text, restore, erase);
    FeedFinal(s2, 'u', erase);
  }

  // ----- copying by double words -----

  function Copied(m: seq<Cell>, dst: nat, src: nat, n: nat): (r: seq<Cell>)
    requires dst + n <= |m| && src + n <= |m|
    ensures |r| == |m|
  {
    seq(|m|, i requires 0 <= i < |m| => if dst <= i < dst + n then m[i - dst + src] else m[i])
  }

  /** The block moves of the source copy n / 2 pairs of cells, and then store a row of blanks. */
  function PairwiseMove(c: seq<Cell>, at: nat, from: nat, n: nat, cols: nat): (r: seq<Cell>)
    requires at + n + cols <= |c| && from + n <= |c|
    ensures |r| == |c|
  {
    Blank(Copied(c, at, from, n / 2 * 2), at + n / 2 * 2, at + n / 2 * 2 + cols)
  }

  /** As the block move of a region of n + cols cells at `at` it should be a scroll up. */
  predicate ScrollsUp(c: seq<Cell>, at: nat, n: nat, cols: nat) {
    at + n + cols <= |c| ==> PairwiseMove(c, at, at + cols, n, cols) == Delete(c, at, at + n + cols, cols)
  }

  /** They scroll up for all contents exactly when n is even; an even number of columns is enough
      for every region. */
  lemma PairwiseUpIff(n: nat, cols: nat)
    requires cols > 0
    ensures n % 2 == 0 <==> forall c: seq<Cell>, at: nat :: ScrollsUp(c, at, n, cols)
  {
    if n % 2 == 0 {
      assert n / 2 * 2 == n;
      forall c: seq<Cell>, at: nat ensures ScrollsUp(c, at, n, cols) {}
    } else {
      var c: seq<Cell> := seq(n + cols, _ => 0x0741);
      assert PairwiseMove(c, 0, 0 + cols, n, cols)[n - 1] == ERASE;
      assert Delete(c, 0, 0 + n + cols, cols)[n - 1] == 0x0741;
      assert !ScrollsUp(c, 0, n, cols);
    }
  }
}
