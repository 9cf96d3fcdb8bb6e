/** What programs get for the bytes they write: cursor, rows and columns after each sequence that
    the console knows, for all numbers and all screens. */
module TerminalBytes {
  import opened Terminal

  // ----- a sequence and its parameters -----

  /** Decimal numbers with semicolons between them. */
  function Numbers(ns: seq<nat>): string
    requires ns != []
  {
    if |ns| == 1 then Decimal(ns[0]) else Decimal(ns[0]) + [';'] + Numbers(ns[1..])
  }

  /** ESC [ numbers c */
  function Csi(ns: seq<nat>, c: char): string
    requires ns != []
  {
    [ESC, '['] + Numbers(ns) + [c]
  }

  predicate Numeric(ns: seq<nat>) {
    0 < |ns| <= NPAR && forall i :: 0 <= i < |ns| ==> ns[i] < BITS32
  }

  function Padded(ns: seq<nat>): seq<nat>
    requires |ns| <= NPAR
  {
    seq(NPAR, i requires 0 <= i < NPAR => if i < |ns| then ns[i] else 0)
  }

  /** The parameters from k on are read in order. */
  lemma {:induction false} FeedNumbers(s: Screen, ns: seq<nat>, k: nat, erase: char)
    requires Ok(s) && Numeric(ns) && k < |ns| && s.mode == Params(Padded(ns[..k]), k)
    ensures Feed(s, Numbers(ns[k..]), erase) == s.(mode := Params(Padded(ns), |ns| - 1))
    decreases |ns| - k
  {
    var rest := ns[k..];
    FeedDecimal(s, ns[k], erase);
    var s1 := Feed(s, Decimal(ns[k]), erase);
    assert Padded(ns[..k])[k := ns[k]] == Padded(ns[..k + 1]);
    if |rest| == 1 {
      assert ns[..k + 1] == ns;
    } else {
      assert rest[1..] == ns[k + 1..];
      FeedSplit(s, Decimal(ns[k]), [';'], erase);
      FeedOne(s1, ';', erase);
      FeedSplit(s, Decimal(ns[k]) + [';'], Numbers(rest[1..]), erase);
      FeedNumbers(Put(s1, ';', erase), ns, k + 1, erase);
    }
  }

  lemma NumbersStart(ns: seq<nat>)
    requires ns != []
    ensures Numbers(ns) != "" && '0' <= Numbers(ns)[0] <= '9'
  {
    FirstIsDigit(ns[0]);
  }

  /** A whole sequence is carried out at its last byte, with the numbers as parameters. */
  lemma FeedCsi(s: Screen, ns: seq<nat>, c: char, erase: char)
    requires Ok(s) && s.mode.Normal? && Numeric(ns) && c != ';' && !('0' <= c <= '9')
    ensures Feed(s, Csi(ns, c), erase) == Final(s, c, Padded(ns), |ns| - 1)
  {
    var d, open := Numbers(ns), [ESC, '['];
    FeedSplit(s, [ESC], ['['], erase);
    assert [ESC] + ['['] == open;
    FeedOne(s, ESC, erase);
    var s1 := Put(Put(s, ESC, erase), '[', erase);
    FeedOne(Put(s, ESC, erase), '[', erase);
    NumbersStart(ns);
    var s2 := s1.(mode := Params(NoParams(), 0));
    assert Put(s1, d[0], erase) == Put(s2, d[0], erase);
    FeedSplit(s, open, d, erase);
    assert Padded(ns[..0]) == NoParams() && ns[0..] == ns;
    FeedNumbers(s2, ns, 0, erase);
    var s3 := Feed(s2, d, erase);
    FeedSplit(s, open + d, [c], erase);
    FeedOne(s3, c, erase);
    assert s3.(mode := Normal) == s;
  }

  lemma FeedCsiOne(s: Screen, n: nat, c: char, erase: char)
    requires Ok(s) && s.mode.Normal? && n < BITS32 && c != ';' && !('0' <= c <= '9')
    ensures Feed(s, Csi([n], c), erase) == Final(s, c, Padded([n]), 0)
    ensures Padded([n])[0] == n && Padded([n])[1] == 0
  {
    FeedCsi(s, [n], c, erase);
  }

  /** Without a number it is as with 0. */
  lemma NoNumber(s: Screen, c: char, erase: char)
    requires Ok(s) && s.mode.Normal? && c != ';' && !('0' <= c <= '9') && c != '?'
    ensures Feed(s, [ESC, '[', c], erase) == Feed(s, Csi([0], c), erase)
  {
    FeedCsiOne(s, 0, c, erase);
    assert Padded([0]) == NoParams();
    FeedSplit(s, [ESC], ['['], erase);
    FeedOne(s, ESC, erase);
    var s1 := Put(s, ESC, erase);
    FeedOne(s1, '[', erase);
    FeedSplit(s, [ESC] + ['['], [c], erase);
    assert [ESC] + ['['] + [c] == [ESC, '[', c];
    FeedOne(Put(s1, '[', erase), c, erase);
    assert s1.(mode := Normal) == s;
  }

  // ----- moves -----

  function Least1(n: nat): (r: int)
    ensures r >= 1
  {
    if n == 0 then 1 else n
  }

  /** A distance d from `at` ends below `end`, as it is or, since sums wrap at 32 bits, once round. */
  predicate Leads(at: nat, d: int, end: nat) {
    0 <= at + d < end || 0 <= at + d + 0x1_0000_0000 < end || 0 <= at + d - 0x1_0000_0000 < end
  }

  /** Where it leads; nowhere when that is outside. */
  function Led(at: nat, d: int, end: nat): nat {
    if 0 <= at + d < end then at + d
    else if 0 <= at + d + 0x1_0000_0000 < end then at + d + 0x1_0000_0000
    else if 0 <= at + d - 0x1_0000_0000 < end then at + d - 0x1_0000_0000
    else at
  }

  /** A distance that is no nearer to 2^32 than the size of the screen leads as far as it says if
      there is so much room, and nowhere else. */
  lemma LedPlainly(at: nat, d: int, end: nat)
    requires at < end <= 65536 && 0 <= d <= 0x1_0000_0000 - 65536
    ensures Led(at, d, end) == if at + d < end then at + d else at
    ensures Led(at, -d, end) == if d <= at then at - d else at
    ensures Leads(at, d, end) <==> at + d < end
    ensures Leads(at, -d, end) <==> d <= at
  {
  }

  lemma Wrapped(at: nat, d: int, end: nat)
    requires at < end <= 65536 && -BITS32 < d < BITS32
    ensures Word32(at + d) < end <==> Leads(at, d, end)
    ensures Leads(at, d, end) ==> Word32(at + d) == Led(at, d, end)
    ensures !Leads(at, d, end) ==> Led(at, d, end) == at
  {
    var n := at + d;
    if n < 0 {
      assert n % BITS32 == n + BITS32;
    } else if n >= BITS32 {
      assert n % BITS32 == n - BITS32;
    }
  }

  lemma GoesAside(s: Screen, d: int)
    requires Ok(s) && -BITS32 < d < BITS32
    ensures GotoXY(s, Word32(s.x + d), s.y) == s.(x := Led(s.x, d, s.cols + 1))
  {
    Wrapped(s.x, d, s.cols + 1);
  }

  lemma GoesUpOrDown(s: Screen, d: int)
    requires Ok(s) && -BITS32 < d < BITS32
    ensures GotoXY(s, s.x, Word32(s.y + d)) == s.(y := Led(s.y, d, s.lines))
    ensures GotoXY(s, 0, Word32(s.y + d)) ==
            if Leads(s.y, d, s.lines) then s.(x := 0, y := Led(s.y, d, s.lines)) else s
  {
    Wrapped(s.y, d, s.lines);
  }

  /** A move by a distance of d columns or rows, carried out by its last byte. */
  lemma MovedAside(s: Screen, n: nat, c: char, d: int, erase: char)
    requires Ok(s) && s.mode.Normal? && n < BITS32 && -BITS32 < d < BITS32
    requires c in "ABeCaDEF" && Relative(s.x, s.y, c, Least1(n)) == (Word32(s.x + d), s.y)
    ensures Feed(s, Csi([n], c), erase) == s.(x := Led(s.x, d, s.cols + 1))
  {
    FeedCsiOne(s, n, c, erase);
    GoesAside(s, d);
  }

  lemma MovedUpOrDown(s: Screen, n: nat, c: char, d: int, erase: char)
    requires Ok(s) && s.mode.Normal? && n < BITS32 && -BITS32 < d < BITS32
    requires c in "ABeCaDEF" && Relative(s.x, s.y, c, Least1(n)) == (s.x, Word32(s.y + d))
    ensures Feed(s, Csi([n], c), erase) == s.(y := Led(s.y, d, s.lines))
  {
    FeedCsiOne(s, n, c, erase);
    GoesUpOrDown(s, d);
  }

  lemma MovedToStart(s: Screen, n: nat, c: char, d: int, erase: char)
    requires Ok(s) && s.mode.Normal? && n < BITS32 && -BITS32 < d < BITS32
    requires c in "ABeCaDEF" && Relative(s.x, s.y, c, Least1(n)) == (0, Word32(s.y + d))
    ensures Feed(s, Csi([n], c), erase) ==
            if Leads(s.y, d, s.lines) then s.(x := 0, y := Led(s.y, d, s.lines)) else s
  {
    FeedCsiOne(s, n, c, erase);
    GoesUpOrDown(s, d);
  }

  /** ESC [ n A and ESC [ n F: up by n rows, at least one; F to the first column as well. */
  lemma MovesUp(s: Screen, n: nat, erase: char)
    requires Ok(s) && s.mode.Normal? && n < BITS32
    ensures Feed(s, Csi([n], 'A'), erase) == s.(y := Led(s.y, -Least1(n), s.lines))
    ensures Feed(s, Csi([n], 'F'), erase) ==
            if Leads(s.y, -Least1(n), s.lines) then s.(x := 0, y := Led(s.y, -Least1(n), s.lines)) else s
  {
    MovedUpOrDown(s, n, 'A', -Least1(n), erase);
    MovedToStart(s, n, 'F', -Least1(n), erase);
  }

  /** ESC [ n B, e and E: down. */
  lemma MovesDown(s: Screen, n: nat, erase: char)
    requires Ok(s) && s.mode.Normal? && n < BITS32
    ensures Feed(s, Csi([n], 'B'), erase) == s.(y := Led(s.y, Least1(n), s.lines))
    ensures Feed(s, Csi([n], 'e'), erase) == s.(y := Led(s.y, Least1(n), s.lines))
    ensures Feed(s, Csi([n], 'E'), erase) ==
            if Leads(s.y, Least1(n), s.lines) then s.(x := 0, y := Led(s.y, Least1(n), s.lines)) else s
  {
    MovedUpOrDown(s, n, 'B', Least1(n), erase);
    MovedUpOrDown(s, n, 'e', Least1(n), erase);
    MovedToStart(s, n, 'E', Least1(n), erase);
  }

  /** ESC [ n C and a: right, ESC [ n D: left; the place right of the last column counts. */
  lemma MovesAside(s: Screen, n: nat, erase: char)
    requires Ok(s) && s.mode.Normal? && n < BITS32
    ensures Feed(s, Csi([n], 'C'), erase) == s.(x := Led(s.x, Least1(n), s.cols + 1))
    ensures Feed(s, Csi([n], 'a'), erase) == s.(x := Led(s.x, Least1(n), s.cols + 1))
    ensures Feed(s, Csi([n], 'D'), erase) == s.(x := Led(s.x, -Least1(n), s.cols + 1))
  {
    MovedAside(s, n, 'C', Least1(n), erase);
    MovedAside(s, n, 'a', Least1(n), erase);
    MovedAside(s, n, 'D', -Least1(n), erase);
  }

  /** ESC [ n G and `: to column n; ESC [ n d: to row n, both counted from 1, if there is one. */
  lemma MovesTo(s: Screen, n: nat, erase: char)
    requires Ok(s) && s.mode.Normal? && n < BITS32
    ensures Feed(s, Csi([n], 'G'), erase) == if Least1(n) <= s.cols + 1 then s.(x := Least1(n) - 1) else s
    ensures Feed(s, Csi([n], '`'), erase) == if Least1(n) <= s.cols + 1 then s.(x := Least1(n) - 1) else s
    ensures Feed(s, Csi([n], 'd'), erase) == if Least1(n) <= s.lines then s.(y := Least1(n) - 1) else s
  {
    FeedCsiOne(s, n, 'G', erase);
    FeedCsiOne(s, n, '`', erase);
    FeedCsiOne(s, n, 'd', erase);
  }

  /** ESC [ row ; column f is as H. */
  lemma MovesToPlace(s: Screen, row: nat, col: nat, erase: char)
    requires Ok(s) && s.mode.Normal? && row < BITS32 && col < BITS32
    ensures Feed(s, Csi([row, col], 'f'), erase) == Feed(s, Csi([row, col], 'H'), erase)
    ensures Feed(s, Csi([row, col], 'f'), erase) ==
            if Least1(row) <= s.lines && Least1(col) <= s.cols + 1
            then s.(x := Least1(col) - 1, y := Least1(row) - 1) else s
  {
    FeedCsi(s, [row, col], 'f', erase);
    FeedCsi(s, [row, col], 'H', erase);
  }

  // ----- cells by row and column -----

  function Cell(s: Screen, r: nat, c: nat): Terminal.Cell
    requires Ok(s) && r < s.lines && c < s.cols
  {
    Row(s, r)[c]
  }

  lemma CellIs(s: Screen, r: nat, c: nat)
    requires Ok(s) && r < s.lines && c < s.cols
    ensures Start(s.cols, r) + c < |s.cells| && Cell(s, r, c) == s.cells[Start(s.cols, r) + c]
  {
    RowsFit(r, s.lines, s.cols);
  }

  /** Cells lie in memory in reading order. */
  lemma ReadingOrder(s: Screen, r: nat, c: nat, x: nat, y: nat)
    requires c < s.cols && x <= s.cols
    ensures Start(s.cols, r) + c < Start(s.cols, y) + x <==> r < y || (r == y && c < x)
  {
    if r < y { RowsOrdered(r, y, s.cols); }
    if y < r { RowsOrdered(y, r, s.cols); }
  }

  lemma DisplayErased(s: Screen, n: nat, r: nat, c: nat)
    requires Ok(s) && r < s.lines && c < s.cols
    ensures var before := r < s.y || (r == s.y && c < s.x);
            Cell(EraseDisplay(s, n), r, c) ==
            if (n == 0 && !before) || (n == 1 && before) || n == 2 then 0x0720 else Cell(s, r, c)
  {
    CellIs(s, r, c);
    CellIs(EraseDisplay(s, n), r, c);
    ReadingOrder(s, r, c, s.x, s.y);
  }

  lemma LineErased(s: Screen, n: nat, r: nat, c: nat)
    requires Ok(s) && r < s.lines && c < s.cols
    ensures Cell(EraseLine(s, n), r, c) ==
            if r == s.y && ((n == 0 && s.x <= c) || (n == 1 && c < s.x) || n == 2) then 0x0720 else Cell(s, r, c)
  {
    CellIs(s, r, c);
    CellIs(EraseLine(s, n), r, c);
    ReadingOrder(s, r, c, s.x, s.y);
    ReadingOrder(s, r, c, 0, s.y);
    ReadingOrder(s, r, c, s.cols, s.y);
  }

  /** ESC [ n J blanks from the cursor on, or before it, or all; nothing else changes. */
  lemma ErasesDisplay(s: Screen, n: nat, r: nat, c: nat, erase: char)
    requires Ok(s) && s.mode.Normal? && n < BITS32 && r < s.lines && c < s.cols
    ensures var t := Feed(s, Csi([n], 'J'), erase);
            var before := r < s.y || (r == s.y && c < s.x);
            && Ok(t) && t == s.(cells := t.cells)
            && Cell(t, r, c) == (if (n == 0 && !before) || (n == 1 && before) || n == 2 then 0x0720
                                 else Cell(s, r, c))
  {
    FeedCsiOne(s, n, 'J', erase);
    DisplayErased(s, n, r, c);
  }

  /** ESC [ n K does so on the cursor's row. */
  lemma ErasesLine(s: Screen, n: nat, r: nat, c: nat, erase: char)
    requires Ok(s) && s.mode.Normal? && n < BITS32 && r < s.lines && c < s.cols
    ensures var t := Feed(s, Csi([n], 'K'), erase);
            && Ok(t) && t == s.(cells := t.cells)
            && Cell(t, r, c) == (if r == s.y && ((n == 0 && s.x <= c) || (n == 1 && c < s.x) || n == 2) then 0x0720
                                 else Cell(s, r, c))
  {
    FeedCsiOne(s, n, 'K', erase);
    LineErased(s, n, r, c);
  }

  function AtMost(n: nat, most: nat): int { if Least1(n) < most then Least1(n) else most }

  lemma {:induction false} StartsAdd(cols: nat, a: nat, b: nat)
    ensures Start(cols, a + b) == Start(cols, a) + Start(cols, b)
  {
    if b > 0 { StartsAdd(cols, a, b - 1); }
  }

  /** A cell and the cells m rows from it. */
  lemma LinePlaces(s: Screen, m: nat, r: nat, c: nat)
    requires Ok(s) && c < s.cols
    ensures Start(s.cols, r) + c < Start(s.cols, s.y) <==> r < s.y
    ensures Start(s.cols, r) + c < Start(s.cols, s.y) + Start(s.cols, m) <==> r < s.y + m
    ensures m <= r ==> Start(s.cols, r - m) + Start(s.cols, m) == Start(s.cols, r)
    ensures Start(s.cols, r + m) == Start(s.cols, r) + Start(s.cols, m)
    ensures Start(s.cols, r) + c + Start(s.cols, m) < |s.cells| <==> r + m < s.lines
  {
    ReadingOrder(s, r, c, 0, s.y);
    ReadingOrder(s, r, c, 0, s.y + m);
    StartsAdd(s.cols, s.y, m);
    StartsAdd(s.cols, r, m);
    if m <= r { StartsAdd(s.cols, r - m, m); }
    ReadingOrder(s, r + m, c, 0, s.lines);
  }

  lemma InsertedRow(s: Screen, m: nat, r: nat, c: nat)
    requires Ok(s) && r < s.lines && c < s.cols
    ensures Cell(InsertLines(s, m), r, c) ==
            if r < s.y then Cell(s, r, c) else if r < s.y + m then 0x0720 else Cell(s, r - m, c)
  {
    LinePlaces(s, m, r, c);
    CellIs(s, r, c);
    CellIs(InsertLines(s, m), r, c);
    if s.y + m <= r { CellIs(s, r - m, c); }
  }

  lemma DeletedRow(s: Screen, m: nat, r: nat, c: nat)
    requires Ok(s) && r < s.lines && c < s.cols
    ensures Cell(DeleteLines(s, m), r, c) ==
            if r < s.y then Cell(s, r, c) else if r + m < s.lines then Cell(s, r + m, c) else 0x0720
  {
    LinePlaces(s, m, r, c);
    CellIs(s, r, c);
    CellIs(DeleteLines(s, m), r, c);
    if r + m < s.lines { CellIs(s, r + m, c); }
  }

  /** ESC [ n L: n blank rows at the cursor's, the others move down; above nothing changes. */
  lemma InsertsLines(s: Screen, n: nat, r: nat, c: nat, erase: char)
    requires Ok(s) && s.mode.Normal? && n < BITS32 && r < s.lines && c < s.cols
    ensures var t, m := Feed(s, Csi([n], 'L'), erase), AtMost(n, s.lines);
            && Ok(t) && t == s.(cells := t.cells)
            && Cell(t, r, c) == if r < s.y then Cell(s, r, c) else if r < s.y + m then 0x0720 else Cell(s, r - m, c)
  {
    FeedCsiOne(s, n, 'L', erase);
    InsertedRow(s, Cap(n, s.lines), r, c);
  }

  /** ESC [ n M: n rows go at the cursor's, the others move up, blank ones come in at the bottom. */
  lemma DeletesLines(s: Screen, n: nat, r: nat, c: nat, erase: char)
    requires Ok(s) && s.mode.Normal? && n < BITS32 && r < s.lines && c < s.cols
    ensures var t, m := Feed(s, Csi([n], 'M'), erase), AtMost(n, s.lines);
            && Ok(t) && t == s.(cells := t.cells)
            && Cell(t, r, c) == if r < s.y then Cell(s, r, c) else if r + m < s.lines then Cell(s, r + m, c) else 0x0720
  {
    FeedCsiOne(s, n, 'M', erase);
    DeletedRow(s, Cap(n, s.lines), r, c);
  }

  lemma InsertedChar(s: Screen, m: nat, r: nat, c: nat)
    requires Ok(s) && r < s.lines && c < s.cols
    ensures Cell(InsertChars(s, m), r, c) ==
            if r != s.y || c < s.x then Cell(s, r, c) else if c < s.x + m then 0x0720 else Cell(s, r, c - m)
  {
    CellIs(s, r, c);
    CellIs(InsertChars(s, m), r, c);
    ReadingOrder(s, r, c, s.x, s.y);
    ReadingOrder(s, r, c, s.cols, s.y);
    if r == s.y && s.x + m <= c { CellIs(s, r, c - m); }
  }

  lemma DeletedChar(s: Screen, m: nat, r: nat, c: nat)
    requires Ok(s) && r < s.lines && c < s.cols
    ensures Cell(DeleteChars(s, m), r, c) ==
            if r != s.y || c < s.x then Cell(s, r, c) else if c + m < s.cols then Cell(s, r, c + m) else 0x0720
  {
    CellIs(s, r, c);
    CellIs(DeleteChars(s, m), r, c);
    ReadingOrder(s, r, c, s.x, s.y);
    ReadingOrder(s, r, c, s.cols, s.y);
    if r == s.y && c + m < s.cols { CellIs(s, r, c + m); }
  }

  /** ESC [ n @: n blanks at the cursor, the rest of its row moves right. */
  lemma InsertsChars(s: Screen, n: nat, r: nat, c: nat, erase: char)
    requires Ok(s) && s.mode.Normal? && n < BITS32 && r < s.lines && c < s.cols
    ensures var t, m := Feed(s, Csi([n], '@'), erase), AtMost(n, s.cols);
            && Ok(t) && t == s.(cells := t.cells)
            && Cell(t, r, c) == if r != s.y || c < s.x then Cell(s, r, c)
                                else if c < s.x + m then 0x0720 else Cell(s, r, c - m)
  {
    FeedCsiOne(s, n, '@', erase);
    InsertedChar(s, Cap(n, s.cols), r, c);
  }

  /** ESC [ n P: n characters go at the cursor, blanks come in at the end of its row. */
  lemma DeletesChars(s: Screen, n: nat, r: nat, c: nat, erase: char)
    requires Ok(s) && s.mode.Normal? && n < BITS32 && r < s.lines && c < s.cols
    ensures var t, m := Feed(s, Csi([n], 'P'), erase), AtMost(n, s.cols);
            && Ok(t) && t == s.(cells := t.cells)
            && Cell(t, r, c) == if r != s.y || c < s.x then Cell(s, r, c)
                                else if c + m < s.cols then Cell(s, r, c + m) else 0x0720
  {
    FeedCsiOne(s, n, 'P', erase);
    DeletedChar(s, Cap(n, s.cols), r, c);
  }

  // ----- attributes and margins -----

  /** ESC [ n m: 0 and 27 plain, 1 and 4 bright, 7 reverse, and nothing for the rest. */
  lemma SetsAttribute(s: Screen, n: nat, erase: char)
    requires Ok(s) && s.mode.Normal? && n < BITS32
    ensures var t := Feed(s, Csi([n], 'm'), erase);
            && t == s.(attr := t.attr)
            && (n == 0 || n == 27 ==> t.attr == 0x07)
            && (n == 1 || n == 4 ==> t.attr == 0x0f)
            && (n == 7 ==> t.attr == 0x70)
            && (n !in {0, 1, 4, 7, 27} ==> t.attr == s.attr)
  {
    FeedCsiOne(s, n, 'm', erase);
    assert Attributes(s.attr, Padded([n]), 0, 0) == AttributeAfter(s.attr, n);
  }

  lemma {:induction false} AttributesJoin(attr: nat, a: seq<nat>, b: seq<nat>, i: nat, npar: nat)
    requires attr < 256 && npar + 1 < |a| && |b| == |a| && i <= npar + 1
    requires forall k :: 0 <= k <= npar ==> a[k] == b[k]
    ensures Attributes(attr, b, i, npar + 1) == AttributeAfter(Attributes(attr, a, i, npar), b[npar + 1])
    decreases npar + 1 - i
  {
    if i <= npar {
      AttributesJoin(AttributeAfter(attr, a[i]), a, b, i + 1, npar);
    } else {
      assert Attributes(AttributeAfter(attr, b[i]), b, i + 1, npar + 1) == AttributeAfter(attr, b[i]);
    }
  }

  /** Several numbers in one sequence are as several sequences. */
  lemma AttributesInTurn(s: Screen, ns: seq<nat>, n: nat, erase: char)
    requires Ok(s) && s.mode.Normal? && Numeric(ns) && |ns| < NPAR && n < BITS32
    ensures Feed(s, Csi(ns + [n], 'm'), erase) == Feed(Feed(s, Csi(ns, 'm'), erase), Csi([n], 'm'), erase)
  {
    FeedCsi(s, ns, 'm', erase);
    FeedCsi(s, ns + [n], 'm', erase);
    var t := Feed(s, Csi(ns, 'm'), erase);
    FeedCsiOne(t, n, 'm', erase);
    AttributesJoin(s.attr, Padded(ns), Padded(ns + [n]), 0, |ns| - 1);
    assert Attributes(t.attr, Padded([n]), 0, 0) == AttributeAfter(t.attr, n);
  }

  /** ESC [ first ; last r: rows first to last, counted from 1, scroll from now on; 0 stands for
      the first row and the last. */
  lemma SetsMargins(s: Screen, first: nat, last: nat, erase: char)
    requires Ok(s) && s.mode.Normal? && first < BITS32 && last < BITS32
    ensures var end := if last == 0 then s.lines else last;
            Feed(s, Csi([first, last], 'r'), erase) ==
            if Least1(first) <= end <= s.lines then s.(top := Least1(first) - 1, bottom := end) else s
  {
    FeedCsi(s, [first, last], 'r', erase);
  }

  // ----- single bytes -----

  /** The row below, or the region scrolled up by a row; the column stays. */
  ghost predicate LineFed(s: Screen, t: Screen) {
    && Ok(s) && Ok(t) && t == s.(y := t.y, cells := t.cells)
    && (if s.y + 1 < s.bottom then t.y == s.y + 1 && t.cells == s.cells
        else t.y == s.y && forall r :: 0 <= r < s.lines ==>
          Row(t, r) == if r < s.top || s.bottom <= r then Row(s, r)
                       else if r + 1 == s.bottom then Blanks(s.cols) else Row(s, r + 1))
  }

  lemma LfFeeds(s: Screen)
    requires Ok(s)
    ensures LineFed(s, Lf(s))
  {
    forall r | 0 <= r < s.lines
      ensures Row(Up(s), r) == if r < s.top || s.bottom <= r then Row(s, r)
                               else if r + 1 == s.bottom then Blanks(s.cols) else Row(s, r + 1)
    {
      UpRows(s, r);
    }
  }

  /** Bytes 10, 11 and 12, and ESC D. */
  lemma LineFeeds(s: Screen, c: char, erase: char)
    requires Ok(s) && s.mode.Normal? && 10 as char <= c <= 12 as char
    ensures LineFed(s, Feed(s, [c], erase)) && LineFed(s, Feed(s, [ESC, 'D'], erase))
  {
    FeedOne(s, c, erase);
    FeedEscape(s, 'D', erase);
    assert s.(mode := Escape).(mode := Normal) == s;
    LfFeeds(s);
  }

  /** ESC M: the row above, or the region scrolled down by a row. */
  lemma ReverseLineFeed(s: Screen, erase: char)
    requires Ok(s) && s.mode.Normal?
    ensures var t := Feed(s, [ESC, 'M'], erase);
            && Ok(t) && t == s.(y := t.y, cells := t.cells)
            && (if s.y > s.top then t.y == s.y - 1 && t.cells == s.cells
                else t.y == s.y && forall r :: 0 <= r < s.lines ==>
                  Row(t, r) == if r < s.top || s.bottom <= r then Row(s, r)
                               else if r == s.top then Blanks(s.cols) else Row(s, r - 1))
  {
    FeedEscape(s, 'M', erase);
    assert s.(mode := Escape).(mode := Normal) == s;
    forall r | 0 <= r < s.lines
      ensures Row(Down(s), r) == if r < s.top || s.bottom <= r then Row(s, r)
                                 else if r == s.top then Blanks(s.cols) else Row(s, r - 1)
    {
      DownRows(s, r);
    }
  }

  /** ESC E: the start of the row below, on any row but the last. */
  lemma NextLine(s: Screen, erase: char)
    requires Ok(s) && s.mode.Normal?
    ensures Feed(s, [ESC, 'E'], erase) == if s.y + 1 < s.lines then s.(x := 0, y := s.y + 1) else s
  {
    FeedEscape(s, 'E', erase);
    assert s.(mode := Escape).(mode := Normal) == s;
  }

  /** Carriage return, backspace, the erase character, and bytes without a meaning. */
  lemma ControlBytes(s: Screen, c: char, erase: char)
    requires Ok(s) && s.mode.Normal?
    ensures Feed(s, [13 as char], erase) == s.(x := 0)
    ensures erase != 8 as char ==> Feed(s, [8 as char], erase) == if s.x > 0 then s.(x := s.x - 1) else s
    ensures c >= 127 as char && c != erase ==> Feed(s, [c], erase) == s
    ensures c < 8 as char && c != erase ==> Feed(s, [c], erase) == s
    ensures 14 as char <= c <= 31 as char && c != erase && c != ESC ==> Feed(s, [c], erase) == s
  {
    FeedOne(s, 13 as char, erase);
    FeedOne(s, 8 as char, erase);
    FeedOne(s, c, erase);
  }

  lemma DeletedBefore(s: Screen, r: nat, c: nat)
    requires Ok(s) && r < s.lines && c < s.cols
    ensures var t := Del(s);
            Cell(t, r, c) == if r == s.y && s.x > 0 && c == s.x - 1 then 0x0720 else Cell(s, r, c)
  {
    CellIs(s, r, c);
    CellIs(Del(s), r, c);
    ReadingOrder(s, r, c, s.x, s.y);
    if s.x > 0 { ReadingOrder(s, r, c, s.x - 1, s.y); }
  }

  /** The erase character blanks the cell before the cursor and goes back to it. */
  lemma ErasesBack(s: Screen, r: nat, c: nat, erase: char)
    requires Ok(s) && s.mode.Normal? && r < s.lines && c < s.cols
    requires erase == 127 as char || erase == 8 as char
    ensures var t := Feed(s, [erase], erase);
            && Ok(t) && t == s.(x := t.x, cells := t.cells) && t.x == (if s.x > 0 then s.x - 1 else 0)
            && Cell(t, r, c) == if r == s.y && s.x > 0 && c == s.x - 1 then 0x0720 else Cell(s, r, c)
  {
    FeedOne(s, erase, erase);
    DeletedBefore(s, r, c);
  }

  ghost predicate Tabbed(s: Screen, t: Screen, x: nat) {
    && s.x < x <= s.x + 8 && x % 8 == 0
    && if x <= s.cols then t == s.(x := x) else t.x == x - s.cols && LineFed(s.(x := t.x), t)
  }

  /** A tab goes to the next column divisible by 8; from the last columns to as many of the next row
      as it takes past the end. */
  lemma TabStops(s: Screen, erase: char)
    requires Ok(s) && s.mode.Normal? && erase != 9 as char
    ensures var t := Feed(s, [9 as char], erase); exists x: nat :: Tabbed(s, t, x)
  {
    FeedOne(s, 9 as char, erase);
    var x := s.x + 8 - s.x % 8;
    if x > s.cols {
      LfFeeds(s.(x := x - s.cols));
    }
    assert Tabbed(s, Feed(s, [9 as char], erase), x);
  }

  /** A character past the last column goes to the start of the next line, as after a carriage
      return and a line feed. */
  lemma WrapsAround(s: Screen, c: char, erase: char)
    requires Ok(s) && s.mode.Normal? && s.x == s.cols && 31 as char < c < 127 as char
    ensures Feed(s, [c], erase) == Feed(s, [13 as char, 10 as char, c], erase)
  {
    FeedOne(s, c, erase);
    var s1 := Put(s, 13 as char, erase);
    var s2 := Put(s1, 10 as char, erase);
    var bytes := [13 as char, 10 as char, c];
    assert bytes[1..] == [10 as char, c] && bytes[1..][1..] == [c];
    assert Feed(s, bytes, erase) == Feed(s1, bytes[1..], erase) == Feed(s2, [c], erase);
    FeedOne(s2, c, erase);
  }
}
