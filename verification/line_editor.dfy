/** The line discipline of kernel/chr_drv/tty_io.c as a fold over input characters. Characters are
    signed, the special characters of the terminal settings unsigned, as in the source. */
module LineEditor {
  type Char = c: int | -128 <= c < 128

  /** The flags and special characters of struct termios that copy_to_cooked looks at. */
  datatype Settings = Settings(
    canon: bool, isig: bool, crnl: bool, nocr: bool, nlcr: bool,
    intr: nat, quit: nat, erase: nat, kill: nat, eof: nat, start: nat, stop: nat)

  datatype Signal = Interrupt | Quit

  /** The secondary queue, its count of line ends, whether output is stopped, and the signals sent. */
  datatype State = State(line: seq<Char>, data: int, stopped: bool, signals: seq<Signal>)

  predicate Ends(t: Settings, c: Char) { c == 10 || c == t.eof }

  /** Up to and with its last line end: what no input can take back any more. KILL goes back to it. */
  function Committed(t: Settings, line: seq<Char>): (r: seq<Char>)
    ensures r <= line
  {
    if line == [] || Ends(t, line[|line| - 1]) then line else Committed(t, line[..|line| - 1])
  }

  function Erase(t: Settings, line: seq<Char>): seq<Char> {
    if line == [] || Ends(t, line[|line| - 1]) then line else line[..|line| - 1]
  }

  /** The mapping of carriage return and newline. */
  function Mapped(t: Settings, c: Char): Char {
    if c == 13 then (if t.crnl then 10 else c)
    else if c == 10 && t.nlcr then 13
    else c
  }

  predicate Dropped(t: Settings, c: Char) { c == 13 && !t.crnl && t.nocr }

  datatype Kind = Drop | KillLine | EraseOne | Stop | Start | Send(s: Signal) | Keep(c: Char)

  /** What a mapped character is taken for; earlier tests win. */
  function KindOfMapped(t: Settings, c: Char): Kind {
    if t.canon && c == t.kill then KillLine
    else if t.canon && c == t.erase then EraseOne
    else if t.canon && c == t.stop then Stop
    else if t.canon && c == t.start then Start
    else if t.isig && c == t.intr then Send(Interrupt)
    else if t.isig && c == t.quit then Send(Quit)
    else Keep(c)
  }

  function KindOf(t: Settings, raw: Char): Kind {
    if Dropped(t, raw) then Drop else KindOfMapped(t, Mapped(t, raw))
  }

  function EditBy(t: Settings, line: seq<Char>, k: Kind): seq<Char> {
    match k
    case KillLine => Committed(t, line)
    case EraseOne => Erase(t, line)
    case Keep(c) => line + [c]
    case _ => line
  }

  /** What the character does to the waiting line. */
  function Edit(t: Settings, line: seq<Char>, raw: Char): seq<Char> { EditBy(t, line, KindOf(t, raw)) }

  function CookBy(t: Settings, s: State, k: Kind): State {
    var s1 := s.(line := EditBy(t, s.line, k));
    match k
    case Stop => s1.(stopped := true)
    case Start => s1.(stopped := false)
    case Send(x) => s1.(signals := s.signals + [x])
    case Keep(c) => if Ends(t, c) then s1.(data := s.data + 1) else s1
    case _ => s1
  }

  function Cook(t: Settings, s: State, raw: Char): State { CookBy(t, s, KindOf(t, raw)) }

  function EditAll(t: Settings, line: seq<Char>, input: seq<Char>): seq<Char>
    decreases |input|
  {
    if input == [] then line else EditAll(t, Edit(t, line, input[0]), input[1..])
  }

  // ----- line ends -----

  function LineEnds(t: Settings, line: seq<Char>): nat {
    if line == [] then 0 else (if Ends(t, line[0]) then 1 else 0) + LineEnds(t, line[1..])
  }

  lemma {:induction false} LineEndsJoin(t: Settings, a: seq<Char>, b: seq<Char>)
    ensures LineEnds(t, a + b) == LineEnds(t, a) + LineEnds(t, b)
  {
    if a == [] {
      assert a + b == b;
    } else {
      LineEndsJoin(t, a[1..], b);
      assert (a + b)[1..] == a[1..] + b;
    }
  }

  lemma LineEndsLast(t: Settings, line: seq<Char>)
    requires line != []
    ensures LineEnds(t, line) == LineEnds(t, line[..|line| - 1]) + (if Ends(t, line[|line| - 1]) then 1 else 0)
  {
    LineEndsJoin(t, line[..|line| - 1], line[|line| - 1..]);
    assert line[..|line| - 1] + line[|line| - 1..] == line;
    assert line[|line| - 1..] == [line[|line| - 1]];
    assert LineEnds(t, [line[|line| - 1]]) == (if Ends(t, line[|line| - 1]) then 1 else 0) + LineEnds(t, []);
  }

  lemma {:induction false} KillEnds(t: Settings, line: seq<Char>)
    ensures LineEnds(t, Committed(t, line)) == LineEnds(t, line)
  {
    if line != [] && !Ends(t, line[|line| - 1]) {
      LineEndsLast(t, line);
      KillEnds(t, line[..|line| - 1]);
    }
  }

  /** secondary.data goes on being the number of newlines and end-of-file characters that wait. */
  lemma CookKeepsCount(t: Settings, s: State, raw: Char)
    requires s.data == LineEnds(t, s.line)
    ensures Cook(t, s, raw).data == LineEnds(t, Cook(t, s, raw).line)
  {
    match KindOf(t, raw)
    case KillLine => KillEnds(t, s.line);
    case EraseOne => if s.line != [] { LineEndsLast(t, s.line); }
    case Keep(c) =>
      LineEndsJoin(t, s.line, [c]);
      assert LineEnds(t, [c]) == (if Ends(t, c) then 1 else 0) + LineEnds(t, []);
    case _ =>
  }

  /** r is the front part of the line that stops at a line end, or at the start, with no line end
      after it. */
  predicate StopsAtEnd(t: Settings, line: seq<Char>, r: seq<Char>) {
    && r <= line && (r == [] || Ends(t, r[|r| - 1]))
    && forall i :: |r| <= i < |line| ==> !Ends(t, line[i])
  }

  /** Where kill stops: there is one such part, and the kill character leaves exactly that. */
  lemma {:induction false} KillStops(t: Settings, line: seq<Char>, r: seq<Char>)
    ensures StopsAtEnd(t, line, r) <==> r == EditBy(t, line, KillLine)
  {
    if line != [] && !Ends(t, line[|line| - 1]) {
      var init := line[..|line| - 1];
      KillStops(t, init, r);
      if StopsAtEnd(t, line, r) && r <= init { assert StopsAtEnd(t, init, r); }
    }
  }

  /** No input removes or changes a line end or anything before one. */
  lemma EditKeepsCommitted(t: Settings, line: seq<Char>, raw: Char)
    ensures Committed(t, line) <= Edit(t, line, raw)
  {
  }

  lemma {:induction false} CommittedGrows(t: Settings, a: seq<Char>, b: seq<Char>)
    requires Committed(t, a) == a && a <= b
    ensures a <= Committed(t, b)
    decreases |b|
  {
    if b != a && b != [] && !Ends(t, b[|b| - 1]) {
      CommittedGrows(t, a, b[..|b| - 1]);
    }
  }

  lemma {:induction false} CommittedTwice(t: Settings, a: seq<Char>)
    ensures Committed(t, Committed(t, a)) == Committed(t, a)
  {
    if a != [] && !Ends(t, a[|a| - 1]) { CommittedTwice(t, a[..|a| - 1]); }
  }

  lemma {:induction false} CommittedForGood(t: Settings, line: seq<Char>, input: seq<Char>)
    ensures Committed(t, line) <= EditAll(t, line, input)
    decreases |input|
  {
    if input != [] {
      var next := Edit(t, line, input[0]);
      EditKeepsCommitted(t, line, input[0]);
      CommittedTwice(t, line);
      CommittedGrows(t, Committed(t, line), next);
      CommittedForGood(t, next, input[1..]);
    }
  }

  // ----- reading while editing goes on -----

  /** d has been read and line still waits: no editing to come can tell that d is gone. */
  predicate Apart(t: Settings, d: seq<Char>, line: seq<Char>) {
    d == [] || Ends(t, d[|d| - 1]) || LineEnds(t, line) > 0
  }

  lemma {:induction false} KillApart(t: Settings, d: seq<Char>, line: seq<Char>)
    requires Apart(t, d, line)
    ensures Committed(t, d + line) == d + Committed(t, line)
    decreases |line|
  {
    if line == [] {
      assert d + line == d;
    } else {
      var all := d + line;
      assert all[|all| - 1] == line[|line| - 1];
      if !Ends(t, line[|line| - 1]) {
        LineEndsLast(t, line);
        assert all[..|all| - 1] == d + line[..|line| - 1];
        KillApart(t, d, line[..|line| - 1]);
      }
    }
  }

  lemma EditApart(t: Settings, d: seq<Char>, line: seq<Char>, raw: Char)
    requires Apart(t, d, line)
    ensures Edit(t, d + line, raw) == d + Edit(t, line, raw) && Apart(t, d, Edit(t, line, raw))
  {
    var all := d + line;
    match KindOf(t, raw)
    case KillLine =>
      KillApart(t, d, line);
      KillEnds(t, line);
    case EraseOne =>
      if line == [] {
        assert all == d;
      } else {
        assert all[|all| - 1] == line[|line| - 1];
        assert all[..|all| - 1] == d + line[..|line| - 1];
        LineEndsLast(t, line);
      }
    case Keep(c) =>
      assert all + [c] == d + (line + [c]);
      LineEndsJoin(t, line, [c]);
    case _ =>
  }

  lemma {:induction false} EditAllApart(t: Settings, d: seq<Char>, line: seq<Char>, input: seq<Char>)
    requires Apart(t, d, line)
    ensures EditAll(t, d + line, input) == d + EditAll(t, line, input)
    decreases |input|
  {
    if input != [] {
      EditApart(t, d, line, input[0]);
      EditAllApart(t, d, Edit(t, line, input[0]), input[1..]);
    }
  }

  lemma {:induction false} KillAll(t: Settings, d: seq<Char>, line: seq<Char>)
    requires LineEnds(t, line) == 0
    ensures Committed(t, line) == [] && Committed(t, d + line) == Committed(t, d)
    decreases |line|
  {
    if line == [] {
      assert d + line == d;
    } else {
      LineEndsLast(t, line);
      var all := d + line;
      assert all[|all| - 1] == line[|line| - 1] && all[..|all| - 1] == d + line[..|line| - 1];
      KillAll(t, d, line[..|line| - 1]);
    }
  }

  lemma {:induction false} NoLineEnd(t: Settings, line: seq<Char>)
    ensures LineEnds(t, line) == 0 <==> forall i :: 0 <= i < |line| ==> !Ends(t, line[i])
  {
    if line != [] {
      NoLineEnd(t, line[1..]);
      assert forall i :: 0 < i < |line| ==> line[i] == line[1..][i - 1];
    }
  }

  function Again(raw: Char, n: nat): seq<Char> { if n == 0 then [] else [raw] + Again(raw, n - 1) }

  /** Erasing what is not committed, and then what is not there. */
  lemma {:induction false} EraseRun(t: Settings, raw: Char, line: seq<Char>, n: nat)
    requires KindOf(t, raw) == EraseOne
    requires forall i :: 0 <= i < |line| && |line| - n <= i ==> !Ends(t, line[i])
    ensures EditAll(t, line, Again(raw, n)) == if n <= |line| then line[..|line| - n] else []
    decreases n
  {
    if n > 0 {
      assert Again(raw, n)[0] == raw && Again(raw, n)[1..] == Again(raw, n - 1);
      EraseRun(t, raw, Erase(t, line), n - 1);
    } else {
      assert line[..|line|] == line;
    }
  }

  /** The settings have a character that takes something back: in canonical mode, and not one that
      is mapped away or taken for something else first. */
  ghost predicate CanUndo(t: Settings) {
    exists raw: Char :: KindOf(t, raw) == KillLine || KindOf(t, raw) == EraseOne
  }

  lemma {:induction false} NeverUndone(t: Settings, d: seq<Char>, line: seq<Char>, input: seq<Char>)
    requires !CanUndo(t)
    ensures EditAll(t, d + line, input) == d + EditAll(t, line, input)
    decreases |input|
  {
    if input != [] {
      var k := KindOf(t, input[0]);
      assert k != KillLine && k != EraseOne;
      if k.Keep? { assert (d + line) + [k.c] == d + (line + [k.c]); }
      NeverUndone(t, d, Edit(t, line, input[0]), input[1..]);
    }
  }

  /** Some input tells that d is gone. */
  lemma UndoTells(t: Settings, d: seq<Char>, line: seq<Char>, raw: Char) returns (input: seq<Char>)
    requires !Apart(t, d, line) && (KindOf(t, raw) == KillLine || KindOf(t, raw) == EraseOne)
    ensures |EditAll(t, d + line, input)| < |d|
  {
    NoLineEnd(t, line);
    if KindOf(t, raw) == KillLine {
      input := [raw];
      KillAll(t, d, line);
      assert EditAll(t, d + line, input) == EditAll(t, Committed(t, d + line), input[1..]);
    } else {
      input := Again(raw, |line| + 1);
      EraseRun(t, raw, d + line, |line| + 1);
    }
  }

  /** Having read d makes no difference to any input to come exactly when d ends a line or a line
      end still waits, or no character can take anything back anyway. */
  lemma ReadAheadIff(t: Settings, d: seq<Char>, line: seq<Char>)
    ensures Apart(t, d, line) || !CanUndo(t)
       <==> forall input :: EditAll(t, d + line, input) == d + EditAll(t, line, input)
  {
    if Apart(t, d, line) {
      forall input ensures EditAll(t, d + line, input) == d + EditAll(t, line, input) {
        EditAllApart(t, d, line, input);
      }
    } else if raw: Char :| KindOf(t, raw) == KillLine || KindOf(t, raw) == EraseOne {
      assert CanUndo(t);
      var input := UndoTells(t, d, line, raw);
      assert EditAll(t, d + line, input) != d + EditAll(t, line, input);
    } else {
      forall input ensures EditAll(t, d + line, input) == d + EditAll(t, line, input) {
        NeverUndone(t, d, line, input);
      }
    }
  }

  /** Input, and characters taken off the front of the queue. */
  datatype Event = In(c: Char) | Out

  ghost predicate Runs(t: Settings, line: seq<Char>, es: seq<Event>)
    decreases |es|
  {
    es == [] || match es[0]
                case In(c) => Runs(t, Edit(t, line, c), es[1..])
                case Out => LineEnds(t, line) > 0 && Runs(t, line[1..], es[1..])
  }

  function Inputs(es: seq<Event>): seq<Char> {
    if es == [] then [] else (if es[0].In? then [es[0].c] else []) + Inputs(es[1..])
  }

  ghost function Waiting(t: Settings, line: seq<Char>, es: seq<Event>): seq<Char>
    requires Runs(t, line, es)
    decreases |es|
  {
    if es == [] then line
    else match es[0]
      case In(c) => Waiting(t, Edit(t, line, c), es[1..])
      case Out => Waiting(t, line[1..], es[1..])
  }

  ghost function Read(t: Settings, line: seq<Char>, es: seq<Event>): seq<Char>
    requires Runs(t, line, es)
    decreases |es|
  {
    if es == [] then []
    else match es[0]
      case In(c) => Read(t, Edit(t, line, c), es[1..])
      case Out => [line[0]] + Read(t, line[1..], es[1..])
  }

  lemma Regroup(d: seq<Char>, x: Char, rest: seq<Char>, read: seq<Char>, waiting: seq<Char>)
    ensures (d + [x]) + rest == d + ([x] + rest)
    ensures (d + [x]) + read + waiting == d + ([x] + read) + waiting
  {
    assert (d + [x]) + read == d + ([x] + read);
  }

  /** As long as characters are only taken while a line end waits, what was read and what waits are
      together just the edited input, however reading and typing mix. */
  lemma {:induction false} ReadsEditedInput(t: Settings, d: seq<Char>, line: seq<Char>, es: seq<Event>)
    requires Runs(t, line, es) && Apart(t, d, line)
    ensures EditAll(t, d + line, Inputs(es)) == d + Read(t, line, es) + Waiting(t, line, es)
    decreases |es|
  {
    if es != [] {
      match es[0]
      case In(c) =>
        assert Inputs(es)[0] == c && Inputs(es)[1..] == Inputs(es[1..]);
        EditApart(t, d, line, c);
        ReadsEditedInput(t, d, Edit(t, line, c), es[1..]);
      case Out =>
        var rest := line[1..];
        assert [line[0]] + rest == line;
        assert Inputs(es) == Inputs(es[1..]);
        Regroup(d, line[0], rest, Read(t, rest, es[1..]), Waiting(t, rest, es[1..]));
        ReadsEditedInput(t, d + [line[0]], rest, es[1..]);
    }
  }

  // ----- tty_read -----

  datatype Taken = Taken(out: seq<Char>, rest: seq<Char>, eof: bool)

  /** The loop of tty_read over the queue: up to nr characters, or up to an end-of-file character,
      which is eaten. It does not stop at the end of a line. */
  function TakeSome(t: Settings, line: seq<Char>, nr: nat): Taken
    decreases |line|
  {
    if line == [] || nr == 0 then Taken([], line, false)
    else if t.canon && line[0] == t.eof then Taken([], line[1..], true)
    else var r := TakeSome(t, line[1..], nr - 1); Taken([line[0]] + r.out, r.rest, r.eof)
  }

  /** Nothing is lost or reordered, and an end-of-file character is never handed out. */
  lemma {:induction false} TakeSomeSplits(t: Settings, line: seq<Char>, nr: nat)
    ensures var r := TakeSome(t, line, nr);
            && |r.out| <= nr
            && (r.eof ==> -128 <= t.eof < 128 && t.canon && line == r.out + [t.eof] + r.rest)
            && (!r.eof ==> line == r.out + r.rest && (r.rest == [] || |r.out| == nr))
            && (t.canon ==> forall c :: c in r.out ==> c != t.eof)
    decreases |line|
  {
    if line != [] && nr > 0 && !(t.canon && line[0] == t.eof) {
      TakeSomeSplits(t, line[1..], nr - 1);
    }
  }

  // ----- when a read is harmless -----

  lemma {:induction false} CommittedJoin(t: Settings, d: seq<Char>, line: seq<Char>)
    ensures LineEnds(t, line) == 0 ==> Committed(t, d + line) == Committed(t, d)
    ensures LineEnds(t, line) > 0 ==> |Committed(t, d + line)| > |d|
    decreases |line|
  {
    if line == [] {
      assert d + line == d;
    } else {
      var all, init := d + line, line[..|line| - 1];
      assert all[|all| - 1] == line[|line| - 1] && all[..|all| - 1] == d + init;
      LineEndsLast(t, line);
      CommittedJoin(t, d, init);
    }
  }

  lemma {:induction false} CommittedWhole(t: Settings, d: seq<Char>)
    ensures |Committed(t, d)| == |d| <==> d == [] || Ends(t, d[|d| - 1])
  {
  }

  /** Reading d off the front is harmless exactly when it stays within what is committed. */
  lemma ApartIff(t: Settings, d: seq<Char>, line: seq<Char>)
    ensures Apart(t, d, line) <==> |d| <= |Committed(t, d + line)|
  {
    CommittedJoin(t, d, line);
    CommittedWhole(t, d);
  }

  /** What the read takes out of the queue: what it hands out, and the end-of-file character. */
  function Removed(t: Settings, line: seq<Char>, nr: nat): (d: seq<Char>)
    ensures d + TakeSome(t, line, nr).rest == line
  {
    TakeSomeSplits(t, line, nr);
    var r := TakeSome(t, line, nr);
    if r.eof then r.out + [t.eof] else r.out
  }

  /** An end-of-file character lies within reach of the read. */
  predicate EofWithin(t: Settings, line: seq<Char>, nr: nat) {
    exists i :: 0 <= i < nr && i < |line| && line[i] == t.eof
  }

  lemma {:induction false} TakeSomeEof(t: Settings, line: seq<Char>, nr: nat)
    requires t.canon
    ensures TakeSome(t, line, nr).eof <==> EofWithin(t, line, nr)
    decreases |line|
  {
    if line != [] && nr > 0 {
      if line[0] == t.eof {
        assert EofWithin(t, line, nr);
      } else {
        var rest := line[1..];
        TakeSomeEof(t, rest, nr - 1);
        if EofWithin(t, rest, nr - 1) {
          var i :| 0 <= i < nr - 1 && i < |rest| && rest[i] == t.eof;
          assert line[i + 1] == t.eof;
        }
        if EofWithin(t, line, nr) {
          var i :| 0 <= i < nr && i < |line| && line[i] == t.eof;
          assert rest[i - 1] == t.eof;
        }
      }
    }
  }

  lemma UndoIsCanonical(t: Settings)
    ensures CanUndo(t) ==> t.canon
  {
  }

  /** A read of up to nr characters takes nothing that later editing would have touched if and only
      if everything waiting is committed, or nr is no more than what is, or an end-of-file character
      stops it, or no character takes anything back. */
  lemma ReadHarmlessIff(t: Settings, line: seq<Char>, nr: nat)
    ensures (forall input :: EditAll(t, line, input)
                          == Removed(t, line, nr) + EditAll(t, TakeSome(t, line, nr).rest, input))
       <==> || line == Committed(t, line) || nr <= |Committed(t, line)| || EofWithin(t, line, nr)
            || !CanUndo(t)
  {
    var d, r := Removed(t, line, nr), TakeSome(t, line, nr);
    TakeSomeSplits(t, line, nr);
    ReadAheadIff(t, d, r.rest);
    ApartIff(t, d, r.rest);
    CommittedWhole(t, line);
    UndoIsCanonical(t);
    if CanUndo(t) { TakeSomeEof(t, line, nr); }
    if r.eof { CommittedWhole(t, d); assert Apart(t, d, r.rest); }
  }

  /** So a read can go past the end of the line and hand out characters still being edited: with
      "a\\nb" waiting it takes all three, and the erase that follows has nothing left to erase. */
  lemma ReadsPastTheLine(t: Settings)
    requires t.canon && t.eof == 4 && t.erase == 127 && t.kill == 21 && t.stop == 19 && t.start == 17
    ensures var line: seq<Char> := [97, 10, 98];
            && TakeSome(t, line, 10).out == line && TakeSome(t, line, 10).rest == []
            && EditAll(t, line, [127]) == [97, 10]
            && EditAll(t, line, [127]) != TakeSome(t, line, 10).out + EditAll(t, TakeSome(t, line, 10).rest, [127])
  {
    var line: seq<Char> := [97, 10, 98];
    assert line[1..] == [10, 98] && line[1..][1..] == [98] && [98][1..] == [];
    assert TakeSome(t, [98], 8) == Taken([98], [], false);
    assert TakeSome(t, [10, 98], 9) == Taken([10, 98], [], false);
    assert EditAll(t, line, [127]) == EditAll(t, Edit(t, line, 127), [127][1..]) == [97, 10];
    assert EditAll(t, [], [127]) == EditAll(t, Edit(t, [], 127), [127][1..]) == [];
  }
}
