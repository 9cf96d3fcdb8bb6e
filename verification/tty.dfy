/** copy_to_cooked and the dequeue loop of tty_read (kernel/chr_drv/tty_io.c) over the ring buffers
    of include/linux/tty.h. Echo goes to a third queue that is not modelled. */
module Tty {
  import opened Ring
  import opened LineEditor

  const SIZE := 1024

  class Queue {
    const buf: array<Char>
    var head: nat
    var tail: nat
    var data: int

    ghost predicate Valid()
      reads this, buf
    {
      buf.Length == SIZE && InRing(buf[..], head, tail)
    }

    ghost function Items(): seq<Char>
      requires Valid()
      reads this, buf
    {
      Contents(buf[..], head, tail)
    }

    constructor ()
      ensures Valid() && Items() == [] && data == 0 && fresh(buf)
    {
      buf := new Char[SIZE](_ => 0);
      head, tail, data := 0, 0, 0;
    }

    /** EMPTY, FULL and LEFT */
    method Left() returns (left: nat)
      requires Valid()
      ensures left == SIZE - 1 - |Items()|
    {
      Size(buf[..], head, tail);
      left := (tail - head - 1) % SIZE;
    }

    /** GETCH */
    method Get() returns (c: Char)
      requires Valid() && head != tail
      modifies this`tail
      ensures Valid() && old(Items()) == [c] + Items()
    {
      ghost var at := tail;
      assert (tail + 1) % SIZE == After(SIZE, tail, 1);
      Take(buf[..], head, tail, 1);
      c := buf[tail];
      tail := (tail + 1) % SIZE;
      assert buf[..][at..at + 1] == [c];
    }

    /** PUTCH: into a queue with room it overwrites nothing that waits; a full queue is emptied by
        it, as head and tail meet. */
    method PutChar(c: Char)
      requires Valid()
      modifies this`head, buf
      ensures Valid() && Items() == if |old(Items())| < SIZE - 1 then old(Items()) + [c] else []
    {
      ghost var was, at := buf[..], head;
      Size(was, head, tail);
      if |Items()| < SIZE - 1 {
        Put(was, head, tail, [c], was[..at] + [c] + was[at + 1..]);
      }
      buf[head] := c;
      head := (head + 1) % SIZE;
      assert head == After(SIZE, at, 1);
      assert buf[..] == was[..at] + [c] + was[at + 1..];
      Size(buf[..], head, tail);
    }

    /** LAST */
    method Last() returns (c: Char)
      requires Valid() && head != tail
      ensures Items() != [] && c == Items()[|Items()| - 1]
    {
      Back(buf[..], head, tail);
      c := buf[(head - 1) % SIZE];
    }

    /** DEC of the head */
    method Dec()
      requires Valid() && head != tail
      modifies this`head
      ensures Valid() && old(Items()) != [] && Items() == old(Items())[..|old(Items())| - 1]
    {
      Back(buf[..], head, tail);
      head := (head - 1) % SIZE;
    }

    lemma EmptyIff()
      requires Valid()
      ensures head == tail <==> Items() == []
    {
      Size(buf[..], head, tail);
    }
  }

  /** All of the input that fits, edited. */
  function CookAll(t: Settings, s: State, input: seq<Char>): (r: (State, seq<Char>))
    decreases |input|
  {
    if input == [] || |s.line| >= SIZE - 1 then (s, input) else CookAll(t, Cook(t, s, input[0]), input[1..])
  }

  lemma {:induction false} CookAllKeepsCount(t: Settings, s: State, input: seq<Char>)
    requires s.data == LineEnds(t, s.line)
    ensures var r := CookAll(t, s, input).0; r.data == LineEnds(t, r.line)
    decreases |input|
  {
    if input != [] && |s.line| < SIZE - 1 {
      CookKeepsCount(t, s, input[0]);
      CookAllKeepsCount(t, Cook(t, s, input[0]), input[1..]);
    }
  }

  class TtyStruct {
    const readQ: Queue
    const secondary: Queue
    const t: Settings
    var stopped: bool
    var signals: seq<Signal>

    ghost predicate Valid()
      reads this, readQ, readQ.buf, secondary, secondary.buf
    {
      && readQ != secondary && readQ.buf != secondary.buf && readQ.Valid() && secondary.Valid()
      && secondary.data == LineEnds(t, secondary.Items())
    }

    ghost function S(): State
      requires secondary.Valid()
      reads this, secondary, secondary.buf
    {
      State(secondary.Items(), secondary.data, stopped, signals)
    }

    constructor (t: Settings)
      ensures Valid() && S() == State([], 0, false, []) && readQ.Items() == [] && this.t == t
    {
      readQ := new Queue();
      secondary := new Queue();
      this.t := t;
      stopped, signals := false, [];
    }

    /** The loop for the kill character. */
    method KillLoop()
      requires secondary.Valid()
      modifies secondary`head
      ensures secondary.Valid() && secondary.Items() == Committed(t, old(secondary.Items()))
    {
      ghost var line := secondary.Items();
      secondary.EmptyIff();
      while secondary.head != secondary.tail
        invariant secondary.Valid() && Committed(t, secondary.Items()) == Committed(t, line)
        decreases |secondary.Items()|
      {
        var c := secondary.Last();
        if Ends(t, c) {
          break;
        }
        secondary.Dec();
        secondary.EmptyIff();
      }
      secondary.EmptyIff();
    }

    method EraseLast()
      requires secondary.Valid()
      modifies secondary`head
      ensures secondary.Valid() && secondary.Items() == Erase(t, old(secondary.Items()))
    {
      secondary.EmptyIff();
      if secondary.head == secondary.tail {
        return;
      }
      var c := secondary.Last();
      if Ends(t, c) {
        return;
      }
      secondary.Dec();
    }

    /** The special characters of canonical mode; `done` when c was one. */
    method Canonical(c: Char) returns (done: bool)
      requires secondary.Valid()
      modifies this, secondary`head
      ensures secondary.Valid() && (done <==> KindOfMapped(t, c) in {KillLine, EraseOne, Stop, Start})
      ensures S() == if done then CookBy(t, old(S()), KindOfMapped(t, c)) else old(S())
    {
      if !t.canon {
        return false;
      }
      done := true;
      if c == t.kill {
        KillLoop();
      } else if c == t.erase {
        EraseLast();
      } else if c == t.stop {
        stopped := true;
      } else if c == t.start {
        stopped := false;
      } else {
        done := false;
      }
    }

    /** The rest of the loop: signals, or a character to keep. */
    method Ordinary(c: Char)
      requires secondary.Valid() && |secondary.Items()| < SIZE - 1
      requires KindOfMapped(t, c) !in {KillLine, EraseOne, Stop, Start}
      modifies this, secondary`head, secondary`data, secondary.buf
      ensures secondary.Valid() && S() == CookBy(t, old(S()), KindOfMapped(t, c))
    {
      if t.isig {
        if c == t.intr {
          signals := signals + [Interrupt];
          return;
        }
        if c == t.quit {
          signals := signals + [Quit];
          return;
        }
      }
      if Ends(t, c) {
        secondary.data := secondary.data + 1;
      }
      secondary.PutChar(c);
    }

    /** One character of copy_to_cooked. */
    method CookOne(raw: Char)
      requires Valid() && |secondary.Items()| < SIZE - 1
      modifies this, secondary`head, secondary`data, secondary.buf
      ensures Valid() && S() == Cook(t, old(S()), raw) && readQ.Items() == old(readQ.Items())
    {
      CookKeepsCount(t, S(), raw);
      var c := raw;
      if c == 13 {
        if t.crnl {
          c := 10;
        } else if t.nocr {
          return;
        }
      } else if c == 10 && t.nlcr {
        c := 13;
      }
      var done := Canonical(c);
      if !done {
        Ordinary(c);
      }
    }

    /** copy_to_cooked. It leaves input waiting only when the secondary queue is full. */
    method CopyToCooked()
      requires Valid()
      modifies this, readQ`tail, secondary, secondary.buf
      ensures Valid()
      ensures (S(), readQ.Items()) == CookAll(t, old(S()), old(readQ.Items()))
      ensures readQ.Items() == [] || |secondary.Items()| == SIZE - 1
    {
      ghost var s, input := S(), readQ.Items();
      CookAllKeepsCount(t, s, input);
      readQ.EmptyIff();
      var room := secondary.Left();
      while readQ.head != readQ.tail && room > 0
        invariant Valid() && room == SIZE - 1 - |secondary.Items()|
        invariant CookAll(t, S(), readQ.Items()) == CookAll(t, s, input)
        decreases |readQ.Items()|
      {
        var c := readQ.Get();
        CookOne(c);
        room := secondary.Left();
        readQ.EmptyIff();
      }
      readQ.EmptyIff();
    }

    /** GETCH in tty_read, and the count that goes with it. */
    method DequeueOne() returns (c: Char)
      requires Valid() && secondary.head != secondary.tail
      modifies secondary
      ensures Valid() && old(secondary.Items()) == [c] + secondary.Items()
    {
      ghost var was := secondary.Items();
      c := secondary.Get();
      assert was[0] == c && was[1..] == secondary.Items();
      if Ends(t, c) {
        secondary.data := secondary.data - 1;
      }
    }

    /** The do-while loop of tty_read; `eof` when it ended with an end-of-file character. */
    method Dequeue(nr: nat) returns (out: seq<Char>, eof: bool)
      requires Valid() && nr > 0 && secondary.Items() != []
      modifies secondary
      ensures Valid()
      ensures Taken(out, secondary.Items(), eof) == TakeSome(t, old(secondary.Items()), nr)
    {
      ghost var line := secondary.Items();
      out, eof := [], false;
      var left: int := nr;
      secondary.EmptyIff();
      while left > 0 && secondary.head != secondary.tail
        invariant 0 <= left && Valid()
        invariant var r := TakeSome(t, secondary.Items(), left);
                  TakeSome(t, line, nr) == Taken(out + r.out, r.rest, r.eof)
        decreases left
      {
        ghost var r := TakeSome(t, secondary.Items(), left);
        var c := DequeueOne();
        if c == t.eof && t.canon {
          eof := true;
          return;
        }
        ghost var r1 := TakeSome(t, secondary.Items(), left - 1);
        assert out + r.out == (out + [c]) + r1.out;
        out := out + [c];
        left := left - 1;
      }
      secondary.EmptyIff();
    }
  }
}
