/** read_pipe and write_pipe (fs/pipe.c): one page used as a ring, filled and emptied a piece at a
    time by tasks that may sleep between any two pieces. */
module Pipes {
  import opened Ring

  type Byte = b: nat | b < 256
  const PAGE := 4096

  class Pipe {
    const buf: array<Byte>
    var head: nat
    var tail: nat
    /** Everything write_pipe has taken over, and everything read_pipe has handed out. */
    ghost var accepted: seq<Byte>
    ghost var delivered: seq<Byte>

    ghost function Waiting(): seq<Byte>
      requires InRing(buf[..], head, tail)
      reads this, buf
    {
      Contents(buf[..], head, tail)
    }

    /** What has been delivered is a prefix of what was accepted, and the rest is in the ring. */
    ghost predicate Valid()
      reads this, buf
    {
      buf.Length == PAGE && InRing(buf[..], head, tail) && accepted == delivered + Waiting()
    }

    constructor ()
      ensures Valid() && accepted == [] && delivered == []
    {
      buf := new Byte[PAGE](_ => 0);
      head, tail := 0, 0;
      accepted, delivered := [], [];
    }

    /** PIPE_SIZE */
    method PipeSize() returns (size: nat)
      requires Valid()
      ensures size == |Waiting()| <= PAGE - 1
    {
      Size(buf[..], head, tail);
      size := (head - tail) % PAGE;
    }

    /** One round of the loop of read_pipe: the next piece, [] when it has to wait or to give up. */
    method ReadPiece(count: nat) returns (piece: seq<Byte>)
      requires Valid() && count > 0
      modifies this
      ensures Valid() && accepted == old(accepted) && delivered == old(delivered) + piece
      ensures |piece| <= count && (piece == [] <==> old(Waiting()) == [])
      ensures Waiting() == old(Waiting())[|piece|..] && piece == old(Waiting())[..|piece|]
    {
      var size := PipeSize();
      if size == 0 {
        return [];
      }
      var chars := PAGE - tail;
      if chars > count {
        chars := count;
      }
      if chars > size {
        chars := size;
      }
      Take(buf[..], head, tail, chars);
      var at := tail;
      ghost var waiting := Waiting();
      tail := (tail + chars) % PAGE;
      assert tail == After(PAGE, at, chars);
      piece := buf[at..at + chars];
      assert buf[..][at..at + chars] == piece;
      assert waiting == piece + Waiting();
      delivered := delivered + piece;
    }

    /** One round of the loop of write_pipe: how many of the bytes it took, 0 when the ring is full. */
    method WritePiece(data: seq<Byte>) returns (taken: nat)
      requires Valid() && data != []
      modifies this, buf
      ensures Valid() && delivered == old(delivered)
      ensures taken <= |data| && accepted == old(accepted) + data[..taken]
      ensures Waiting() == old(Waiting()) + data[..taken]
      ensures taken == 0 <==> |old(Waiting())| == PAGE - 1
    {
      var used := PipeSize();
      var size := PAGE - 1 - used;
      if size == 0 {
        return 0;
      }
      var chars := PAGE - head;
      if chars > |data| {
        chars := |data|;
      }
      if chars > size {
        chars := size;
      }
      PutPiece(data[..chars]);
      taken := chars;
    }

    /** The new head and the copy loop. */
    method PutPiece(d: seq<Byte>)
      requires Valid() && head + |d| <= PAGE && |Waiting()| + |d| < PAGE
      modifies this, buf
      ensures Valid() && delivered == old(delivered) && accepted == old(accepted) + d
      ensures Waiting() == old(Waiting()) + d
    {
      ghost var was := buf[..];
      ghost var next := was[..head] + d + was[head + |d|..];
      Put(was, head, tail, d, next);
      var at := head;
      head := (head + |d|) % PAGE;
      assert head == After(PAGE, at, |d|);
      forall i | 0 <= i < |d| {
        buf[at + i] := d[i];
      }
      assert buf[..] == next;
      accepted := accepted + d;
    }

    /** read_pipe as long as it need not wait: it leaves with what there is when there are no
        writers, or with all that was asked for. */
    method ReadPipe(count: nat) returns (read: seq<Byte>)
      requires Valid()
      modifies this
      ensures Valid() && accepted == old(accepted) && delivered == old(delivered) + read
      ensures var n := |old(Waiting())|; |read| == (if n < count then n else count) && read == old(Waiting())[..|read|]
    {
      ghost var waiting := Waiting();
      var left := count;
      read := [];
      while left > 0
        invariant 0 <= left <= count && |read| == count - left <= |waiting|
        invariant Valid() && accepted == old(accepted) && delivered == old(delivered) + read
        invariant read == waiting[..|read|] && Waiting() == waiting[|read|..]
        decreases left
      {
        var piece := ReadPiece(left);
        if piece == [] {
          return;
        }
        read := read + piece;
        left := left - |piece|;
      }
    }

    /** write_pipe as long as it need not wait. */
    method WritePipe(data: seq<Byte>) returns (written: nat)
      requires Valid()
      modifies this, buf
      ensures written <= |data| && Valid() && delivered == old(delivered) && accepted == old(accepted) + data[..written]
      ensures written == Min(|data|, PAGE - 1 - |old(Waiting())|)
    {
      ghost var n := |Waiting()|;
      Size(buf[..], head, tail);
      written := 0;
      while written < |data|
        invariant Valid() && written <= |data| && written <= PAGE - 1 - n && |Waiting()| == n + written
        invariant delivered == old(delivered) && accepted == old(accepted) + data[..written]
        decreases |data| - written
      {
        var k := WritePiece(data[written..]);
        if k == 0 {
          return;
        }
        assert data[..written] + data[written..][..k] == data[..written + k];
        Size(buf[..], head, tail);
        written := written + k;
      }
    }
  }

  // ----- any interleaving -----

  /** A ring and the two histories as values; a step is one piece by either side. */
  datatype State = State(buf: seq<Byte>, head: nat, tail: nat, accepted: seq<Byte>, delivered: seq<Byte>)

  datatype Step = Write(data: seq<Byte>) | Read(count: nat)

  ghost predicate Inv(s: State) {
    |s.buf| == PAGE && InRing(s.buf, s.head, s.tail) && s.accepted == s.delivered + Contents(s.buf, s.head, s.tail)
  }

  function Min(a: int, b: int): int { if a < b then a else b }

  function Piece(s: State, e: Step): nat
    requires InRing(s.buf, s.head, s.tail) && |s.buf| == PAGE
  {
    Size(s.buf, s.head, s.tail);
    var used := |Contents(s.buf, s.head, s.tail)|;
    match e
    case Write(d) => Min(Min(PAGE - s.head, |d|), PAGE - 1 - used)
    case Read(n) => Min(Min(PAGE - s.tail, n), used)
  }

  /** A piece is empty only when nothing is asked for, or the ring is full or empty. */
  lemma PieceMoves(s: State, d: seq<Byte>, n: nat)
    requires Inv(s)
    ensures Piece(s, Write(d)) == 0 <==> d == [] || |s.accepted| - |s.delivered| == 4095
    ensures Piece(s, Read(n)) == 0 <==> n == 0 || s.accepted == s.delivered
  {
    Size(s.buf, s.head, s.tail);
    assert s.accepted == s.delivered <==> Contents(s.buf, s.head, s.tail) == [];
  }

  function Apply(s: State, e: Step): State
    requires InRing(s.buf, s.head, s.tail) && |s.buf| == PAGE
  {
    var k := Piece(s, e);
    Size(s.buf, s.head, s.tail);
    match e
    case Write(d) =>
      State(s.buf[..s.head] + d[..k] + s.buf[s.head + k..], (s.head + k) % PAGE, s.tail, s.accepted + d[..k],
          s.delivered)
    case Read(_) =>
      State(s.buf, s.head, (s.tail + k) % PAGE, s.accepted, s.delivered + s.buf[s.tail..s.tail + k])
  }

  lemma WriteKeeps(s: State, d: seq<Byte>)
    requires Inv(s)
    ensures Inv(Apply(s, Write(d)))
  {
    var k := Piece(s, Write(d));
    Size(s.buf, s.head, s.tail);
    assert (s.head + k) % PAGE == After(PAGE, s.head, k);
    Put(s.buf, s.head, s.tail, d[..k], s.buf[..s.head] + d[..k] + s.buf[s.head + k..]);
  }

  lemma ReadKeeps(s: State, n: nat)
    requires Inv(s)
    ensures Inv(Apply(s, Read(n)))
  {
    var k := Piece(s, Read(n));
    Size(s.buf, s.head, s.tail);
    assert (s.tail + k) % PAGE == After(PAGE, s.tail, k);
    Take(s.buf, s.head, s.tail, k);
  }

  lemma StepKeeps(s: State, e: Step)
    requires Inv(s)
    ensures Inv(Apply(s, e))
  {
    match e
    case Write(d) => WriteKeeps(s, d);
    case Read(n) => ReadKeeps(s, n);
  }

  ghost function Run(s: State, es: seq<Step>): State
    requires Inv(s)
    decreases |es|
  {
    if es == [] then s else
      StepKeeps(s, es[0]);
      Run(Apply(s, es[0]), es[1..])
  }

  /** However readers and writers take turns, what comes out is a prefix of what went in, in order
      and without loss, and never more than 4095 bytes behind. */
  lemma {:induction false} FirstInFirstOut(s: State, es: seq<Step>)
    requires Inv(s)
    ensures var r := Run(s, es);
            && Inv(r) && r.delivered <= r.accepted
            && |r.accepted| - |r.delivered| == |Contents(r.buf, r.head, r.tail)| <= PAGE - 1
            && s.accepted <= r.accepted && s.delivered <= r.delivered
    decreases |es|
  {
    if es == [] {
      Size(s.buf, s.head, s.tail);
    } else {
      StepKeeps(s, es[0]);
      FirstInFirstOut(Apply(s, es[0]), es[1..]);
    }
  }
}
