/** Ring buffers with a head to put at and a tail to take from; head == tail means empty, so one
    place always stays free. Used by the terminal queues (include/linux/tty.h) and by pipes
    (include/linux/fs.h). */
module Ring {
  predicate InRing<T>(buf: seq<T>, head: nat, tail: nat) { head < |buf| && tail < |buf| }

  /** (head - tail) & (n - 1), for n a power of two. */
  function Used(n: nat, head: nat, tail: nat): int { if tail <= head then head - tail else head - tail + n }

  /** What waits in the ring, oldest first. */
  function Contents<T>(buf: seq<T>, head: nat, tail: nat): (r: seq<T>)
    requires InRing(buf, head, tail)
    ensures |r| == Used(|buf|, head, tail)
  {
    seq(Used(|buf|, head, tail), i requires 0 <= i < Used(|buf|, head, tail) =>
      if tail + i < |buf| then buf[tail + i] else buf[tail + i - |buf|])
  }

  lemma Size<T>(buf: seq<T>, head: nat, tail: nat)
    requires InRing(buf, head, tail)
    ensures |Contents(buf, head, tail)| == Used(|buf|, head, tail) < |buf|
  {
  }

  /** The place k further on, for a piece that ends at the end of the buffer at the latest. */
  function After(n: nat, at: nat, k: nat): nat { if at + k == n then 0 else at + k }

  /** Taking k items that lie in one piece. */
  lemma Take<T>(buf: seq<T>, head: nat, tail: nat, k: nat)
    requires InRing(buf, head, tail) && tail + k <= |buf| && k <= |Contents(buf, head, tail)|
    ensures After(|buf|, tail, k) < |buf|
    ensures Contents(buf, head, tail) == buf[tail..tail + k] + Contents(buf, head, After(|buf|, tail, k))
  {
  }

  /** Putting items that go into one piece of the free part. */
  lemma Put<T>(buf: seq<T>, head: nat, tail: nat, d: seq<T>, buf': seq<T>)
    requires InRing(buf, head, tail) && head + |d| <= |buf| && |Contents(buf, head, tail)| + |d| < |buf|
    requires buf' == buf[..head] + d + buf[head + |d|..]
    ensures After(|buf|, head, |d|) < |buf'| == |buf|
    ensures Contents(buf', After(|buf|, head, |d|), tail) == Contents(buf, head, tail) + d
  {
  }

  function Before(n: nat, at: nat): int { if at == 0 then n - 1 else at - 1 }

  /** Taking the newest item back. */
  lemma Back<T>(buf: seq<T>, head: nat, tail: nat)
    requires InRing(buf, head, tail) && head != tail
    ensures var c, h := Contents(buf, head, tail), Before(|buf|, head);
            0 <= h < |buf| && c != [] && buf[h] == c[|c| - 1] && Contents(buf, h, tail) == c[..|c| - 1]
  {
  }
}
