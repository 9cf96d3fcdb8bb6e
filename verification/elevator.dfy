/** The disk elevator of kernel/blk_drv/ll_rw_blk.c and blk.h: where a request is inserted, the
    order in which requests are served, and why none of them waits for ever. */
module Elevator {
  import opened Collections

  const READ := 0
  const WRITE := 1

  datatype Key = Key(cmd: nat, dev: nat, sector: nat)

  /** IN_ORDER: reads before writes, then by device and sector. */
  predicate InOrder(a: Key, b: Key) {
    a.cmd < b.cmd || (a.cmd == b.cmd && (a.dev < b.dev || (a.dev == b.dev && a.sector < b.sector)))
  }

  predicate Fits(tmp: Key, r: Key, next: Key) {
    (InOrder(tmp, r) || !InOrder(tmp, next)) && InOrder(r, next)
  }

  /** add_request on a queue that is not empty: behind the first element where r fits, or last. */
  function InsertBehind(q: seq<Key>, r: Key): (res: seq<Key>)
    requires q != []
    ensures multiset(res) == multiset(q) + multiset{r}
    ensures |res| == |q| + 1 && res[0] == q[0]
  {
    if |q| == 1 then [q[0], r]
    else if Fits(q[0], r, q[1]) then
      assert q == [q[0]] + q[1..];
      [q[0], r] + q[1..]
    else
      assert q == [q[0]] + q[1..];
      [q[0]] + InsertBehind(q[1..], r)
  }

  function Insert(q: seq<Key>, r: Key): (res: seq<Key>)
    ensures multiset(res) == multiset(q) + multiset{r}
  {
    if q == [] then [r] else InsertBehind(q, r)
  }

  /** How often the queue steps back: the number of sweeps it takes is one more. */
  function Descents(q: seq<Key>): nat {
    if |q| < 2 then 0
    else (if InOrder(q[0], q[1]) then 0 else 1) + Descents(q[1..])
  }

  lemma InsertedFrom(q: seq<Key>, r: Key, k: Key)
    requires q != [] && k in InsertBehind(q, r)
    ensures k in q || k == r
  {
    assert k in multiset(InsertBehind(q, r));
  }

  lemma {:induction false} DistinctInserted(q: seq<Key>, r: Key)
    requires Distinct(q) && r !in q
    ensures Distinct(Insert(q, r))
  {
    if |q| >= 2 && !Fits(q[0], r, q[1]) {
      DistinctInserted(q[1..], r);
      var rest := InsertBehind(q[1..], r);
      forall k | 0 <= k < |rest| ensures rest[k] != q[0] {
        InsertedFrom(q[1..], r, rest[k]);
      }
      DistinctCons(q[0], rest);
    } else if |q| >= 2 {
      DistinctCons(r, q[1..]);
      DistinctCons(q[0], [r] + q[1..]);
      assert [q[0], r] + q[1..] == [q[0]] + ([r] + q[1..]);
    }
  }

  lemma DistinctCons(k: Key, q: seq<Key>)
    requires Distinct(q) && k !in q
    ensures Distinct([k] + q)
  {
  }

  /** One sweep serves reads before writes, and each disk's blocks in ascending order. */
  lemma {:induction false} SweepOrder(q: seq<Key>, i: nat, j: nat)
    requires Distinct(q) && Descents(q) == 0 && i < j < |q|
    ensures !(q[i].cmd == WRITE && q[j].cmd == READ)
    ensures q[i].cmd == q[j].cmd ==> q[i].dev <= q[j].dev
    ensures q[i].cmd == q[j].cmd && q[i].dev == q[j].dev ==> q[i].sector < q[j].sector
    ensures InOrder(q[i], q[j])
    decreases |q|
  {
    if i > 0 {
      SweepOrder(q[1..], i - 1, j - 1);
    } else if j > 1 {
      SweepOrder(q[1..], 0, j - 1);
    }
  }

  /** A request that no gap of an ascending queue takes is smaller than the first, or larger than
      the last. */
  lemma {:induction false} InsertSorted(q: seq<Key>, r: Key)
    requires q != [] && Distinct(q) && r !in q && Descents(q) == 0
    ensures InOrder(q[0], r) ==> Descents(InsertBehind(q, r)) == 0
    ensures InOrder(r, q[0]) ==> Descents(InsertBehind(q, r)) == 1
  {
    if |q| >= 2 {
      var rest := q[1..];
      if Fits(q[0], r, q[1]) {
        assert ([q[0], r] + rest)[1..] == [r] + rest;
        assert ([r] + rest)[1..] == rest;
      } else {
        InsertSorted(rest, r);
        assert ([q[0]] + InsertBehind(rest, r))[1..] == InsertBehind(rest, r);
      }
    } else {
      assert [q[0], r][1..] == [r];
    }
  }

  /** However requests come in, the queue is at most two ascending sweeps. */
  lemma {:induction false} InsertKeepsTwoSweeps(q: seq<Key>, r: Key)
    requires Distinct(q) && r !in q && Descents(q) <= 1
    ensures Descents(Insert(q, r)) <= 1
  {
    if q != [] && Descents(q) == 0 {
      InsertSorted(q, r);
    } else if |q| >= 2 {
      var rest := q[1..];
      if Fits(q[0], r, q[1]) {
        assert ([q[0], r] + rest)[1..] == [r] + rest;
        assert ([r] + rest)[1..] == rest;
      } else {
        if Descents(rest) == 0 { InsertSorted(rest, r); } else { InsertKeepsTwoSweeps(rest, r); }
        assert ([q[0]] + InsertBehind(rest, r))[1..] == InsertBehind(rest, r);
      }
    }
  }

  // ----- waiting -----

  /** How many of the possible keys come before k. */
  ghost function Rank(u: set<Key>, k: Key): nat {
    |set x | x in u && InOrder(x, k)|
  }

  lemma RankGrows(u: set<Key>, a: Key, b: Key)
    requires a in u && InOrder(a, b)
    ensures Rank(u, a) < Rank(u, b)
  {
    var below := set x | x in u && InOrder(x, a);
    var above := set x | x in u && InOrder(x, b);
    assert below + {a} <= above;
    SubsetSize(below + {a}, above);
  }

  lemma RankBelow(u: set<Key>, k: Key)
    requires k in u
    ensures Rank(u, k) < |u|
  {
    var below := set x | x in u && InOrder(x, k);
    assert below + {k} <= u;
    SubsetSize(below + {k}, u);
  }

  /** The request is reached in the sweep under way: nothing steps back on the way to it. */
  predicate ThisSweep(q: seq<Key>, x: Key)
    requires x in q
  {
    q[0] == x || (InOrder(q[0], q[1]) && ThisSweep(q[1..], x))
  }

  /** An upper bound for the number of requests served before x. */
  ghost function Wait(u: set<Key>, q: seq<Key>, x: Key): int
    requires x in q
  {
    if ThisSweep(q, x) then Rank(u, x) - Rank(u, q[0]) else |u| - Rank(u, q[0]) + Rank(u, x)
  }

  predicate Within(u: set<Key>, q: seq<Key>) {
    forall i :: 0 <= i < |q| ==> q[i] in u
  }

  lemma {:induction false} SweepReaches(u: set<Key>, q: seq<Key>, x: Key)
    requires x in q && Within(u, q) && ThisSweep(q, x)
    ensures q[0] == x || InOrder(q[0], x)
    ensures Rank(u, q[0]) <= Rank(u, x)
  {
    if q[0] != x {
      SweepReaches(u, q[1..], x);
      RankGrows(u, q[0], x);
    }
  }

  lemma WaitBounds(u: set<Key>, q: seq<Key>, x: Key)
    requires x in q && Within(u, q)
    ensures 0 <= Wait(u, q, x) < 2 * |u|
  {
    RankBelow(u, x);
    RankBelow(u, q[0]);
    if ThisSweep(q, x) { SweepReaches(u, q, x); }
  }

  /** A newcomer is never put into the way of a request of the sweep under way, except among the
      keys the sweep still has to pass. */
  lemma {:induction false} InsertKeepsSweep(q: seq<Key>, r: Key, x: Key)
    requires x in q && x != r && ThisSweep(q, x)
    ensures x in InsertBehind(q, r) && ThisSweep(InsertBehind(q, r), x)
  {
    var res := InsertBehind(q, r);
    assert x in multiset(res);
    if q[0] != x {
      var rest := q[1..];
      if Fits(q[0], r, q[1]) {
        assert res[1..] == [r] + rest && ([r] + rest)[1..] == rest;
      } else {
        InsertKeepsSweep(rest, r, x);
        assert res[1..] == InsertBehind(rest, r);
      }
    }
  }

  lemma WaitInsert(u: set<Key>, q: seq<Key>, r: Key, x: Key)
    requires x in q && r !in q && r in u && Within(u, q)
    ensures x in Insert(q, r) && Within(u, Insert(q, r))
    ensures Wait(u, Insert(q, r), x) <= Wait(u, q, x)
  {
    var res := Insert(q, r);
    assert x in multiset(res);
    forall i | 0 <= i < |res| ensures res[i] in u {
      assert res[i] in multiset(q) + multiset{r};
    }
    RankBelow(u, q[0]);
    if ThisSweep(q, x) { InsertKeepsSweep(q, r, x); }
  }

  lemma {:induction false} SortedIsOneSweep(q: seq<Key>, x: Key)
    requires x in q && Descents(q) == 0
    ensures ThisSweep(q, x)
  {
    if q[0] != x {
      SortedIsOneSweep(q[1..], x);
    }
  }

  /** Serving a request brings every other one nearer. */
  lemma WaitPop(u: set<Key>, q: seq<Key>, x: Key)
    requires x in q && q[0] != x && Within(u, q) && Descents(q) <= 1
    ensures x in q[1..]
    ensures Wait(u, q[1..], x) < Wait(u, q, x)
  {
    if InOrder(q[0], q[1]) {
      RankGrows(u, q[0], q[1]);
    } else {
      SortedIsOneSweep(q[1..], x);
      RankBelow(u, q[0]);
    }
    if ThisSweep(q[1..], x) {
      SweepReaches(u, q[1..], x);
      RankBelow(u, q[0]);
    }
  }

  // ----- runs -----

  datatype Event = Add(r: Key) | Serve

  predicate CanRun(u: set<Key>, q: seq<Key>, run: seq<Event>)
    decreases |run|
  {
    run == [] ||
    match run[0]
    case Add(r) => r in u && r !in q && CanRun(u, Insert(q, r), run[1..])
    case Serve => q != [] && CanRun(u, q[1..], run[1..])
  }

  /** The keys that leave the head of the queue, in order. */
  function Served(u: set<Key>, q: seq<Key>, run: seq<Event>): seq<Key>
    requires CanRun(u, q, run)
    decreases |run|
  {
    if run == [] then []
    else
      match run[0]
      case Add(r) => Served(u, Insert(q, r), run[1..])
      case Serve => [q[0]] + Served(u, q[1..], run[1..])
  }

  function QueueAfter(u: set<Key>, q: seq<Key>, run: seq<Event>): seq<Key>
    requires CanRun(u, q, run)
    decreases |run|
  {
    if run == [] then q
    else
      match run[0]
      case Add(r) => QueueAfter(u, Insert(q, r), run[1..])
      case Serve => QueueAfter(u, q[1..], run[1..])
  }

  /** In every reachable state the queue is at most two ascending sweeps of distinct requests. */
  lemma {:induction false} TwoSweepsAlways(u: set<Key>, q: seq<Key>, run: seq<Event>)
    requires Distinct(q) && Descents(q) <= 1 && CanRun(u, q, run)
    ensures Distinct(QueueAfter(u, q, run)) && Descents(QueueAfter(u, q, run)) <= 1
    decreases |run|
  {
    if run != [] {
      match run[0]
      case Add(r) =>
        InsertKeepsTwoSweeps(q, r);
        DistinctInserted(q, r);
        TwoSweepsAlways(u, Insert(q, r), run[1..]);
      case Serve =>
        TwoSweepsAlways(u, q[1..], run[1..]);
    }
  }

  lemma {:induction false} WaitIsEnough(u: set<Key>, q: seq<Key>, run: seq<Event>, x: Key)
    requires Distinct(q) && Within(u, q) && Descents(q) <= 1 && CanRun(u, q, run) && x in q
    requires x !in Served(u, q, run)
    ensures |Served(u, q, run)| <= Wait(u, q, x)
    decreases |run|
  {
    WaitBounds(u, q, x);
    if run != [] {
      match run[0]
      case Add(r) =>
        InsertKeepsTwoSweeps(q, r);
        DistinctInserted(q, r);
        WaitInsert(u, q, r, x);
        WaitIsEnough(u, Insert(q, r), run[1..], x);
      case Serve =>
        WaitPop(u, q, x);
        assert Served(u, q, run) == [q[0]] + Served(u, q[1..], run[1..]);
        WaitIsEnough(u, q[1..], run[1..], x);
    }
  }

  /** No starvation: a queued request is among the next 2 * |u| served, u being all keys there can
      be, however many requests keep coming. */
  lemma NoStarvation(u: set<Key>, q: seq<Key>, run: seq<Event>, x: Key)
    requires Distinct(q) && Within(u, q) && Descents(q) <= 1 && CanRun(u, q, run) && x in q
    requires |Served(u, q, run)| >= 2 * |u|
    ensures x in Served(u, q, run)
  {
    if x !in Served(u, q, run) {
      WaitIsEnough(u, q, run, x);
      WaitBounds(u, q, x);
    }
  }
}
