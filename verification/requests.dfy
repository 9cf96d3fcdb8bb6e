/** The request slots and the linked queue of one block device: make_request, add_request and
    end_request, in place on the array request[]. */
module Requests {
  import opened Elevator

  const NR_REQUEST := 32
  /** Writes may use only the first two thirds of the slots. */
  const WRITE_SLOTS := NR_REQUEST * 2 / 3
  const NULL := -1

  /** A slot of request[]; `next` is the index of another slot or NULL, dev is -1 when it is free. */
  datatype Request = Request(dev: int, cmd: nat, sector: nat, next: int)

  function KeyOf(r: Request): Key {
    Key(r.cmd, if r.dev >= 0 then r.dev else 0, r.sector)
  }

  ghost function KeysOf(a: seq<Request>, q: seq<nat>): (ks: seq<Key>)
    requires forall i :: 0 <= i < |q| ==> q[i] < |a|
  {
    seq(|q|, i requires 0 <= i < |q| => KeyOf(a[q[i]]))
  }

  ghost predicate Link(a: seq<Request>, q: seq<nat>, i: nat) {
    i < |q| && q[i] < |a| && a[q[i]].next == if i + 1 < |q| then q[i + 1] else NULL
  }

  /** From `head` on the next fields spell out q. */
  ghost predicate Chain(a: seq<Request>, q: seq<nat>, head: int) {
    && (forall i :: 0 <= i < |q| ==> q[i] < |a|)
    && (forall i, j :: 0 <= i < j < |q| ==> q[i] != q[j])
    && head == (if q == [] then NULL else q[0])
    && (forall i :: 0 <= i < |q| ==> Link(a, q, i))
  }

  /** The gap behind index j does not take r. */
  predicate TooTight(q: seq<Key>, r: Key, j: nat) {
    j + 1 < |q| && !Fits(q[j], r, q[j + 1])
  }

  /** q with x put in behind index k. */
  ghost function Spliced<T>(q: seq<T>, k: nat, x: T): (r: seq<T>)
    requires k < |q|
    ensures |r| == |q| + 1
    ensures forall i :: 0 <= i < |r| ==> r[i] == if i <= k then q[i] else if i == k + 1 then x else q[i - 1]
  {
    q[..k + 1] + [x] + q[k + 1..]
  }

  lemma SplicedMembers<T>(q: seq<T>, k: nat, x: T)
    requires k < |q|
    ensures forall m :: m in Spliced(q, k, x) <==> m in q || m == x
  {
    forall m ensures m in Spliced(q, k, x) <==> m in q || m == x {
      assert q == q[..k + 1] + q[k + 1..];
    }
  }

  /** Inserting behind index k once all earlier gaps are too tight. */
  lemma {:induction false} InsertedAt(q: seq<Key>, r: Key, k: nat)
    requires k < |q|
    requires forall j: nat :: j < k ==> TooTight(q, r, j)
    requires k + 1 == |q| || !TooTight(q, r, k)
    ensures InsertBehind(q, r) == Spliced(q, k, r)
  {
    if k > 0 {
      assert TooTight(q, r, 0);
      forall j: nat | j < k - 1 ensures TooTight(q[1..], r, j) {
        assert TooTight(q, r, j + 1);
      }
      InsertedAt(q[1..], r, k - 1);
      SplicedCons(q, k, r);
    }
  }

  lemma SplicedCons(q: seq<Key>, k: nat, r: Key)
    requires 0 < k < |q|
    ensures Spliced(q, k, r) == [q[0]] + Spliced(q[1..], k - 1, r)
  {
  }

  lemma ChainInsert(a: seq<Request>, q: seq<nat>, head: int, n: nat, k: nat)
    requires Chain(a, q, head) && k < |q| && n < |a| && n !in q
    ensures var a' := a[n := a[n].(next := a[q[k]].next)];
            Chain(a'[q[k] := a'[q[k]].(next := n)], Spliced(q, k, n), head)
  {
    var a' := a[n := a[n].(next := a[q[k]].next)];
    var b, q' := a'[q[k] := a'[q[k]].(next := n)], Spliced(q, k, n);
    forall i | 0 <= i < |q'| ensures Link(b, q', i) {
      if i < k {
        assert Link(a, q, i);
        assert q[i] != q[k];
      } else if i > k + 1 {
        assert Link(a, q, i - 1);
        assert q[i - 1] != q[k];
      } else {
        assert Link(a, q, k);
      }
    }
  }

  lemma KeysInsert(a: seq<Request>, q: seq<nat>, head: int, n: nat, k: nat)
    requires Chain(a, q, head) && k < |q| && n < |a| && n !in q
    ensures var a' := a[n := a[n].(next := a[q[k]].next)];
            var b := a'[q[k] := a'[q[k]].(next := n)];
            && (forall m :: 0 <= m < |a| ==> b[m].dev == a[m].dev && b[m].cmd == a[m].cmd)
            && KeysOf(b, Spliced(q, k, n)) == Spliced(KeysOf(a, q), k, KeyOf(a[n]))
  {
    var a' := a[n := a[n].(next := a[q[k]].next)];
    var b := a'[q[k] := a'[q[k]].(next := n)];
    forall m | 0 <= m < |a| ensures KeyOf(b[m]) == KeyOf(a[m]) { }
  }

  lemma ChainTail(a: seq<Request>, q: seq<nat>, head: int)
    requires Chain(a, q, head) && q != []
    ensures var a' := a[q[0] := a[q[0]].(dev := -1)];
            && Chain(a', q[1..], a[q[0]].next)
            && KeysOf(a', q[1..]) == KeysOf(a, q)[1..]
            && (forall m :: m in q[1..] <==> m in q && m != q[0])
  {
    var a' := a[q[0] := a[q[0]].(dev := -1)];
    assert Link(a, q, 0);
    forall i | 0 <= i < |q| - 1 ensures Link(a', q[1..], i) {
      assert Link(a, q, i + 1);
      assert q[0] != q[i + 1];
    }
    forall m ensures m in q[1..] <==> m in q && m != q[0] {
      assert q == [q[0]] + q[1..];
      if m in q[1..] {
        var i :| 0 <= i < |q[1..]| && q[1..][i] == m;
        assert q[0] != q[i + 1];
      }
    }
  }

  /** Writing to a slot that is not queued. */
  lemma ChainOther(a: seq<Request>, q: seq<nat>, head: int, n: nat, r: Request)
    requires Chain(a, q, head) && n < |a| && n !in q
    ensures Chain(a[n := r], q, head) && KeysOf(a[n := r], q) == KeysOf(a, q)
  {
    var b := a[n := r];
    forall i | 0 <= i < |q| ensures Link(b, q, i) {
      assert Link(a, q, i);
    }
  }

  // ----- the state of one device -----

  /** The queue's slots are in use. */
  ghost predicate LinkedUp(a: seq<Request>, q: seq<nat>, head: int) {
    && |a| == NR_REQUEST
    && Chain(a, q, head)
    && (forall n :: n in q ==> n < NR_REQUEST && a[n].dev >= 0)
  }

  /** A slot is free exactly when it is not queued; the last third of the slots holds reads. */
  ghost predicate SlotsOk(a: seq<Request>, q: seq<nat>)
    requires |a| == NR_REQUEST
  {
    && (forall n: nat :: n < NR_REQUEST && n !in q ==> a[n].dev == -1)
    && (forall n: nat :: WRITE_SLOTS <= n < NR_REQUEST && n in q ==> a[n].cmd == READ)
  }

  /** The array after `req.next = tmp.next; tmp.next = req`. */
  function SplicedIn(a: seq<Request>, n: nat, tmp: nat): seq<Request>
    requires n < |a| && tmp < |a|
  {
    var a' := a[n := a[n].(next := a[tmp].next)];
    a'[tmp := a'[tmp].(next := n)]
  }

  ghost predicate OthersKept(a: seq<Request>, b: seq<Request>) {
    |b| == |a| && forall n: nat :: n < |a| ==> b[n].dev == a[n].dev && b[n].cmd == a[n].cmd
  }

  /** add_request behind index k of a queue that is not empty. */
  lemma AddKeeps(a: seq<Request>, q: seq<nat>, head: int, n: nat, k: nat)
    requires LinkedUp(a, q, head) && k < |q| && n < NR_REQUEST && n !in q && a[n].dev >= 0
    requires forall j: nat :: j < k ==> TooTight(KeysOf(a, q), KeyOf(a[n]), j)
    requires k + 1 == |q| || !TooTight(KeysOf(a, q), KeyOf(a[n]), k)
    ensures var b, q' := SplicedIn(a, n, q[k]), Spliced(q, k, n);
            && LinkedUp(b, q', head) && OthersKept(a, b)
            && (forall m :: m in q' <==> m in q || m == n)
            && KeysOf(b, q') == Insert(KeysOf(a, q), KeyOf(a[n]))
  {
    InsertedAt(KeysOf(a, q), KeyOf(a[n]), k);
    ChainInsert(a, q, head, n, k);
    KeysInsert(a, q, head, n, k);
    SplicedMembers(q, k, n);
  }

  /** add_request on an empty queue. */
  lemma AddFirst(a: seq<Request>, n: nat)
    requires |a| == NR_REQUEST && n < NR_REQUEST && a[n].dev >= 0
    ensures var b := a[n := a[n].(next := NULL)];
            LinkedUp(b, [n], n) && OthersKept(a, b) && KeysOf(b, [n]) == Insert([], KeyOf(a[n]))
  {
    assert Link(a[n := a[n].(next := NULL)], [n], 0);
  }

  /** The new request in slot n keeps the rules for the slots. */
  lemma SlotsAdd(a: seq<Request>, b: seq<Request>, q: seq<nat>, q': seq<nat>, n: nat)
    requires |a| == NR_REQUEST && n < NR_REQUEST && OthersKept(a, b)
    requires forall m: nat :: m < NR_REQUEST && m !in q && m != n ==> a[m].dev == -1
    requires forall m: nat :: WRITE_SLOTS <= m < NR_REQUEST && (m in q || m == n) ==> a[m].cmd == READ
    requires forall m :: m in q' <==> m in q || m == n
    ensures SlotsOk(b, q')
  {
  }

  class BlockDevice {
    const request: array<Request>
    var current: int
    ghost var queue: seq<nat>

    ghost predicate Linked()
      reads this, request
    {
      LinkedUp(request[..], queue, current)
    }

    ghost predicate Valid()
      reads this, request
    {
      Linked() && SlotsOk(request[..], queue)
    }

    ghost function Keys(): seq<Key>
      requires Linked()
      reads this, request
    {
      KeysOf(request[..], queue)
    }

    /** add_request's search: the first element that r may follow. */
    method FindGap(r: Key) returns (tmp: nat, ghost k: nat)
      requires Linked() && queue != []
      ensures k < |queue| && tmp == queue[k]
      ensures forall j: nat :: j < k ==> TooTight(Keys(), r, j)
      ensures k + 1 == |queue| || !TooTight(Keys(), r, k)
    {
      tmp, k := current, 0;
      while request[tmp].next != NULL
        invariant k < |queue| && tmp == queue[k]
        invariant forall j: nat :: j < k ==> TooTight(Keys(), r, j)
        decreases |queue| - k
      {
        assert Link(request[..], queue, k);
        if Fits(KeyOf(request[tmp]), r, KeyOf(request[request[tmp].next])) {
          return;
        }
        assert TooTight(Keys(), r, k);
        tmp, k := request[tmp].next, k + 1;
      }
      assert Link(request[..], queue, k);
    }

    /** add_request */
    method AddRequest(req: nat)
      requires Linked() && req < NR_REQUEST && req !in queue && request[req].dev >= 0
      modifies this`current, this`queue, request
      ensures Linked() && OthersKept(old(request[..]), request[..])
      ensures forall n :: n in queue <==> n in old(queue) || n == req
      ensures Keys() == Insert(old(Keys()), KeyOf(old(request[req])))
    {
      ghost var a := request[..];
      if current == NULL {
        AddFirst(a, req);
        request[req] := request[req].(next := NULL);
        current := req;
        queue := [req];
        assert request[..] == a[req := a[req].(next := NULL)];
        return;
      }
      var tmp: nat;
      ghost var k: nat;
      tmp, k := FindGap(KeyOf(request[req]));
      assert Keys() == KeysOf(a, queue) && KeyOf(a[req]) == KeyOf(request[req]);
      AddKeeps(a, queue, current, req, k);
      request[req] := request[req].(next := request[tmp].next);
      request[tmp] := request[tmp].(next := req);
      queue := Spliced(queue, k, req);
      assert request[..] == SplicedIn(a, req, tmp);
    }

    /** make_request for a locked buffer that needs the transfer: false when every slot open to
        this command is taken, and the source would sleep. */
    method MakeRequest(rw: nat, dev: nat, sector: nat) returns (ok: bool)
      requires Valid() && (rw == READ || rw == WRITE)
      modifies this`current, this`queue, request
      ensures Valid()
      ensures ok ==> Keys() == Insert(old(Keys()), Key(rw, dev, sector))
      ensures !ok ==> Keys() == old(Keys())
      ensures !ok <==> forall n: nat :: n < (if rw == READ then 32 else 21) ==> n in old(queue)
    {
      var i := if rw == READ then NR_REQUEST else WRITE_SLOTS;
      ghost var limit := i;
      while i > 0 && request[i - 1].dev >= 0
        invariant 0 <= i <= limit
        invariant forall j: nat :: i <= j < limit ==> j in queue
        modifies {}
      {
        i := i - 1;
      }
      if i == 0 {
        return false;
      }
      ok := true;
      Fill(i - 1, Request(dev, rw, sector, NULL));
    }

    /** "fill up the request-info, and add it to the queue" */
    method Fill(n: nat, r: Request)
      requires Valid() && n < NR_REQUEST && n !in queue && r.dev >= 0 && (n < WRITE_SLOTS || r.cmd == READ)
      modifies this`current, this`queue, request
      ensures Valid() && Keys() == Insert(old(Keys()), KeyOf(r))
    {
      ghost var a, q := request[..], queue;
      ChainOther(a, queue, current, n, r);
      request[n] := r;
      ghost var b := request[..];
      assert b == a[n := r];
      AddRequest(n);
      SlotsAdd(b, request[..], q, queue, n);
    }

    /** end_request: the head's slot becomes free. */
    method EndRequest()
      requires Valid() && queue != []
      modifies this`current, this`queue, request
      ensures Valid() && queue == old(queue)[1..]
      ensures Keys() == old(Keys())[1..]
    {
      ghost var a := request[..];
      ChainTail(a, queue, current);
      request[current] := request[current].(dev := -1);
      assert request[..] == a[queue[0] := a[queue[0]].(dev := -1)];
      current := request[current].next;
      queue := queue[1..];
    }
  }
}
