/** One hole of a file, and tasks that fill it at the same time (fs/inode.c): _bmap tests the place,
    new_block marks a zone and sleeps, and only then is the zone's number stored. */
module HoleRace {

  /** The number stored in the place, the zones marked for it, and what each task that is between
      test and store has in hand. */
  datatype Place = Place(zone: nat, marked: set<nat>, inHand: map<nat, nat>)

  datatype Event =
    | Begin(t: nat, z: nat)   // the place is 0, and new_block marks zone z
    | Store(t: nat)           // new_block is back
    | Clear                   // truncate

  const Hole := Place(0, {}, map[])

  predicate Enabled(s: Place, e: Event) {
    match e
    case Begin(t, z) => s.zone == 0 && t !in s.inHand && z != 0 && z !in s.marked
    case Store(t) => t in s.inHand
    case Clear => s.zone != 0
  }

  function Step(s: Place, e: Event): Place
    requires Enabled(s, e)
  {
    match e
    case Begin(t, z) => s.(marked := s.marked + {z}, inHand := s.inHand[t := z])
    case Store(t) => s.(zone := s.inHand[t], inHand := s.inHand - {t})
    case Clear => s.(zone := 0, marked := s.marked - {s.zone})
  }

  predicate Runs(s: Place, es: seq<Event>)
    decreases |es|
  {
    es == [] || (Enabled(s, es[0]) && Runs(Step(s, es[0]), es[1..]))
  }

  function End(s: Place, es: seq<Event>): Place
    requires Runs(s, es)
    decreases |es|
  {
    if es == [] then s else End(Step(s, es[0]), es[1..])
  }

  /** Zones marked used that the place does not name and nobody is about to store. */
  function Leaked(s: Place): set<nat> { s.marked - {s.zone} - s.inHand.Values }

  predicate Inv(s: Place) {
    && 0 !in s.marked && (s.zone != 0 ==> s.zone in s.marked)
    && (forall t :: t in s.inHand ==> s.inHand[t] in s.marked && s.inHand[t] != s.zone)
    && (forall t, u :: t in s.inHand && u in s.inHand && t != u ==> s.inHand[t] != s.inHand[u])
  }

  lemma ValuesGain(m: map<nat, nat>, t: nat, z: nat)
    requires t !in m
    ensures m[t := z].Values == m.Values + {z}
  {
    var r := m[t := z];
    assert r[t] == z;
    forall v | v in m.Values ensures v in r.Values {
      var u :| u in m && m[u] == v;
      assert r[u] == v;
    }
  }

  lemma ValuesLose(m: map<nat, nat>, t: nat)
    requires t in m
    ensures m.Values == (m - {t}).Values + {m[t]}
  {
    var r := m - {t};
    forall v | v in m.Values && v != m[t] ensures v in r.Values {
      var u :| u in m && m[u] == v;
      assert r[u] == v;
    }
  }

  /** A step leaks a zone if and only if it is a store into a place that is not 0 any more, and
      then the zone named there. */
  lemma StepLeaks(s: Place, e: Event)
    requires Inv(s) && Enabled(s, e)
    ensures Inv(Step(s, e))
    ensures Leaked(Step(s, e)) == Leaked(s) + if e.Store? && s.zone != 0 then {s.zone} else {}
  {
    var r := Step(s, e);
    match e
    case Begin(t, z) =>
      ValuesGain(s.inHand, t, z);
    case Store(t) =>
      ValuesLose(s.inHand, t);
    case Clear =>
      assert s.zone !in s.inHand.Values;
  }

  // ----- runs -----

  predicate NeverCleared(es: seq<Event>) {
    forall k :: 0 <= k < |es| ==> !es[k].Clear?
  }

  predicate StoredLast(es: seq<Event>, i: nat) {
    i < |es| && es[i].Store? && NeverCleared(es[i..])
  }

  /** Something has been stored, and the place has not been cleared since. */
  ghost predicate Filled(es: seq<Event>) {
    exists i: nat :: StoredLast(es, i)
  }

  /** The event at j stores over the one at i. */
  predicate StoresOver(es: seq<Event>, i: nat, j: nat) {
    && i < j < |es| && es[i].Store? && es[j].Store?
    && forall k :: i < k < j ==> !es[k].Clear?
  }

  ghost predicate StoresTwice(es: seq<Event>) {
    exists i: nat, j: nat :: StoresOver(es, i, j)
  }

  /** A store before which nothing has cleared the place. */
  predicate StoresFirst(es: seq<Event>, j: nat) {
    j < |es| && es[j].Store? && forall k :: 0 <= k < j ==> !es[k].Clear?
  }

  lemma FilledNext(es: seq<Event>)
    requires es != []
    ensures Filled(es) <==> Filled(es[1..]) || (es[0].Store? && NeverCleared(es[1..]))
    ensures NeverCleared(es) <==> !es[0].Clear? && NeverCleared(es[1..])
  {
    var rest := es[1..];
    if i: nat :| StoredLast(es, i) {
      if i > 0 {
        assert rest[i - 1..] == es[i..];
        assert StoredLast(rest, i - 1);
      } else {
        forall k | 0 <= k < |rest| ensures !rest[k].Clear? { assert es[0..][k + 1] == rest[k]; }
      }
    }
    if i: nat :| StoredLast(rest, i) {
      assert rest[i..] == es[i + 1..];
      assert StoredLast(es, i + 1);
    }
    if es[0].Store? && NeverCleared(rest) {
      assert es[0..] == [es[0]] + rest;
      assert StoredLast(es, 0);
    }
    if NeverCleared(es) {
      forall k | 0 <= k < |rest| ensures !rest[k].Clear? { assert es[k + 1] == rest[k]; }
    }
  }

  lemma {:induction false} FilledTells(s: Place, es: seq<Event>)
    requires Inv(s) && Runs(s, es)
    ensures Inv(End(s, es))
    ensures End(s, es).zone != 0 <==> Filled(es) || (s.zone != 0 && NeverCleared(es))
    decreases |es|
  {
    if es != [] {
      StepLeaks(s, es[0]);
      FilledNext(es);
      FilledTells(Step(s, es[0]), es[1..]);
    }
  }

  /** The store at the end of a call leaks a zone if and only if, since the call's test, another
      task's store has filled the place. */
  lemma StoreLeaksIff(s: Place, t: nat, z: nat, es: seq<Event>)
    requires Inv(s) && Enabled(s, Begin(t, z)) && Runs(Step(s, Begin(t, z)), es)
    requires Enabled(End(Step(s, Begin(t, z)), es), Store(t))
    ensures var s1 := End(Step(s, Begin(t, z)), es);
            Leaked(Step(s1, Store(t))) != Leaked(s1) <==> Filled(es)
  {
    StepLeaks(s, Begin(t, z));
    FilledTells(Step(s, Begin(t, z)), es);
    var s1 := End(Step(s, Begin(t, z)), es);
    StepLeaks(s1, Store(t));
    assert s1.zone !in Leaked(s1);
  }

  lemma TwiceOrFirst(es: seq<Event>)
    requires es != []
    ensures var rest := es[1..];
            && (StoresTwice(es) <==> StoresTwice(rest) || (es[0].Store? && exists j: nat :: StoresFirst(rest, j)))
            && ((exists j: nat :: StoresFirst(es, j)) <==>
                  es[0].Store? || (!es[0].Clear? && exists j: nat :: StoresFirst(rest, j)))
  {
    var rest := es[1..];
    if i: nat, j: nat :| StoresOver(es, i, j) {
      if i > 0 {
        assert StoresOver(rest, i - 1, j - 1);
      } else {
        assert StoresFirst(rest, j - 1);
      }
    }
    if i: nat, j: nat :| StoresOver(rest, i, j) { assert StoresOver(es, i + 1, j + 1); }
    if j: nat :| StoresFirst(rest, j) {
      if es[0].Store? { assert StoresOver(es, 0, j + 1); }
      if !es[0].Clear? { assert StoresFirst(es, j + 1); }
    }
    if es[0].Store? { assert StoresFirst(es, 0); }
    if j: nat :| StoresFirst(es, j) {
      if j > 0 { assert StoresFirst(rest, j - 1); }
    }
  }

  lemma {:induction false} LeaksFrom(s: Place, es: seq<Event>)
    requires Inv(s) && Runs(s, es)
    ensures Inv(End(s, es))
    ensures Leaked(End(s, es)) != {} <==>
              Leaked(s) != {} || StoresTwice(es) || (s.zone != 0 && exists j: nat :: StoresFirst(es, j))
    decreases |es|
  {
    if es != [] {
      StepLeaks(s, es[0]);
      TwiceOrFirst(es);
      LeaksFrom(Step(s, es[0]), es[1..]);
    }
  }

  /** A run leaks a zone if and only if it stores into the place twice with no truncation between. */
  lemma LeaksIff(es: seq<Event>)
    requires Runs(Hole, es)
    ensures Leaked(End(Hole, es)) != {} <==> StoresTwice(es)
  {
    LeaksFrom(Hole, es);
  }

  /** Two tasks find the hole, and the second one's store loses the zone of the first. */
  lemma LosesZone()
    ensures var es := [Begin(1, 100), Begin(2, 101), Store(1), Store(2)];
            Runs(Hole, es) && 100 in Leaked(End(Hole, es)) && End(Hole, es).zone == 101
  {
    var s2 := Step(Step(Hole, Begin(1, 100)), Begin(2, 101));
    var s3 := Step(s2, Store(1));
    var s4 := Step(s3, Store(2));
    var es := [Begin(1, 100), Begin(2, 101), Store(1), Store(2)];
    assert es[1..] == [Begin(2, 101), Store(1), Store(2)] && es[1..][1..] == [Store(1), Store(2)];
    assert es[1..][1..][1..] == [Store(2)] && es[1..][1..][1..][1..] == [];
    assert End(s3, [Store(2)]) == s4;
  }

  // ----- before the call -----

  /** No task is between test and store when one begins. */
  predicate OneAtATime(s: Place, es: seq<Event>)
    requires Runs(s, es)
    decreases |es|
  {
    es == [] || ((es[0].Begin? ==> s.inHand == map[]) && OneAtATime(Step(s, es[0]), es[1..]))
  }

  predicate Single(s: Place) {
    && (forall t, u :: t in s.inHand && u in s.inHand ==> t == u)
    && (s.zone != 0 ==> s.inHand == map[])
  }

  lemma {:induction false} SerialNeverLeaks(s: Place, es: seq<Event>)
    requires Inv(s) && Single(s) && Leaked(s) == {} && Runs(s, es) && OneAtATime(s, es)
    ensures Inv(End(s, es)) && Single(End(s, es)) && Leaked(End(s, es)) == {}
    decreases |es|
  {
    if es != [] {
      StepLeaks(s, es[0]);
      if es[0].Store? { assert s.zone == 0; assert Step(s, es[0]).inHand == map[]; }
      SerialNeverLeaks(Step(s, es[0]), es[1..]);
    }
  }

  predicate NoneBegins(es: seq<Event>) {
    forall k :: 0 <= k < |es| ==> !es[k].Begin?
  }

  /** Where two tasks have found the hole, both stores to come leak a zone. */
  lemma TwoLeak(s: Place, t: nat, u: nat)
    requires Inv(s) && t in s.inHand && u in s.inHand && t != u
    ensures Runs(s, [Store(t), Store(u)]) && Leaked(End(s, [Store(t), Store(u)])) != {}
  {
    var s1 := Step(s, Store(t));
    assert [Store(t), Store(u)][1..] == [Store(u)] && [Store(u)][1..] == [];
    StepLeaks(s, Store(t));
    StepLeaks(s1, Store(u));
    assert s1.zone in Leaked(Step(s1, Store(u)));
    assert End(s1, [Store(u)]) == Step(s1, Store(u));
  }

  /** Known before the call: with a task already on its way to a place from which nothing has been
      lost, one more that begins can lead to a loss without anyone else beginning; with none on
      its way it cannot. */
  lemma BeginIsSafeIff(s: Place, t: nat, z: nat)
    requires Inv(s) && Leaked(s) == {} && Enabled(s, Begin(t, z))
    ensures s.inHand == map[] <==>
              forall es :: Runs(Step(s, Begin(t, z)), es) && NoneBegins(es) ==>
                             Leaked(End(Step(s, Begin(t, z)), es)) == {}
  {
    var s1 := Step(s, Begin(t, z));
    StepLeaks(s, Begin(t, z));
    if s.inHand == map[] {
      forall es | Runs(s1, es) && NoneBegins(es) ensures Leaked(End(s1, es)) == {} {
        NoBeginIsSerial(s1, es);
        SerialNeverLeaks(s1, es);
      }
    } else {
      var u :| u in s.inHand;
      assert s1.inHand[u] == s.inHand[u];
      TwoLeak(s1, u, t);
      assert NoneBegins([Store(u), Store(t)]);
    }
  }

  lemma {:induction false} NoBeginIsSerial(s: Place, es: seq<Event>)
    requires Runs(s, es) && NoneBegins(es)
    ensures OneAtATime(s, es)
    decreases |es|
  {
    if es != [] {
      NoBeginIsSerial(Step(s, es[0]), es[1..]);
    }
  }
}
