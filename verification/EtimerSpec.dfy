/** What utils/src/etimer.c and utils/src/timer.c do, as functions on values. */
module EtimerSpec {
  import opened Common
  import opened LinkedList
  import EvprocSpec

  /** start and interval are 32-bit words of ticks. */
  datatype Timer = Timer(start: nat, interval: nat, active: bool)

  predicate InWords(t: Timer) {
    t.start < WORD && t.interval < WORD
  }

  /** The time since start, counted modulo 2^32, is above the interval. */
  predicate Expired(t: Timer, now: nat)
    requires InWords(t) && now < WORD
  {
    t.interval < (now - t.start) % WORD
  }

  /** A timer has expired from the first tick after its interval on, whether or not the tick
      counter wraps meanwhile, until the counter has gone round. */
  lemma ExpiredAfterInterval(t: Timer, k: nat)
    requires InWords(t) && k < WORD
    ensures Expired(t, (t.start + k) % WORD) <==> k > t.interval
  {
    if t.start + k < WORD {
      assert (t.start + k) % WORD == t.start + k;
    } else {
      assert (t.start + k) % WORD == t.start + k - WORD && (k - WORD) % WORD == k;
    }
  }

  /** After timer_reset the time that has passed counts on from the expiry, without drift. */
  lemma ResetKeepsPhase(t: Timer, now: nat)
    requires InWords(t) && now < WORD && Expired(t, now)
    ensures var late := (now - t.start) % WORD - t.interval;
      var u := t.(start := (t.start + t.interval) % WORD);
      InWords(u) && (now - u.start) % WORD == late
  {
    var e := (now - t.start) % WORD;
    if t.start + t.interval < WORD {
      assert (now - (t.start + t.interval)) % WORD == e - t.interval;
    } else {
      assert (now - (t.start + t.interval - WORD)) % WORD == e - t.interval;
    }
  }

  // ---------------------------------------------------------------- A poll of the timer list

  /** The items among the first k that are not due, in order. */
  function Kept<T>(items: seq<T>, due: seq<bool>, k: nat): (r: seq<T>)
    requires |due| == |items| && k <= |items|
    ensures |r| <= k && forall i | 0 <= i < |r| :: r[i] in items[..k]
  {
    if k == 0 then []
    else
      assert items[..k] == items[..k - 1] + [items[k - 1]];
      Kept(items, due, k - 1) + if due[k - 1] then [] else [items[k - 1]]
  }

  /** The queue after a poll has found the first k items: each one due is put at the tail. */
  function Queued<T(==)>(q: seq<EvprocSpec.Event<T>>, items: seq<T>, due: seq<bool>, k: nat)
    : seq<EvprocSpec.Event<T>>
    requires |due| == |items| && k <= |items|
  {
    if k == 0 then q
    else
      var p := Queued(q, items, due, k - 1);
      if due[k - 1] then EvprocSpec.PutTail(p, Expiry(items[k - 1])).0 else p
  }

  function Expiry<T>(x: T): EvprocSpec.Event<T> {
    EvprocSpec.Event(EvprocSpec.EVENT_TYPE_TIMER_EXP, x)
  }

  lemma KeptStep<T>(items: seq<T>, due: seq<bool>, k: nat)
    requires |due| == |items| && k < |items|
    ensures Kept(items, due, 0) == []
    ensures Kept(items, due, k + 1) == Kept(items, due, k) + if due[k] then [] else [items[k]]
  {}

  /** What stays on the list is exactly what is not due. */
  lemma {:induction false} KeptIsNotDue<T>(items: seq<T>, due: seq<bool>, k: nat, i: nat)
    requires |due| == |items| && i < k <= |items| && Distinct(items)
    ensures items[i] in Kept(items, due, k) <==> !due[i]
    ensures Distinct(Kept(items, due, k))
  {
    hide Kept;
    KeptStep(items, due, k - 1);
    KeptNotYet(items, due, k - 1, k - 1);
    if k > 1 {
      KeptIsNotDue(items, due, k - 1, if i < k - 1 then i else 0);
    }
  }

  lemma KeptNotYet<T>(items: seq<T>, due: seq<bool>, k: nat, i: nat)
    requires |due| == |items| && k <= i < |items| && Distinct(items)
    ensures items[i] !in Kept(items, due, k)
  {}

  /** The events, in list order, of the items among the first k that are due with no event in
      q yet. */
  function Fresh<T(==)>(q: seq<EvprocSpec.Event<T>>, items: seq<T>, due: seq<bool>, k: nat)
    : seq<EvprocSpec.Event<T>>
    requires |due| == |items| && k <= |items|
  {
    if k == 0 then []
    else
      Fresh(q, items, due, k - 1)
        + if due[k - 1] && Expiry(items[k - 1]) !in q then [Expiry(items[k - 1])] else []
  }

  /** Every due item among the first k has its event in the queue p. */
  ghost predicate AllQueued<T>(p: seq<EvprocSpec.Event<T>>, items: seq<T>, due: seq<bool>, k: nat)
    requires |due| == |items| && k <= |items|
  {
    forall i | 0 <= i < k && due[i] :: Expiry(items[i]) in p
  }

  lemma {:induction false} QueuedMembers<T>(q: seq<EvprocSpec.Event<T>>, items: seq<T>, due: seq<bool>, k: nat)
    requires |due| == |items| && k <= |items| && Distinct(items) && |q| <= EvprocSpec.QUEUE_SIZE
    ensures var p := Queued(q, items, due, k);
      && |p| <= EvprocSpec.QUEUE_SIZE
      && (forall e | e in q :: e in p)
      && (forall i | k <= i < |items| && Expiry(items[i]) !in q :: Expiry(items[i]) !in p)
  {
    if k > 0 {
      QueuedMembers(q, items, due, k - 1);
    }
  }

  /** A poll gets the event of every expired timer into the queue exactly when there is room
      for those that are not in it already.  The timers that find no room are taken off the
      list all the same. */
  lemma {:induction false} AllQueuedIffRoom<T>(
      q: seq<EvprocSpec.Event<T>>, items: seq<T>, due: seq<bool>, k: nat)
    requires |due| == |items| && k <= |items| && Distinct(items) && |q| <= EvprocSpec.QUEUE_SIZE
    ensures var p := Queued(q, items, due, k);
      && (AllQueued(p, items, due, k) <==> |q| + |Fresh(q, items, due, k)| <= EvprocSpec.QUEUE_SIZE)
      && (AllQueued(p, items, due, k) ==> |p| == |q| + |Fresh(q, items, due, k)|)
      && (!AllQueued(p, items, due, k) ==> |p| == EvprocSpec.QUEUE_SIZE)
  {
    if k > 0 {
      AllQueuedIffRoom(q, items, due, k - 1);
      QueuedMembers(q, items, due, k - 1);
      QueuedStep(q, items, due, k);
    }
  }

  lemma QueuedStep<T>(q: seq<EvprocSpec.Event<T>>, items: seq<T>, due: seq<bool>, k: nat)
    requires |due| == |items| && 0 < k <= |items| && Distinct(items) && |q| <= EvprocSpec.QUEUE_SIZE
    ensures var p, r := Queued(q, items, due, k - 1), Queued(q, items, due, k);
      && |p| <= EvprocSpec.QUEUE_SIZE
      && (AllQueued(r, items, due, k - 1) <==> AllQueued(p, items, due, k - 1))
      && (due[k - 1] ==>
            (Expiry(items[k - 1]) in r <==> Expiry(items[k - 1]) in q || |p| < EvprocSpec.QUEUE_SIZE)
            && |r| == if Expiry(items[k - 1]) in q || |p| == EvprocSpec.QUEUE_SIZE then |p| else |p| + 1)
  {
    QueuedMembers(q, items, due, k - 1);
  }

  /** With room, the events of the expired timers wait behind the others in list order: the
      queue is served from its end. */
  lemma {:induction false} QueuedInOrder<T>(
      q: seq<EvprocSpec.Event<T>>, items: seq<T>, due: seq<bool>, k: nat)
    requires |due| == |items| && k <= |items| && Distinct(items)
    requires |q| + |Fresh(q, items, due, k)| <= EvprocSpec.QUEUE_SIZE
    ensures Queued(q, items, due, k) == EvprocSpec.Reverse(Fresh(q, items, due, k)) + q
  {
    if k == 0 {
      assert EvprocSpec.Reverse<EvprocSpec.Event<T>>([]) == [];
    } else {
      hide EvprocSpec.Reverse;
      QueuedInOrder(q, items, due, k - 1);
      QueuedMembers(q, items, due, k - 1);
      var f := Fresh(q, items, due, k - 1);
      if due[k - 1] && Expiry(items[k - 1]) !in q {
        OneMore(f, q, Expiry(items[k - 1]));
      } else {
        assert f + [] == f;
      }
    }
  }

  lemma OneMore<X>(f: seq<X>, q: seq<X>, e: X)
    ensures EvprocSpec.Reverse(f + [e]) + q == [e] + (EvprocSpec.Reverse(f) + q)
  {
    EvprocSpec.ReverseJoin(f, [e]);
    assert [e][1..] == [];
    assert EvprocSpec.Reverse([e]) == [e];
  }

  /** The list after the first k items have been looked at. */
  function Rest<T>(items: seq<T>, due: seq<bool>, k: nat): seq<T>
    requires |due| == |items| && k <= |items|
  {
    Kept(items, due, k) + items[k..]
  }

  lemma RestSteps<T>(items: seq<T>, due: seq<bool>, k: nat)
    requires |due| == |items| && k < |items| && Distinct(items)
    ensures var r, at := Rest(items, due, k), |Kept(items, due, k)|;
      && at < |r| && r[at] == items[k]
      && (if at + 1 < |r| then k + 1 < |items| && r[at + 1] == items[k + 1] else k + 1 == |items|)
      && Rest(items, due, k + 1) == if due[k] then Without(r, items[k]) else r
  {
    hide Kept, Without;
    var r, at := Rest(items, due, k), |Kept(items, due, k)|;
    KeptStep(items, due, k);
    KeptNotYet(items, due, k, k);
    assert r[..at] == Kept(items, due, k);
    WithoutAt(r, at);
    assert r[at + 1..] == items[k + 1..];
  }

  lemma RestEnds<T>(items: seq<T>, due: seq<bool>)
    requires |due| == |items|
    ensures Rest(items, due, 0) == items && Rest(items, due, |items|) == Kept(items, due, |items|)
  {
    assert items[|items|..] == [] && items[0..] == items;
  }

  lemma NothingPolled<T>(items: seq<T>, due: seq<bool>, q: seq<EvprocSpec.Event<T>>)
    requires |due| == |items|
    ensures Queued(q, items, due, 0) == q
  {}

  /** The flag active does not matter for the expiry. */
  lemma SameExpiry(t: Timer, u: Timer, now: nat)
    requires InWords(t) && now < WORD && t.(active := false) == u.(active := false)
    ensures Expired(t, now) == Expired(u, now)
  {}
}
