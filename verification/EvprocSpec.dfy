/** What utils/src/evproc.c does, as functions on values.  D stands for event data pointers;
    callbacks are numbers, and 0 is the NULL pointer. */
module EvprocSpec {
  import opened Common

  const QUEUE_SIZE: nat := 20
  const OBLIG_EVENT_PRIOR: nat := 16
  const EVENT_TYPE_MAX: nat := 17
  const MAX_CALLBACK_COUNT: nat := 13
  const EVENT_TYPE_NONE: nat := 0xFF
  const EVENT_TYPE_TIMER_EXP: nat := 0
  const EVENT_TYPE_STATUS_CHANGE: nat := 15

  const E_UNKNOWN_TYPE: int := -4
  const E_NO_SUCH_FUNC: int := -3
  const E_INVALID_PARAM: int := -2
  const E_END_OF_LIST: int := -1
  const E_SUCCESS: int := 1
  const E_FUNC_IN_LIST: int := 2
  const E_QUEUE_EMPTY: int := 3

  datatype Event<D> = Event(kind: nat, data: D)

  // ---------------------------------------------------------------- The queue

  /** evproc_putEvent with E_EVPROC_HEAD: the event will be the next one out. */
  function PutHead<D(==)>(q: seq<Event<D>>, e: Event<D>): (seq<Event<D>>, int) {
    if |q| == QUEUE_SIZE then (q, E_END_OF_LIST)
    else if e.kind < OBLIG_EVENT_PRIOR && e in q then (q, E_SUCCESS)
    else (q + [e], E_SUCCESS)
  }

  /** evproc_putEvent with E_EVPROC_TAIL: the event waits for all the others. */
  function PutTail<D(==)>(q: seq<Event<D>>, e: Event<D>): (seq<Event<D>>, int) {
    if |q| == QUEUE_SIZE then (q, E_END_OF_LIST)
    else if e.kind < OBLIG_EVENT_PRIOR && e in q then (q, E_SUCCESS)
    else ([e] + q, E_SUCCESS)
  }

  /** What every run keeps: the queue fits, and no event of a type below 16 is in it twice. */
  ghost predicate QueueOk<D>(q: seq<Event<D>>) {
    && |q| <= QUEUE_SIZE
    && forall i, j | 0 <= i < j < |q| && q[i].kind < OBLIG_EVENT_PRIOR :: q[i] != q[j]
  }

  lemma PutKeeps<D>(q: seq<Event<D>>, e: Event<D>)
    requires QueueOk(q)
    ensures QueueOk(PutHead(q, e).0) && QueueOk(PutTail(q, e).0)
  {}

  lemma NextKeeps<D>(q: seq<Event<D>>)
    requires QueueOk(q) && q != []
    ensures QueueOk(q[..|q| - 1])
  {}

  // ---------------------------------------------------------------- Runs of the queue

  datatype Op<D> = Head(e: Event<D>) | Tail(e: Event<D>) | Next

  /** A queued event remembers whether it came in at the tail. */
  datatype Tagged<D> = Tagged(e: Event<D>, tail: bool)

  /** taken and served are the events that have gone into and come out of the queue. */
  datatype Run<D> = Run(queue: seq<Tagged<D>>, taken: seq<Tagged<D>>, served: seq<Tagged<D>>)

  function Events<D>(q: seq<Tagged<D>>): (r: seq<Event<D>>)
    ensures |r| == |q|
  {
    seq(|q|, i requires 0 <= i < |q| => q[i].e)
  }

  function IfTail<D>(x: Tagged<D>): seq<Event<D>> {
    if x.tail then [x.e] else []
  }

  function Tails<D>(q: seq<Tagged<D>>): seq<Event<D>> {
    if q == [] then [] else IfTail(q[0]) + Tails(q[1..])
  }

  function Reverse<D>(q: seq<D>): (r: seq<D>)
    ensures |r| == |q|
  {
    if q == [] then [] else Reverse(q[1..]) + [q[0]]
  }

  function Step<D(==)>(r: Run<D>, op: Op<D>): Run<D> {
    match op
    case Head(e) =>
      if |PutHead(Events(r.queue), e).0| == |r.queue| then r
      else Run(r.queue + [Tagged(e, false)], r.taken + [Tagged(e, false)], r.served)
    case Tail(e) =>
      if |PutTail(Events(r.queue), e).0| == |r.queue| then r
      else Run([Tagged(e, true)] + r.queue, r.taken + [Tagged(e, true)], r.served)
    case Next =>
      if r.queue == [] then r
      else Run(r.queue[..|r.queue| - 1], r.taken, r.served + [r.queue[|r.queue| - 1]])
  }

  function RunOf<D(==)>(r: Run<D>, ops: seq<Op<D>>): Run<D>
    decreases |ops|
  {
    if ops == [] then r else RunOf(Step(r, ops[0]), ops[1..])
  }

  /** The tags do not matter: a step does to the queue what the operation does. */
  lemma StepIsPut<D>(r: Run<D>, op: Op<D>)
    ensures Events(Step(r, op).queue) ==
      match op
      case Head(e) => PutHead(Events(r.queue), e).0
      case Tail(e) => PutTail(Events(r.queue), e).0
      case Next => if r.queue == [] then [] else Events(r.queue)[..|r.queue| - 1]
  {}

  lemma {:induction false} TailsJoin<D>(a: seq<Tagged<D>>, b: seq<Tagged<D>>)
    ensures Tails(a + b) == Tails(a) + Tails(b)
  {
    if a == [] {
      assert a + b == b;
    } else {
      hide IfTail;
      assert (a + b)[0] == a[0] && (a + b)[1..] == a[1..] + b;
      TailsJoin(a[1..], b);
    }
  }

  lemma {:induction false} ReverseJoin<D>(a: seq<D>, b: seq<D>)
    ensures Reverse(a + b) == Reverse(b) + Reverse(a)
  {
    if a == [] {
      assert a + b == b;
    } else {
      assert (a + b)[1..] == a[1..] + b;
      ReverseJoin(a[1..], b);
    }
  }

  /** What has been served, followed by what will be: of the events put at the tail, these
      are all, in the order they came. */
  ghost predicate FirstInFirstOut<D>(r: Run<D>) {
    Tails(r.served) + Tails(Reverse(r.queue)) == Tails(r.taken)
  }

  /** Nothing is lost and nothing comes out twice. */
  ghost predicate Conserved<D>(r: Run<D>) {
    multiset(r.served) + multiset(r.queue) == multiset(r.taken)
  }

  lemma OneTagged<D>(x: Tagged<D>)
    ensures Tails([x]) == (if x.tail then [x.e] else []) && Reverse([x]) == [x]
  {
    assert [x][1..] == [];
  }

  lemma HeadIsFifo<D>(r: Run<D>, x: Tagged<D>)
    requires FirstInFirstOut(r) && !x.tail
    ensures FirstInFirstOut(Run(r.queue + [x], r.taken + [x], r.served))
  {
    hide Tails, Reverse;
    OneTagged(x);
    TailsJoin(r.taken, [x]);
    ReverseJoin(r.queue, [x]);
    TailsJoin([x], Reverse(r.queue));
    assert [] + Tails(Reverse(r.queue)) == Tails(Reverse(r.queue));
    assert Tails(r.taken) + [] == Tails(r.taken);
  }

  lemma TailIsFifo<D>(r: Run<D>, x: Tagged<D>)
    requires FirstInFirstOut(r)
    ensures FirstInFirstOut(Run([x] + r.queue, r.taken + [x], r.served))
  {
    hide Tails, Reverse;
    OneTagged(x);
    TailsJoin(r.taken, [x]);
    ReverseJoin([x], r.queue);
    TailsJoin(Reverse(r.queue), [x]);
  }

  lemma NextIsFifo<D>(r: Run<D>, rest: seq<Tagged<D>>, x: Tagged<D>)
    requires FirstInFirstOut(r) && r.queue == rest + [x]
    ensures FirstInFirstOut(Run(rest, r.taken, r.served + [x]))
  {
    hide Tails, Reverse;
    OneTagged(x);
    ReverseJoin(rest, [x]);
    TailsJoin([x], Reverse(rest));
    TailsJoin(r.served, [x]);
  }

  lemma StepIsFifo<D>(r: Run<D>, op: Op<D>)
    requires FirstInFirstOut(r) && Conserved(r)
    ensures FirstInFirstOut(Step(r, op)) && Conserved(Step(r, op))
  {
    hide FirstInFirstOut;
    match op
    case Head(e) => HeadIsFifo(r, Tagged(e, false));
    case Tail(e) => TailIsFifo(r, Tagged(e, true));
    case Next =>
      if r.queue != [] {
        var n := |r.queue| - 1;
        assert r.queue == r.queue[..n] + [r.queue[n]];
        NextIsFifo(r, r.queue[..n], r.queue[n]);
      }
  }

  /** Over every run: the queue fits, obligatory types are not in it twice, tail events come
      out first in first out whatever is put at the head, and no event is lost or doubled. */
  lemma {:induction false} RunKeeps<D>(r: Run<D>, ops: seq<Op<D>>)
    requires QueueOk(Events(r.queue)) && FirstInFirstOut(r) && Conserved(r)
    ensures var t := RunOf(r, ops);
      QueueOk(Events(t.queue)) && FirstInFirstOut(t) && Conserved(t)
    decreases |ops|
  {
    hide Step, FirstInFirstOut, Conserved, QueueOk;
    if ops != [] {
      var op := ops[0];
      StepIsFifo(r, op);
      StepIsPut(r, op);
      match op {
        case Head(e) => PutKeeps(Events(r.queue), e);
        case Tail(e) => PutKeeps(Events(r.queue), e);
        case Next =>
          if r.queue != [] {
            NextKeeps(Events(r.queue));
          } else {
            assert Events(r.queue) == [];
          }
      }
      RunKeeps(Step(r, op), ops[1..]);
    }
  }

  // ---------------------------------------------------------------- The callback table

  /** The first index from which there is no callback, in a row of slots. */
  function Count(row: seq<nat>): (k: nat)
    ensures k <= |row| && (forall i | 0 <= i < k :: row[i] != 0) && (k < |row| ==> row[k] == 0)
  {
    if row == [] || row[0] == 0 then 0 else 1 + Count(row[1..])
  }

  /** Slot n is the first empty one, or there is none. */
  ghost predicate FirstEmpty(row: seq<nat>, n: nat) {
    n <= |row| && (forall i | 0 <= i < n :: row[i] != 0) && (n < |row| ==> row[n] == 0)
  }

  /** _evproc_processEvent runs the callbacks in front of the first empty slot. */
  function Dispatched(row: seq<nat>): seq<nat> {
    row[..Count(row)]
  }

  /** The callbacks in front of the first empty slot, each once and in order. */
  lemma DispatchedIsPrefix(row: seq<nat>, n: nat)
    requires FirstEmpty(row, n)
    ensures Dispatched(row) == row[..n]
  {
    assert n == Count(row);
  }

  /** evproc_regCallback on the row of a known type. */
  function Registered(row: seq<nat>, cb: nat): (seq<nat>, int)
    requires cb != 0
  {
    if cb in row then (row, E_FUNC_IN_LIST)
    else if Count(row) < |row| then (row[Count(row) := cb], E_SUCCESS)
    else (row, E_END_OF_LIST)
  }

  /** evproc_unregCallback on the row of a known type: the slot becomes empty. */
  function Unregistered(row: seq<nat>, cb: nat): (seq<nat>, int) {
    if cb in row then (row[IndexOf(row, cb) := 0], E_SUCCESS) else (row, E_NO_SUCH_FUNC)
  }

  /** No callback twice. */
  ghost predicate NoRepeats(row: seq<nat>) {
    forall i, j | 0 <= i < j < |row| && row[i] != 0 :: row[i] != row[j]
  }

  /** Every registered callback is reached. */
  ghost predicate ReachesAll(row: seq<nat>) {
    forall i | 0 <= i < |row| && row[i] != 0 :: i < Count(row)
  }

  lemma RegisterKeeps(row: seq<nat>, cb: nat)
    requires NoRepeats(row) && cb != 0
    ensures NoRepeats(Registered(row, cb).0)
    ensures ReachesAll(row) ==> ReachesAll(Registered(row, cb).0)
  {
    var r := Registered(row, cb).0;
    if cb !in row && Count(row) < |row| && ReachesAll(row) {
      forall i | 0 <= i < |r| && r[i] != 0 ensures i < Count(r) {
        assert i <= Count(row);
        NoHoleBelow(r, i);
      }
    }
  }

  lemma {:induction false} NoHoleBelow(row: seq<nat>, i: nat)
    requires i < |row| && forall k | 0 <= k <= i :: row[k] != 0
    ensures i < Count(row)
  {
    if i > 0 {
      NoHoleBelow(row[1..], i - 1);
    }
  }

  /** After an unregistration every remaining callback still runs exactly when the removed one
      was the last: the dispatch stops at the hole. */
  lemma UnregisterReachesAllIff(row: seq<nat>, cb: nat)
    requires NoRepeats(row) && ReachesAll(row) && cb != 0 && cb in row
    ensures ReachesAll(Unregistered(row, cb).0) <==> IndexOf(row, cb) == Count(row) - 1
    ensures NoRepeats(Unregistered(row, cb).0)
  {
    var k, r := IndexOf(row, cb), Unregistered(row, cb).0;
    assert k < Count(row);
    assert r[k] == 0;
    if k + 1 < Count(row) {
      assert r[k + 1] != 0;
    } else if k > 0 {
      NoHoleBelow(r, k - 1);
    }
  }
}
