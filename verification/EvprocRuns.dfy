/** What becomes of the events offered to utils/src/evproc.c, and which callbacks they reach. */
module EvprocRuns {
  import opened Common
  import opened EvprocSpec

  // ---------------------------------------------------------------- One event

  /** The event is of a type that may wait only once, and it waits already. */
  predicate Waits<D(==)>(q: seq<Event<D>>, e: Event<D>) {
    e.kind < OBLIG_EVENT_PRIOR && exists i | 0 <= i < |q| :: q[i] == e
  }

  /** An event is refused exactly when 20 events wait.  If it is accepted, it is in the queue:
      as the next one out, or behind all the others, or where it waited already. */
  lemma PutOutcome<D>(q: seq<Event<D>>, e: Event<D>)
    requires |q| <= 20
    ensures var (h, code) := PutHead(q, e);
      && (code == E_SUCCESS <==> |q| < 20) && (code == E_END_OF_LIST <==> |q| == 20)
      && (|h| == |q| + 1 <==> |q| < 20 && !Waits(q, e))
      && h == (if |q| < 20 && !Waits(q, e) then q + [e] else q)
      && (code == E_SUCCESS ==> e in h)
    ensures var (t, code) := PutTail(q, e);
      && (code == E_SUCCESS <==> |q| < 20) && (code == E_END_OF_LIST <==> |q| == 20)
      && (|t| == |q| + 1 <==> |q| < 20 && !Waits(q, e))
      && t == (if |q| < 20 && !Waits(q, e) then [e] + q else q)
      && (code == E_SUCCESS ==> e in t)
  {
    assert (q + [e])[|q|] == e && ([e] + q)[0] == e;
    assert Waits(q, e) <==> e.kind < OBLIG_EVENT_PRIOR && e in q;
  }

  /** A head event that was added is the next one served, whatever waits. */
  lemma HeadIsServedNext<D>(r: EvprocSpec.Run<D>, e: Event<D>)
    requires |r.queue| < 20 && !Waits(Events(r.queue), e)
    ensures var t := RunOf(r, [Head(e), Op.Next]);
      t.served == r.served + [Tagged(e, false)] && t.queue == r.queue
  {
    PutOutcome(Events(r.queue), e);
    var ops: seq<Op<D>> := [Head(e), Op.Next];
    var r1 := Step(r, Head(e));
    assert ops[1..] == [Op.Next] && [Op<D>.Next][1..] == [];
    assert r1.queue == r.queue + [Tagged(e, false)];
    assert r1.queue[..|r.queue|] == r.queue;
    assert RunOf(r, ops) == RunOf(r1, [Op.Next]) == Step(r1, Op.Next);
  }

  // ---------------------------------------------------------------- Whole runs

  /** The events that are offered while fewer than 20 wait, but for those of a type below 16
      that wait already. */
  function Offered<D(==)>(r: EvprocSpec.Run<D>, ops: seq<Op<D>>): seq<Tagged<D>>
    decreases |ops|
  {
    if ops == [] then []
    else
      (if !ops[0].Next? && |r.queue| < 20 && !Waits(Events(r.queue), ops[0].e)
       then [Tagged(ops[0].e, ops[0].Tail?)] else [])
      + Offered(Step(r, ops[0]), ops[1..])
  }

  lemma StepTakes<D>(r: EvprocSpec.Run<D>, op: Op<D>)
    requires |r.queue| <= 20
    ensures |Step(r, op).queue| <= 20
    ensures Step(r, op).taken == r.taken
      + if !op.Next? && |r.queue| < 20 && !Waits(Events(r.queue), op.e) then [Tagged(op.e, op.Tail?)] else []
  {
    hide Waits;
    if !op.Next? {
      PutOutcome(Events(r.queue), op.e);
    }
  }

  /** Over every run the queue takes all these events, in order, and no others. */
  lemma {:induction false} RunTakes<D>(r: EvprocSpec.Run<D>, ops: seq<Op<D>>)
    requires |r.queue| <= 20
    ensures |RunOf(r, ops).queue| <= 20
    ensures RunOf(r, ops).taken == r.taken + Offered(r, ops)
    decreases |ops|
  {
    hide Step, Waits;
    if ops != [] {
      StepTakes(r, ops[0]);
      RunTakes(Step(r, ops[0]), ops[1..]);
    }
  }

  // ---------------------------------------------------------------- The callbacks

  lemma FirstEmptyIsUnique(row: seq<nat>, m: nat, n: nat)
    requires FirstEmpty(row, m) && FirstEmpty(row, n)
    ensures m == n
  {}

  lemma FullIff(row: seq<nat>)
    ensures Count(row) == |row| <==> 0 !in row
  {}

  /** A registration is refused exactly when the callback is there already or the row is full;
      otherwise the callback goes into the first empty slot. */
  lemma RegisterOutcome(row: seq<nat>, cb: nat, n: nat)
    requires cb != 0 && FirstEmpty(row, n)
    ensures var (r, code) := Registered(row, cb);
      && (code == E_FUNC_IN_LIST <==> cb in row)
      && (code == E_SUCCESS <==> cb !in row && 0 in row)
      && (code == E_END_OF_LIST <==> cb !in row && 0 !in row)
      && (code == E_SUCCESS ==> n < |row| && r == row[n := cb])
      && (code != E_SUCCESS ==> r == row)
  {
    FirstEmptyIsUnique(row, n, Count(row));
    FullIff(row);
  }

  /** As long as no callback is behind a hole, a new one runs after all the others. */
  lemma RegisteredRunsLast(row: seq<nat>, cb: nat, n: nat)
    requires cb != 0 && cb !in row && n < |row| && FirstEmpty(row, n) && ReachesAll(row)
    ensures Dispatched(Registered(row, cb).0) == row[..n] + [cb]
  {
    RegisterOutcome(row, cb, n);
    assert row[n] in row;
    var r := row[n := cb];
    if n + 1 < |row| {
      FirstEmptyIsUnique(row, n, Count(row));
      assert r[n + 1] == row[n + 1] == 0;
    }
    assert FirstEmpty(r, n + 1);
    DispatchedIsPrefix(r, n + 1);
  }

  /** An unregistration empties the slot of the callback, and no other. */
  lemma UnregisterOutcome(row: seq<nat>, cb: nat)
    requires cb != 0
    ensures var (r, code) := Unregistered(row, cb);
      && (code == E_SUCCESS <==> cb in row) && (code == E_NO_SUCH_FUNC <==> cb !in row)
      && (NoRepeats(row) ==> cb !in r)
      && |r| == |row| && forall i | 0 <= i < |row| :: row[i] != cb ==> r[i] == row[i]
  {}
}
