/** utils/src/evproc.c itself: the event array is shifted, pushed and popped in place. */
module Evproc {
  import opened Common
  import opened EvprocSpec

  datatype Action = AtHead | AtTail | Execute

  /** The module from its first evproc_init on.  ran is the history of callbacks run, each
      with the event it got. */
  class Processor<D(==)> {
    const nullData: D
    const evList: array<Event<D>>
    var queueSize: nat
    const types: array<nat>
    const regList: array2<nat>
    ghost var ran: seq<(nat, Event<D>)>

    ghost predicate Valid()
      reads this, evList, types, regList
    {
      && evList.Length == QUEUE_SIZE && queueSize <= QUEUE_SIZE
      && types.Length == EVENT_TYPE_MAX && (forall i | 0 <= i < EVENT_TYPE_MAX :: types[i] == i)
      && regList.Length0 == EVENT_TYPE_MAX && regList.Length1 == MAX_CALLBACK_COUNT
    }

    ghost function Queue(): seq<Event<D>>
      requires Valid()
      reads this, evList, types, regList
    {
      evList[..queueSize]
    }

    ghost function Row(kind: nat): (r: seq<nat>)
      requires kind < EVENT_TYPE_MAX
      requires regList.Length0 == EVENT_TYPE_MAX && regList.Length1 == MAX_CALLBACK_COUNT
      reads regList
    {
      seq(MAX_CALLBACK_COUNT, j requires 0 <= j < MAX_CALLBACK_COUNT reads regList => regList[kind, j])
    }

    /** The first evproc_init. */
    constructor (nullData: D)
      ensures Valid() && Queue() == [] && ran == [] && this.nullData == nullData
      ensures fresh(evList) && fresh(types) && fresh(regList)
      ensures forall k | 0 <= k < EVENT_TYPE_MAX :: Row(k) == seq(MAX_CALLBACK_COUNT, _ => 0)
    {
      this.nullData := nullData;
      evList := new Event<D>[QUEUE_SIZE](_ => Event(EVENT_TYPE_NONE, nullData));
      queueSize := 0;
      types := new nat[EVENT_TYPE_MAX](i => i);
      regList := new nat[EVENT_TYPE_MAX, MAX_CALLBACK_COUNT]((i, j) => 0);
      ran := [];
    }

    /** A further evproc_init.  It does not reset the queue's size: the events that wait turn
        into events of no type. */
    method Init()
      requires Valid()
      modifies evList, types, regList
      ensures Valid() && Queue() == seq(queueSize, _ => Event(EVENT_TYPE_NONE, nullData))
      ensures forall k | 0 <= k < EVENT_TYPE_MAX ::
          Row(k) == if k == EVENT_TYPE_STATUS_CHANGE then old(Row(k)) else seq(MAX_CALLBACK_COUNT, _ => 0)
    {
      for i := 0 to QUEUE_SIZE
        modifies evList
        invariant Valid()
        invariant forall k | 0 <= k < i :: evList[k] == Event(EVENT_TYPE_NONE, nullData)
      {
        evList[i] := Event(EVENT_TYPE_NONE, nullData);
      }
      for i := 0 to EVENT_TYPE_MAX
        modifies types, regList
        invariant Valid()
        invariant forall k, x | 0 <= k < EVENT_TYPE_MAX && 0 <= x < MAX_CALLBACK_COUNT ::
            regList[k, x] == if k < i && k != EVENT_TYPE_STATUS_CHANGE then 0 else old(regList[k, x])
      {
        if i != EVENT_TYPE_STATUS_CHANGE {
          ClearRow(i);
        }
      }
    }

    method ClearRow(i: nat)
      requires Valid() && i < EVENT_TYPE_MAX
      modifies types, regList
      ensures Valid()
      ensures forall k, x | 0 <= k < EVENT_TYPE_MAX && 0 <= x < MAX_CALLBACK_COUNT ::
          regList[k, x] == if k == i then 0 else old(regList[k, x])
    {
      types[i] := i;
      for j := 0 to MAX_CALLBACK_COUNT
        modifies regList
        invariant forall k, x | 0 <= k < EVENT_TYPE_MAX && 0 <= x < MAX_CALLBACK_COUNT ::
            regList[k, x] == if k == i && x < j then 0 else old(regList[k, x])
      {
        regList[i, j] := 0;
      }
    }

    /** _evproc_processEvent. */
    method ProcessEvent(kind: nat, data: D) returns (code: int)
      requires Valid()
      modifies `ran
      ensures kind < EVENT_TYPE_MAX ==>
        code == E_SUCCESS && ran == old(ran) + Runs(Dispatched(Row(kind)), Event(kind, data))
      ensures kind < EVENT_TYPE_MAX ==> forall n | FirstEmpty(Row(kind), n) :: RanFirst(old(ran), kind, data, n)
      ensures kind >= EVENT_TYPE_MAX ==> code == E_UNKNOWN_TYPE && ran == old(ran)
    {
      for i := 0 to EVENT_TYPE_MAX
        invariant kind >= i && ran == old(ran)
      {
        if types[i] == kind {
          RunRow(i, data);
          forall n | FirstEmpty(Row(kind), n) ensures RanFirst(old(ran), kind, data, n) {
            DispatchedIsPrefix(Row(kind), n);
          }
          return E_SUCCESS;
        }
      }
      code := E_UNKNOWN_TYPE;
    }

    /** Since ran was before, the first n callbacks of the row have run, in order. */
    ghost predicate RanFirst(before: seq<(nat, Event<D>)>, kind: nat, data: D, n: nat)
      requires Valid() && kind < EVENT_TYPE_MAX && n <= MAX_CALLBACK_COUNT
      reads this, evList, types, regList
    {
      && |ran| == |before| + n && ran[..|before|] == before
      && forall i | 0 <= i < n :: ran[|before| + i] == (regList[kind, i], Event(kind, data))
    }

    ghost function Runs(cbs: seq<nat>, e: Event<D>): (r: seq<(nat, Event<D>)>) {
      seq(|cbs|, i requires 0 <= i < |cbs| => (cbs[i], e))
    }

    method RunRow(kind: nat, data: D)
      requires Valid() && kind < EVENT_TYPE_MAX
      modifies `ran
      ensures ran == old(ran) + Runs(Dispatched(Row(kind)), Event(kind, data))
    {
      ghost var row, e := Row(kind), Event(kind, data);
      for j := 0 to MAX_CALLBACK_COUNT
        invariant j <= Count(row) && ran == old(ran) + Runs(row[..j], e)
      {
        if regList[kind, j] == 0 {
          assert row[j] == 0;
          return;
        } else {
          NotYet(row, j);
          ran := ran + [(regList[kind, j], e)];
          assert row[..j + 1] == row[..j] + [row[j]];
          assert Runs(row[..j + 1], e) == Runs(row[..j], e) + [(row[j], e)];
        }
      }
    }

    lemma {:induction false} NotYet(row: seq<nat>, j: nat)
      requires j < |row| && j <= Count(row) && row[j] != 0
      ensures j < Count(row)
    {}

    /** _evproc_lookupEvent. */
    method LookupEvent(kind: nat, data: D) returns (found: bool)
      requires Valid()
      ensures found == (Event(kind, data) in Queue())
    {
      if queueSize != 0 {
        for i := 0 to queueSize
          invariant Event(kind, data) !in evList[..i]
        {
          if evList[i].kind == kind && evList[i].data == data {
            assert evList[i] in Queue();
            return true;
          }
        }
      }
      return false;
    }

    /** evproc_putEvent. */
    method PutEvent(action: Action, kind: nat, data: D) returns (code: int)
      requires Valid()
      modifies `queueSize, evList, `ran
      ensures Valid()
      ensures action == AtHead ==>
        (Queue(), code) == PutHead(old(Queue()), Event(kind, data)) && ran == old(ran)
      ensures action == AtTail ==>
        (Queue(), code) == PutTail(old(Queue()), Event(kind, data)) && ran == old(ran)
      ensures action == Execute ==>
        && Queue() == old(Queue()) && code == E_SUCCESS
        && ran == old(ran) + if kind < EVENT_TYPE_MAX then Runs(Dispatched(Row(kind)), Event(kind, data)) else []
    {
      match action
      case AtHead =>
        if queueSize == QUEUE_SIZE {
          return E_END_OF_LIST;
        }
        var found := LookupEvent(kind, data);
        if kind < OBLIG_EVENT_PRIOR && found {
        } else {
          evList[queueSize] := Event(kind, data);
          queueSize := queueSize + 1;
          assert Queue() == old(Queue()) + [Event(kind, data)];
        }
        code := E_SUCCESS;
      case AtTail =>
        if queueSize == QUEUE_SIZE {
          return E_END_OF_LIST;
        }
        var found := LookupEvent(kind, data);
        if kind < OBLIG_EVENT_PRIOR && found {
        } else {
          PushFront(Event(kind, data));
        }
        code := E_SUCCESS;
      case Execute =>
        var c := ProcessEvent(kind, data);
        if c == 0 {
          return E_UNKNOWN_TYPE;
        }
        code := E_SUCCESS;
    }

    method PushFront(e: Event<D>)
      requires Valid() && queueSize < QUEUE_SIZE
      modifies `queueSize, evList
      ensures Valid() && Queue() == [e] + old(Queue())
    {
      var i := queueSize;
      while i > 0
        modifies evList
        invariant 0 <= i <= queueSize
        invariant forall k | 0 <= k <= queueSize ::
            evList[k] == if k <= i then old(evList[k]) else old(evList[k - 1])
      {
        evList[i] := evList[i - 1];
        i := i - 1;
      }
      evList[0] := e;
      queueSize := queueSize + 1;
    }

    /** evproc_nextEvent. */
    method NextEvent() returns (code: int)
      requires Valid()
      modifies `queueSize, evList, `ran
      ensures Valid()
      ensures var q := old(Queue());
        if q == [] then Queue() == [] && ran == old(ran) && code == E_QUEUE_EMPTY
        else
          var e := q[|q| - 1];
          && Queue() == q[..|q| - 1] && code == E_SUCCESS
          && ran == old(ran) + if e.kind < EVENT_TYPE_MAX then Runs(Dispatched(Row(e.kind)), e) else []
    {
      if queueSize > 0 {
        var nextEvent := evList[queueSize - 1];
        evList[queueSize - 1] := Event(0, nullData);
        queueSize := queueSize - 1;
        var c := ProcessEvent(nextEvent.kind, nextEvent.data);
        if c == 0 {
          return E_UNKNOWN_TYPE;
        }
        return E_SUCCESS;
      }
      return E_QUEUE_EMPTY;
    }

    /** evproc_regCallback. */
    method RegCallback(kind: nat, cb: nat) returns (code: int)
      requires Valid()
      modifies regList
      ensures Valid()
      ensures cb == 0 ==> code == E_INVALID_PARAM && SameRows(EVENT_TYPE_MAX)
      ensures cb != 0 && kind >= EVENT_TYPE_MAX ==> code == E_UNKNOWN_TYPE && SameRows(EVENT_TYPE_MAX)
      ensures cb != 0 && kind < EVENT_TYPE_MAX ==>
        (Row(kind), code) == Registered(old(Row(kind)), cb) && SameRows(kind)
    {
      if cb == 0 {
        return E_INVALID_PARAM;
      }
      for i := 0 to EVENT_TYPE_MAX
        invariant kind >= i && Valid() && SameRows(EVENT_TYPE_MAX)
      {
        if types[i] == kind {
          code := RegisterInRow(i, cb);
          return;
        }
      }
      code := E_UNKNOWN_TYPE;
    }

    /** Only the row of kind may have changed. */
    twostate predicate SameRows(kind: nat)
      requires regList.Length0 == EVENT_TYPE_MAX && regList.Length1 == MAX_CALLBACK_COUNT
      reads regList
    {
      forall k, x | 0 <= k < EVENT_TYPE_MAX && 0 <= x < MAX_CALLBACK_COUNT && k != kind ::
        regList[k, x] == old(regList[k, x])
    }

    method RegisterInRow(i: nat, cb: nat) returns (code: int)
      requires Valid() && i < EVENT_TYPE_MAX && cb != 0
      modifies regList
      ensures (Row(i), code) == Registered(old(Row(i)), cb) && SameRows(i)
    {
      ghost var row := Row(i);
      var pos := MAX_CALLBACK_COUNT;
      var j := 0;
      while j < MAX_CALLBACK_COUNT
        invariant 0 <= j <= MAX_CALLBACK_COUNT && cb !in row[..j] && Row(i) == row && SameRows(i)
        invariant pos == if Count(row) < j then Count(row) else MAX_CALLBACK_COUNT
      {
        if regList[i, j] == 0 && pos == MAX_CALLBACK_COUNT {
          assert row[j] == 0;
          pos := j;
        } else if pos == MAX_CALLBACK_COUNT {
          NotYet(row, j);
        }
        if regList[i, j] == cb {
          assert row[j] == cb;
          pos := MAX_CALLBACK_COUNT;
          break;
        }
        assert row[..j + 1] == row[..j] + [row[j]];
        j := j + 1;
      }
      if j < MAX_CALLBACK_COUNT {
        return E_FUNC_IN_LIST;
      } else if pos < MAX_CALLBACK_COUNT {
        assert row == row[..j];
        regList[i, pos] := cb;
        assert Row(i) == row[pos := cb];
        return E_SUCCESS;
      } else {
        assert row == row[..j];
        return E_END_OF_LIST;
      }
    }

    /** evproc_unregCallback. */
    method UnregCallback(kind: nat, cb: nat) returns (code: int)
      requires Valid()
      modifies regList
      ensures Valid()
      ensures kind >= EVENT_TYPE_MAX ==> code == E_UNKNOWN_TYPE && SameRows(EVENT_TYPE_MAX)
      ensures kind < EVENT_TYPE_MAX ==>
        (Row(kind), code) == Unregistered(old(Row(kind)), cb) && SameRows(kind)
    {
      for i := 0 to EVENT_TYPE_MAX
        invariant kind >= i && Valid() && SameRows(EVENT_TYPE_MAX)
      {
        if types[i] == kind {
          code := UnregisterInRow(i, cb);
          return;
        }
      }
      code := E_UNKNOWN_TYPE;
    }

    method UnregisterInRow(i: nat, cb: nat) returns (code: int)
      requires Valid() && i < EVENT_TYPE_MAX
      modifies regList
      ensures (Row(i), code) == Unregistered(old(Row(i)), cb) && SameRows(i)
    {
      ghost var row := Row(i);
      for j := 0 to MAX_CALLBACK_COUNT
        invariant cb !in row[..j] && Row(i) == row && SameRows(i)
      {
        if regList[i, j] == cb {
          assert row[j] == cb;
          FoundAt(row, cb, j);
          regList[i, j] := 0;
          assert Row(i) == row[j := 0];
          return E_SUCCESS;
        }
        assert row[..j + 1] == row[..j] + [row[j]];
      }
      assert row == row[..MAX_CALLBACK_COUNT];
      return E_NO_SUCH_FUNC;
    }

    lemma {:induction false} FoundAt(row: seq<nat>, cb: nat, j: nat)
      requires j < |row| && row[j] == cb && cb !in row[..j]
      ensures cb in row && IndexOf(row, cb) == j
    {
      if j > 0 {
        assert row[0] == row[..j][0];
        assert row[1..][..j - 1] == row[..j][1..];
        FoundAt(row[1..], cb, j - 1);
      }
    }
  }
}
