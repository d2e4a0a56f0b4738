/** utils/src/rt_tmr.c itself: the doubly linked timer list, relinked in place. */
module RtTmr {
  import opened Common
  import opened RtTmrSpec

  /** struct s_rt_tmr, zeroed as rt_tmr_create asks for. */
  class Timer {
    var pnext: Timer?
    var pprev: Timer?
    var kind: Kind
    var period: nat
    var counter: nat
    var status: Status
    var hasCallback: bool

    constructor ()
      ensures pnext == null && pprev == null
      ensures ToRec() == Rec(OneShot, 0, 0, Init, false)
    {
      pnext, pprev := null, null;
      kind, period, counter, status, hasCallback := OneShot, 0, 0, Init, false;
    }

    function ToRec(): Rec
      reads `kind, `period, `counter, `status, `hasCallback
    {
      Rec(kind, period, counter, status, hasCallback)
    }
  }

  function Succ(q: seq<Timer>, i: nat): Timer? {
    if i + 1 < |q| then q[i + 1] else null
  }

  function Pred(q: seq<Timer>, i: nat): Timer? {
    if 0 < i <= |q| then q[i - 1] else null
  }

  lemma NeighboursAfterRemove(q: seq<Timer>, k: nat, i: nat) returns (j: nat)
    requires Distinct(q) && k < |q| && i < |q| - 1
    ensures j < |q| && RemoveAt(q, k)[i] == q[j] && q[j] != q[k]
    ensures Succ(RemoveAt(q, k), i) == if q[j] == Pred(q, k) then Succ(q, k) else Succ(q, j)
    ensures Pred(RemoveAt(q, k), i) == if q[j] == Succ(q, k) then Pred(q, k) else Pred(q, j)
  {
    j := if i < k then i else i + 1;
  }

  lemma NeighboursAfterInsert(q: seq<Timer>, k: nat, t: Timer, i: nat) returns (j: nat)
    requires Distinct(q) && k <= |q| && i <= |q| && i != k && t !in q
    ensures j < |q| && InsertAt(q, k, t)[i] == q[j] && q[j] != t
    ensures Succ(InsertAt(q, k, t), i) == if q[j] == Pred(q, k) then t else Succ(q, j)
    ensures Pred(InsertAt(q, k, t), i) == if q[j] == Pred(q, k + 1) then t else Pred(q, j)
  {
    j := if i < k then i else i - 1;
  }

  /** The module's variables.  timers are all timers the application owns; queue, fired and
      calls are history. */
  class TimerList {
    var head: Timer?
    var tail: Timer?
    var qty: nat
    var curTick: nat
    var calls: nat
    ghost var queue: seq<Timer>
    ghost var timers: set<Timer>
    ghost var fired: seq<(Timer, nat)>

    ghost function Recs(): map<Timer, Rec>
      reads `timers, timers`kind, timers`period, timers`counter, timers`status, timers`hasCallback
    {
      map t | t in timers :: t.ToRec()
    }

    ghost function Abs(): State<Timer>
      reads this, timers
    {
      State(curTick, queue, Recs(), fired, calls)
    }

    ghost predicate Ends()
      reads this
    {
      && Distinct(queue) && (forall i | 0 <= i < |queue| :: queue[i] in timers)
      && qty == |queue|
      && head == (if queue == [] then null else queue[0])
      && tail == (if queue == [] then null else queue[|queue| - 1])
    }

    ghost predicate Forward()
      reads this, timers`pnext
    {
      && (forall i {:trigger queue[i].pnext} | 0 <= i < |queue| ::
            queue[i] in timers && queue[i].pnext == Succ(queue, i))
      && (forall t {:trigger t.pnext} | t in timers && t !in queue :: t.pnext == null)
    }

    ghost predicate Backward()
      reads this, timers`pprev
    {
      && (forall i {:trigger queue[i].pprev} | 0 <= i < |queue| ::
            queue[i] in timers && queue[i].pprev == Pred(queue, i))
      && (forall t {:trigger t.pprev} | t in timers && t !in queue :: t.pprev == null)
    }

    /** Walking forward from head and backward from tail both give the queue, qty is its
        length, and the timers outside have no neighbours. */
    ghost predicate Linked()
      reads this, timers`pnext, timers`pprev
    {
      Ends() && Forward() && Backward()
    }

    ghost predicate Valid()
      reads this, timers
    {
      Linked() && WellFormed(Abs())
    }

    lemma PositionIs(recs: map<Timer, Rec>, q: seq<Timer>, counter: nat, p: nat)
      requires Known(q, recs) && p <= |q|
      requires forall i | 0 <= i < p :: recs[q[i]].counter < counter
      requires p < |q| ==> recs[q[p]].counter >= counter
      ensures Position(recs, q, counter) == p
    {}

    /** The search of rt_tmr_link: the first timer that is not earlier, or null. */
    method FindPlace(newTimer: Timer) returns (found: Timer?)
      requires Linked() && newTimer in timers
      ensures Known(queue, Recs())
      ensures found == Pred(queue, Position(Recs(), queue, newTimer.counter) + 1)
    {
      found := head;
      var ix := 0;
      while ix < qty
        invariant 0 <= ix <= |queue|
        invariant found == Pred(queue, ix + 1)
        invariant forall i | 0 <= i < ix :: queue[i].counter < newTimer.counter
      {
        if found.counter < newTimer.counter {
          assert queue[ix].pnext == Succ(queue, ix);
          found := found.pnext;
        } else {
          break;
        }
        ix := ix + 1;
      }
      PositionIs(Recs(), queue, newTimer.counter, ix);
    }

    /** The pointer writes of rt_tmr_link, and nothing else. */
    method LinkPointers(newTimer: Timer, found: Timer?, ghost k: nat)
      requires Linked() && newTimer in timers && newTimer !in queue
      requires k <= |queue| && found == Pred(queue, k + 1)
      modifies this`head, this`tail, timers`pnext, timers`pprev
      ensures forall t {:trigger t.pnext} | t in timers ::
        t.pnext == if t == newTimer then Pred(queue, k + 1) else if t == Pred(queue, k) then newTimer else old(t.pnext)
      ensures forall t {:trigger t.pprev} | t in timers ::
        t.pprev == if t == newTimer then Pred(queue, k) else if t == Pred(queue, k + 1) then newTimer else old(t.pprev)
      ensures head == (if k == 0 then newTimer else old(head))
      ensures tail == (if k == |queue| then newTimer else old(tail))
    {
      assert newTimer.pnext == null && newTimer.pprev == null;
      if head == null {
        head := newTimer;
        tail := newTimer;
      } else if found == null {
        tail.pnext := newTimer;
        newTimer.pprev := tail;
        tail := newTimer;
      } else if found == head {
        assert k == 0 && queue[0].pprev == Pred(queue, 0);
        newTimer.pnext := head;
        head.pprev := newTimer;
        head := newTimer;
      } else {
        assert queue[k].pprev == Pred(queue, k);
        found.pprev.pnext := newTimer;
        newTimer.pprev := found.pprev;
        newTimer.pnext := found;
        found.pprev := newTimer;
      }
    }

    method InsertBefore(newTimer: Timer, found: Timer?, ghost k: nat)
      requires Linked() && newTimer in timers && newTimer !in queue
      requires k <= |queue| && found == Pred(queue, k + 1)
      modifies this`head, this`tail, this`qty, this`queue, timers`pnext, timers`pprev
      ensures Linked() && queue == InsertAt(old(queue), k, newTimer)
    {
      ghost var q := queue;
      LinkPointers(newTimer, found, k);
      queue := InsertAt(q, k, newTimer);
      qty := qty + 1;
      InsertInjective(q, k, newTimer);
      assert Ends();
      InsertMembers(q, k, newTimer);
      assert Forward() by {
        forall i | 0 <= i < |queue| ensures queue[i].pnext == Succ(queue, i) {
          if i != k {
            var j := NeighboursAfterInsert(q, k, newTimer, i);
            assert old(q[j].pnext) == Succ(q, j);
          }
        }
      }
      assert Backward() by {
        forall i | 0 <= i < |queue| ensures queue[i].pprev == Pred(queue, i) {
          if i != k {
            var j := NeighboursAfterInsert(q, k, newTimer, i);
            assert old(q[j].pprev) == Pred(q, j);
          }
        }
      }
    }

    /** rt_tmr_link */
    method Link(newTimer: Timer)
      requires Linked() && newTimer in timers && newTimer !in queue
      modifies this`head, this`tail, this`qty, this`queue, timers`pnext, timers`pprev
      ensures Linked() && Recs() == old(Recs()) && Known(old(queue), old(Recs()))
      ensures queue == InsertAt(old(queue), Position(old(Recs()), old(queue), newTimer.counter), newTimer)
    {
      var found := FindPlace(newTimer);
      InsertBefore(newTimer, found, Position(Recs(), queue, newTimer.counter));
    }

    /** The pointer writes of rt_tmr_unlink, and nothing else. */
    method UnlinkPointers(rem: Timer, ghost k: nat)
      requires Linked() && k < |queue| && queue[k] == rem
      modifies this`head, this`tail, timers`pnext, timers`pprev
      ensures forall t {:trigger t.pnext} | t in timers ::
        t.pnext == if t == rem then null else if t == Pred(queue, k) then Succ(queue, k) else old(t.pnext)
      ensures forall t {:trigger t.pprev} | t in timers ::
        t.pprev == if t == rem then null else if t == Succ(queue, k) then Pred(queue, k) else old(t.pprev)
      ensures head == (if k == 0 then Succ(queue, 0) else old(head))
      ensures tail == (if k == |queue| - 1 then Pred(queue, k) else old(tail))
      ensures Recs() == old(Recs())
    {
      ghost var q := queue;
      assert rem.pnext == q[k].pnext == Succ(q, k) && rem.pprev == q[k].pprev == Pred(q, k);
      assert (rem == head <==> k == 0) && (rem == tail <==> k == |q| - 1);
      if rem == head {
        if rem.pnext == null {
          head := null;
          tail := null;
        } else {
          head := rem.pnext;
          rem.pnext.pprev := null;
        }
      } else if rem == tail {
        tail := rem.pprev;
        rem.pprev.pnext := null;
      } else {
        rem.pprev.pnext := rem.pnext;
        rem.pnext.pprev := rem.pprev;
      }
      rem.pnext := null;
      rem.pprev := null;
    }

    /** rt_tmr_unlink */
    method Unlink(rem: Timer)
      requires Linked() && rem in queue
      modifies this`head, this`tail, this`qty, this`queue, timers`pnext, timers`pprev
      ensures Linked() && Recs() == old(Recs())
      ensures queue == RemoveAt(old(queue), IndexOf(old(queue), rem))
    {
      ghost var q, k := queue, IndexOf(queue, rem);
      UnlinkPointers(rem, k);
      queue := RemoveAt(q, k);
      qty := qty - 1;
      assert Ends();
      RemoveMembers(q, k);
      assert Forward() by {
        forall i | 0 <= i < |queue| ensures queue[i].pnext == Succ(queue, i) {
          var j := NeighboursAfterRemove(q, k, i);
          assert old(q[j].pnext) == Succ(q, j);
        }
      }
      assert Backward() by {
        forall i | 0 <= i < |queue| ensures queue[i].pprev == Pred(queue, i) {
          var j := NeighboursAfterRemove(q, k, i);
          assert old(q[j].pprev) == Pred(q, j);
        }
      }
    }

    /** rt_tmr_init; the application has set all its timers to 0. */
    constructor (all: set<Timer>)
      requires forall t | t in all :: t.pnext == null && t.pprev == null && t.ToRec() == Rec(OneShot, 0, 0, Init, false)
      ensures Valid() && timers == all
      ensures Abs() == State(0, [], map t | t in all :: Rec(OneShot, 0, 0, Init, false), [], 0)
    {
      head, tail, curTick, qty, calls := null, null, 0, 0, 0;
      queue, fired, timers := [], [], all;
    }

    /** Only the record of t differs from before. */
    lemma RecsUpdated(before: map<Timer, Rec>, t: Timer)
      requires t in timers && before.Keys == timers
      requires forall u | u in timers && u != t :: before[u] == u.ToRec()
      ensures Recs() == before[t := t.ToRec()]
    {}

    /** The field writes of rt_tmr_create. */
    method Reset(t: Timer, kind: Kind, period: nat, hasCallback: bool)
      requires Linked() && t in timers && t !in queue && t.pnext == null && t.pprev == null
      modifies t
      ensures Linked() && Recs() == old(Recs())[t := Rec(kind, period, 0, Created, hasCallback)]
    {
      ghost var before := Recs();
      t.pnext, t.pprev := null, null;
      t.kind, t.period, t.counter := kind, period, 0;
      t.status := Created;
      t.hasCallback := hasCallback;
      RecsUpdated(before, t);
    }

    /** rt_tmr_create */
    method Create(t: Timer?, kind: Kind, period: nat, hasCallback: bool)
      requires Valid() && (t != null ==> t in timers)
      modifies timers
      ensures Valid()
      ensures Abs() == if t == null then old(Abs()) else DoCreate(old(Abs()), t, kind, period, hasCallback)
    {
      if t != null && period != 0 && (t.status == Init || t.status == Stopped) {
        NotQueued(t);
        CreateKeeps(Abs(), t, kind, period, hasCallback);
        Reset(t, kind, period, hasCallback);
      }
    }

    lemma NotQueued(t: Timer)
      requires Valid() && t in timers
      ensures t in queue <==> t.status == Running
      ensures t !in queue ==> t.pnext == null && t.pprev == null
    {
      assert t in Abs().recs;
    }

    method WriteStatus(t: Timer, status: Status)
      requires Linked() && t in timers
      modifies t`status
      ensures Linked() && t in old(Recs()) && Recs() == old(Recs())[t := old(Recs())[t].(status := status)]
    {
      ghost var before := Recs();
      t.status := status;
      RecsUpdated(before, t);
    }

    method WriteCounter(t: Timer)
      requires Linked() && t in timers
      modifies t`counter
      ensures Linked() && t in old(Recs())
      ensures Recs() == old(Recs())[t := old(Recs())[t].(counter := Add32(curTick, old(Recs())[t].period))]
    {
      ghost var before := Recs();
      t.counter := Add32(curTick, t.period);
      RecsUpdated(before, t);
    }

    /** The common part of rt_tmr_start and rt_tmr_update: a new counter, relinked, running. */
    method LinkAgain(t: Timer)
      requires Linked() && t in timers && t !in queue
      modifies this`head, this`tail, this`qty, this`queue, timers
      ensures Linked() && timers == old(timers) && curTick == old(curTick)
      ensures Known(old(queue), old(Recs()))
      ensures Abs() == SetStatus(RtTmrSpec.Link(SetCounter(old(Abs()), t), t), t, Running)
    {
      hide InsertAt, Position;
      WriteCounter(t);
      Link(t);
      WriteStatus(t, Running);
    }

    /** rt_tmr_start */
    method Start(t: Timer)
      requires Valid() && t in timers
      modifies this`head, this`tail, this`qty, this`queue, timers
      ensures Valid() && timers == old(timers)
      ensures Abs() == DoStart(old(Abs()), t)
    {
      if t.status == Created || t.status == Stopped {
        NotQueued(t);
        StartKeeps(Abs(), t);
        LinkAgain(t);
      }
    }

    /** The writes of rt_tmr_stop. */
    method Halt(t: Timer)
      requires Linked() && t in timers && (t.status == Running ==> t in queue)
      modifies this`head, this`tail, this`qty, this`queue, timers
      ensures Linked() && timers == old(timers)
      ensures Abs() == DoStop(old(Abs()), t)
    {
      if t.status == Running {
        Unlink(t);
      }
      WriteStatus(t, Stopped);
    }

    /** rt_tmr_stop */
    method Stop(t: Timer)
      requires Valid() && t in timers
      modifies this`head, this`tail, this`qty, this`queue, timers
      ensures Valid() && timers == old(timers)
      ensures Abs() == DoStop(old(Abs()), t)
    {
      NotQueued(t);
      StopKeeps(Abs(), t);
      Halt(t);
    }

    method Execute(c: Command<Timer>, ghost max: nat)
      requires Valid() && NoWrap(Abs(), max) && CommandOk(c, timers, max)
      modifies this`head, this`tail, this`qty, this`queue, timers
      ensures Valid() && timers == old(timers)
      ensures Abs() == Do(old(Abs()), c)
    {
      match c
      case Create(t, kind, period, hasCallback) => Create(t, kind, period, hasCallback);
      case Start(t) => Start(t);
      case Stop(t) => Stop(t);
    }

    /** A callback: any sequence of API calls. */
    method RunCallback(cs: seq<Command<Timer>>, ghost max: nat)
      requires Valid() && NoWrap(Abs(), max) && CommandsOk(cs, timers, max)
      modifies this`head, this`tail, this`qty, this`queue, timers
      ensures Valid() && timers == old(timers)
      ensures Abs() == Exec(old(Abs()), cs, max)
      decreases |cs|
    {
      if cs != [] {
        assert CommandOk(cs[0], timers, max);
        ghost var s := Abs();
        DoKeeps(s, cs[0], max);
        Execute(cs[0], max);
        RunCallback(cs[1..], max);
      }
    }

    lemma TailIsRemove(q: seq<Timer>)
      requires q != [] && Distinct(q)
      ensures RemoveAt(q, IndexOf(q, q[0])) == q[1..] && q[0] !in q[1..]
    {}

    method DetachHead(t: Timer)
      requires Linked() && queue != [] && t == queue[0]
      modifies this`head, this`tail, this`qty, this`queue, timers
      ensures Linked() && timers == old(timers) && Known(old(queue), old(Recs()))
      ensures t !in queue && Abs() == Detach(old(Abs()))
    {
      TailIsRemove(queue);
      WriteStatus(t, Triggered);
      Unlink(t);
    }

    method SettleExpired(t: Timer)
      requires Linked() && t in timers && t !in queue
      modifies this`head, this`tail, this`qty, this`queue, timers
      ensures Linked() && timers == old(timers) && Known(old(queue), old(Recs()))
      ensures Abs() == Settle(old(Abs()), t)
    {
      if t.kind == Periodic {
        LinkAgain(t);
      } else {
        WriteStatus(t, Stopped);
      }
    }

    /** The history of expiries. */
    ghost method Record(t: Timer)
      requires Linked()
      modifies this`fired
      ensures Linked() && Abs() == old(Abs()).(fired := old(fired) + [(t, curTick)])
    {
      fired := fired + [(t, curTick)];
    }

    lemma HeadFacts(t: Timer)
      requires Linked() && queue != [] && head == t
      ensures t == queue[0] && t in timers && Known(queue, Recs())
    {}

    method ExpireLinked() returns (t: Timer)
      requires Linked() && queue != []
      modifies this`head, this`tail, this`qty, this`queue, this`fired, timers
      ensures Linked() && timers == old(timers) && t == old(queue)[0] && t in timers
      ensures Known(old(queue), old(Recs())) && Abs() == Expire(old(Abs()))
    {
      t := head;
      HeadFacts(t);
      DetachHead(t);
      SettleExpired(t);
      Record(t);
    }

    /** One round of the loop of rt_tmr_update, up to the callback. */
    method ExpireHead() returns (t: Timer)
      requires Valid() && queue != []
      modifies this`head, this`tail, this`qty, this`queue, this`fired, timers
      ensures Valid() && timers == old(timers) && t == old(queue)[0] && t in timers
      ensures Abs() == Expire(old(Abs()))
    {
      ExpireKeeps(Abs());
      t := ExpireLinked();
    }

    /** The end of a round: the callback, if there is one. */
    method RunCallbackOf(t: Timer, oracle: nat -> seq<Command<Timer>>, ghost max: nat)
      requires Valid() && NoWrap(Abs(), max) && OracleOk(oracle, timers, max) && t in timers
      modifies this`head, this`tail, this`qty, this`queue, this`calls, timers
      ensures Linked() && timers == old(timers)
      ensures Abs() == Callback(old(Abs()), t, oracle, max)
    {
      if t.hasCallback {
        RunCallback(oracle(calls), max);
        CountCall();
      }
    }

    lemma RoundParts(s: State<Timer>, oracle: nat -> seq<Command<Timer>>, max: nat)
      requires WellFormed(s) && NoWrap(s, max) && OracleOk(oracle, s.recs.Keys, max) && HeadDue(s)
      ensures s.queue[0] in s.recs && WellFormed(Expire(s)) && NoWrap(Expire(s), max)
      ensures Expire(s).recs.Keys == s.recs.Keys
      ensures Round(s, oracle, max) == Callback(Expire(s), s.queue[0], oracle, max)
    {
      ExpireLowersDue(s, max);
      ExpireKeeps(s);
    }

    method OneRound(oracle: nat -> seq<Command<Timer>>, ghost max: nat)
      requires Valid() && NoWrap(Abs(), max) && OracleOk(oracle, timers, max) && HeadDue(Abs())
      modifies this`head, this`tail, this`qty, this`queue, this`fired, this`calls, timers
      ensures Linked() && timers == old(timers)
      ensures Abs() == Round(old(Abs()), oracle, max)
    {
      ghost var s := Abs();
      assert s.recs.Keys == timers;
      RoundParts(s, oracle, max);
      hide WellFormed, NoWrap, OracleOk, Expire, Callback, Round, HeadDue;
      var t := ExpireHead();
      RunCallbackOf(t, oracle, max);
    }

    method CountCall()
      requires Linked()
      modifies this`calls
      ensures Linked() && Abs() == old(Abs()).(calls := old(calls) + 1)
    {
      calls := calls + 1;
    }

    method NextTick()
      requires Linked()
      modifies this`curTick
      ensures Linked() && Abs() == old(Abs()).(tick := Add32(old(curTick), 1))
    {
      curTick := Add32(curTick, 1);
    }

    /** rt_tmr_update; oracle says what the callbacks of the run do. */
    method Update(oracle: nat -> seq<Command<Timer>>, ghost max: nat)
      requires Valid() && curTick + 1 + max < WORD && NoWrap(Abs(), max) && OracleOk(oracle, timers, max)
      modifies this, timers
      ensures Valid() && timers == old(timers)
      ensures Abs() == RtTmrSpec.Update(old(Abs()), oracle, max)
    {
      ghost var target := RtTmrSpec.Update(Abs(), oracle, max);
      TickReady(Abs(), oracle, max);
      assert Abs().recs.Keys == timers;
      NextTick();
      hide WellFormed, NoWrap, OracleOk;
      while head != null
        invariant Valid() && timers == old(timers) && Abs().recs.Keys == timers
        invariant NoWrap(Abs(), max) && OracleOk(oracle, timers, max)
        invariant Rounds(Abs(), oracle, max) == target
        decreases |Due(Abs(), true)|, |Due(Abs(), false)|
      {
        if head.counter > curTick {
          break;
        }
        OneRound(oracle, max);
      }
    }

    lemma TickReady(s: State<Timer>, oracle: nat -> seq<Command<Timer>>, max: nat)
      requires WellFormed(s) && s.tick + 1 + max < WORD && NoWrap(s, max) && OracleOk(oracle, s.recs.Keys, max)
      ensures var s1 := s.(tick := Add32(s.tick, 1));
        WellFormed(s1) && NoWrap(s1, max) && RtTmrSpec.Update(s, oracle, max) == Rounds(s1, oracle, max)
    {}
  }
}
