/** What utils/src/rt_tmr.c does, as functions on values.

    T stands for timer addresses.  The tick and all counters are 32-bit words: sums wrap.
    A callback may do anything that the timer API offers, so a run is told by an oracle
    which commands the k-th callback of the run issues. */
module RtTmrSpec {
  import opened Common

  datatype Kind = OneShot | Periodic
  datatype Status = Init | Created | Running | Stopped | Triggered

  datatype Rec = Rec(kind: Kind, period: nat, counter: nat, status: Status, hasCallback: bool)

  /** fired is the history of expiries; calls counts the callbacks made so far. */
  datatype State<T(==)> =
    State(tick: nat, queue: seq<T>, recs: map<T, Rec>, fired: seq<(T, nat)>, calls: nat)

  datatype Command<T> =
    | Create(timer: T, kind: Kind, period: nat, hasCallback: bool)
    | Start(timer: T)
    | Stop(timer: T)

  function Add32(a: nat, b: nat): nat { (a + b) % WORD }

  ghost predicate Known<T>(q: seq<T>, recs: map<T, Rec>) {
    forall i | 0 <= i < |q| :: q[i] in recs
  }

  /** Distinct timers, counters in order. */
  ghost predicate Ordered<T>(q: seq<T>, recs: map<T, Rec>) {
    && Distinct(q) && Known(q, recs)
    && forall i, j | 0 <= i < j < |q| :: recs[q[i]].counter <= recs[q[j]].counter
  }

  /** Timers that were started without ever being created have period 0, the type 0 of
      zeroed memory (one shot) and no callback. */
  predicate RecOk(r: Rec) {
    r.period == 0 ==> r.kind == OneShot && !r.hasCallback
  }

  /** Linked if and only if running, counters in order, and no timer left in mid-trigger. */
  ghost predicate WellFormed<T>(s: State<T>) {
    && Ordered(s.queue, s.recs)
    && (forall t | t in s.recs :: t in s.queue <==> s.recs[t].status == Running)
    && (forall t | t in s.recs :: RecOk(s.recs[t]) && s.recs[t].status != Triggered)
  }

  /** No period is above max, and no sum of the tick and a period wraps. */
  ghost predicate NoWrap<T>(s: State<T>, max: nat) {
    && s.tick + max < WORD
    && forall t | t in s.recs :: s.recs[t].period <= max
  }

  predicate CommandOk<T(==)>(c: Command<T>, timers: set<T>, max: nat) {
    c.timer in timers && (c.Create? ==> c.period <= max)
  }

  ghost predicate CommandsOk<T>(cs: seq<Command<T>>, timers: set<T>, max: nat) {
    forall i | 0 <= i < |cs| :: CommandOk(cs[i], timers, max)
  }

  ghost predicate OracleOk<T>(oracle: nat -> seq<Command<T>>, timers: set<T>, max: nat) {
    forall k: nat :: CommandsOk(oracle(k), timers, max)
  }

  // ---------------------------------------------------------------- The operations

  /** Where rt_tmr_link puts a timer: in front of the first one that is not earlier. */
  function Position<T>(recs: map<T, Rec>, queue: seq<T>, counter: nat): (p: nat)
    requires Known(queue, recs)
    ensures p <= |queue|
    ensures forall i | 0 <= i < p :: recs[queue[i]].counter < counter
    ensures p < |queue| ==> recs[queue[p]].counter >= counter
  {
    if queue == [] || recs[queue[0]].counter >= counter then 0
    else 1 + Position(recs, queue[1..], counter)
  }

  function InsertAt<T>(q: seq<T>, p: nat, t: T): (r: seq<T>)
    requires p <= |q|
    ensures |r| == |q| + 1 && r[p] == t
    ensures forall i | 0 <= i < p :: r[i] == q[i]
    ensures forall i | p < i < |r| :: r[i] == q[i - 1]
  {
    q[..p] + [t] + q[p..]
  }

  function RemoveAt<T>(q: seq<T>, p: nat): (r: seq<T>)
    requires p < |q|
    ensures |r| == |q| - 1
    ensures forall i | 0 <= i < p :: r[i] == q[i]
    ensures forall i | p <= i < |r| :: r[i] == q[i + 1]
  {
    q[..p] + q[p + 1..]
  }

  function Link<T>(s: State<T>, t: T): State<T>
    requires Known(s.queue, s.recs) && t in s.recs
  {
    var p := Position(s.recs, s.queue, s.recs[t].counter);
    s.(queue := InsertAt(s.queue, p, t))
  }

  function Unlink<T(==)>(s: State<T>, t: T): State<T>
    requires t in s.queue
  {
    var i := IndexOf(s.queue, t);
    s.(queue := RemoveAt(s.queue, i))
  }

  function SetStatus<T(==)>(s: State<T>, t: T, status: Status): State<T>
    requires t in s.recs
  {
    s.(recs := s.recs[t := s.recs[t].(status := status)])
  }

  function SetCounter<T(==)>(s: State<T>, t: T): State<T>
    requires t in s.recs
  {
    s.(recs := s.recs[t := s.recs[t].(counter := Add32(s.tick, s.recs[t].period))])
  }

  function DoCreate<T(==)>(s: State<T>, t: T, kind: Kind, period: nat, hasCallback: bool): State<T>
    requires t in s.recs
  {
    if period != 0 && (s.recs[t].status == Init || s.recs[t].status == Stopped)
    then s.(recs := s.recs[t := Rec(kind, period, 0, Created, hasCallback)])
    else s
  }

  function DoStart<T(==)>(s: State<T>, t: T): State<T>
    requires Known(s.queue, s.recs) && t in s.recs
  {
    if s.recs[t].status == Created || s.recs[t].status == Stopped
    then SetStatus(Link(SetCounter(s, t), t), t, Running)
    else s
  }

  function DoStop<T(==)>(s: State<T>, t: T): State<T>
    requires t in s.recs && (s.recs[t].status == Running ==> t in s.queue)
  {
    SetStatus(if s.recs[t].status == Running then Unlink(s, t) else s, t, Stopped)
  }

  function Do<T(==)>(s: State<T>, c: Command<T>): State<T>
    requires WellFormed(s) && c.timer in s.recs
  {
    match c
    case Create(t, kind, period, hasCallback) => DoCreate(s, t, kind, period, hasCallback)
    case Start(t) => DoStart(s, t)
    case Stop(t) => DoStop(s, t)
  }

  predicate HeadDue<T(==)>(s: State<T>)
    requires Known(s.queue, s.recs)
  {
    s.queue != [] && s.recs[s.queue[0]].counter <= s.tick
  }

  function Detach<T(==)>(s: State<T>): State<T>
    requires Known(s.queue, s.recs) && s.queue != []
  {
    SetStatus(s, s.queue[0], Triggered).(queue := s.queue[1..])
  }

  function Settle<T(==)>(s: State<T>, t: T): State<T>
    requires Known(s.queue, s.recs) && t in s.recs
  {
    if s.recs[t].kind == Periodic
    then SetStatus(Link(SetCounter(s, t), t), t, Running)
    else SetStatus(s, t, Stopped)
  }

  /** One round of the update loop, up to the callback. */
  function Expire<T(==)>(s: State<T>): State<T>
    requires Known(s.queue, s.recs) && s.queue != []
  {
    Settle(Detach(s), s.queue[0]).(fired := s.fired + [(s.queue[0], s.tick)])
  }

  // ---------------------------------------------------------------- What every operation keeps

  lemma InsertMembers<T>(q: seq<T>, p: nat, t: T)
    requires p <= |q|
    ensures forall u :: u in InsertAt(q, p, t) <==> u in q || u == t
  {
    var r := InsertAt(q, p, t);
    forall u ensures u in r <==> u in q || u == t {
      if u in q {
        var i :| 0 <= i < |q| && q[i] == u;
        assert r[if i < p then i else i + 1] == u;
      }
    }
  }

  lemma InsertInjective<T>(q: seq<T>, p: nat, t: T)
    requires p <= |q| && Distinct(q) && t !in q
    ensures Distinct(InsertAt(q, p, t))
  {}

  lemma RemoveMembers<T>(q: seq<T>, p: nat)
    requires p < |q| && Distinct(q)
    ensures forall u :: u in RemoveAt(q, p) <==> u in q && u != q[p]
  {
    var r := RemoveAt(q, p);
    forall u ensures u in r <==> u in q && u != q[p] {
      if u in q && u != q[p] {
        var i :| 0 <= i < |q| && q[i] == u;
        assert r[if i < p then i else i - 1] == u;
      }
    }
  }

  lemma OrderedInsert<T>(q: seq<T>, recs: map<T, Rec>, t: T, p: nat)
    requires Ordered(q, recs) && t in recs && t !in q
    requires p == Position(recs, q, recs[t].counter)
    ensures Ordered(InsertAt(q, p, t), recs)
  {
    var r := InsertAt(q, p, t);
    InsertInjective(q, p, t);
    forall i | p <= i < |q| ensures recs[q[i]].counter >= recs[t].counter {
      assert recs[q[p]].counter <= recs[q[i]].counter;
    }
    forall i, j | 0 <= i < j < |r| ensures recs[r[i]].counter <= recs[r[j]].counter {}
  }

  lemma OrderedRemove<T>(q: seq<T>, recs: map<T, Rec>, p: nat)
    requires Ordered(q, recs) && p < |q|
    ensures Ordered(RemoveAt(q, p), recs)
  {}

  /** Only the counters of linked timers matter for the order. */
  lemma OrderedSame<T>(q: seq<T>, recs: map<T, Rec>, recs': map<T, Rec>)
    requires Ordered(q, recs)
    requires forall i | 0 <= i < |q| :: q[i] in recs' && recs'[q[i]].counter == recs[q[i]].counter
    ensures Ordered(q, recs')
  {}

  lemma LinkKeeps<T>(s: State<T>, t: T)
    requires Ordered(s.queue, s.recs) && t in s.recs && t !in s.queue
    ensures Ordered(Link(s, t).queue, s.recs)
    ensures forall u :: u in Link(s, t).queue <==> u in s.queue || u == t
  {
    var p := Position(s.recs, s.queue, s.recs[t].counter);
    InsertMembers(s.queue, p, t);
    OrderedInsert(s.queue, s.recs, t, p);
  }

  lemma UnlinkKeeps<T>(s: State<T>, t: T)
    requires Ordered(s.queue, s.recs) && t in s.queue
    ensures Ordered(Unlink(s, t).queue, s.recs)
    ensures forall u :: u in Unlink(s, t).queue <==> u in s.queue && u != t
  {
    RemoveMembers(s.queue, IndexOf(s.queue, t));
    OrderedRemove(s.queue, s.recs, IndexOf(s.queue, t));
  }

  /** What a command on t changes at most: the record of t and its place in the queue. */
  ghost predicate SameFrame<T>(s: State<T>, s': State<T>, t: T) {
    && s'.tick == s.tick && s'.fired == s.fired && s'.calls == s.calls
    && s'.recs.Keys == s.recs.Keys
    && (forall u | u in s.recs && u != t :: s'.recs[u] == s.recs[u])
    && (forall u | u in s.recs && u != t :: u in s'.queue <==> u in s.queue)
  }

  lemma StartKeeps<T>(s: State<T>, t: T)
    requires WellFormed(s) && t in s.recs
    ensures WellFormed(DoStart(s, t)) && SameFrame(s, DoStart(s, t), t)
  {
    if s.recs[t].status == Created || s.recs[t].status == Stopped {
      StartOrders(s, t);
    }
  }

  lemma StartOrders<T>(s: State<T>, t: T)
    requires Ordered(s.queue, s.recs) && t in s.recs && t !in s.queue
    ensures var s' := SetStatus(Link(SetCounter(s, t), t), t, Running);
      && Ordered(s'.queue, s'.recs)
      && forall u :: u in s'.queue <==> u in s.queue || u == t
  {
    var s1 := SetCounter(s, t);
    OrderedSame(s.queue, s.recs, s1.recs);
    LinkKeeps(s1, t);
    OrderedSame(Link(s1, t).queue, s1.recs, SetStatus(Link(s1, t), t, Running).recs);
  }

  lemma StopKeeps<T>(s: State<T>, t: T)
    requires WellFormed(s) && t in s.recs
    ensures WellFormed(DoStop(s, t)) && SameFrame(s, DoStop(s, t), t)
  {
    if s.recs[t].status == Running {
      UnlinkKeeps(s, t);
    }
    OrderedSame(DoStop(s, t).queue, s.recs, DoStop(s, t).recs);
  }

  lemma CreateKeeps<T>(s: State<T>, t: T, kind: Kind, period: nat, hasCallback: bool)
    requires WellFormed(s) && t in s.recs
    ensures WellFormed(DoCreate(s, t, kind, period, hasCallback))
    ensures SameFrame(s, DoCreate(s, t, kind, period, hasCallback), t)
  {
    OrderedSame(s.queue, s.recs, DoCreate(s, t, kind, period, hasCallback).recs);
  }

  lemma DoKeeps<T>(s: State<T>, c: Command<T>, max: nat)
    requires WellFormed(s) && NoWrap(s, max) && CommandOk(c, s.recs.Keys, max)
    ensures WellFormed(Do(s, c)) && NoWrap(Do(s, c), max) && SameFrame(s, Do(s, c), c.timer)
  {
    match c
    case Create(t, kind, period, hasCallback) => CreateKeeps(s, t, kind, period, hasCallback);
    case Start(t) => StartKeeps(s, t);
    case Stop(t) => StopKeeps(s, t);
  }

  // ---------------------------------------------------------------- The update loop

  /** The linked timers whose time has come, with a period or without. */
  function Due<T(==)>(s: State<T>, timed: bool): set<T>
    requires Known(s.queue, s.recs)
  {
    set t | t in s.queue && s.recs[t].counter <= s.tick && (s.recs[t].period > 0) == timed
  }

  /** A started timer with a period is not due, because no sum wraps; so a command can only
      add due timers that have no period. */
  lemma DoAddsNoTimed<T>(s: State<T>, c: Command<T>, max: nat)
    requires WellFormed(s) && NoWrap(s, max) && CommandOk(c, s.recs.Keys, max)
    ensures WellFormed(Do(s, c)) && Due(Do(s, c), true) <= Due(s, true)
  {
    DoKeeps(s, c, max);
    TargetNotNewlyDue(s, c, max);
  }

  lemma StartTarget<T>(s: State<T>, t: T, max: nat)
    requires WellFormed(s) && NoWrap(s, max) && t in s.recs
    ensures DoStart(s, t) == s || DoStart(s, t).recs[t].counter == s.tick + DoStart(s, t).recs[t].period
  {}

  lemma TargetNotNewlyDue<T>(s: State<T>, c: Command<T>, max: nat)
    requires WellFormed(s) && NoWrap(s, max) && CommandOk(c, s.recs.Keys, max)
    requires WellFormed(Do(s, c)) && Do(s, c).recs.Keys == s.recs.Keys && Do(s, c).tick == s.tick
    ensures c.timer in Due(Do(s, c), true) ==> c.timer in Due(s, true)
  {
    var t := c.timer;
    if c.Start? {
      StartTarget(s, t, max);
    } else if Do(s, c) != s {
      assert Do(s, c).recs[t].status != Running;
    }
  }

  /** What one expiry does to the timer that was at the head, and to no other. */
  ghost predicate Expired<T>(s: State<T>, s': State<T>, t: T)
    requires t in s.recs
  {
    && s'.recs.Keys == s.recs.Keys && s'.tick == s.tick && s'.calls == s.calls
    && s'.fired == s.fired + [(t, s.tick)]
    && (forall u | u in s.recs && u != t :: s'.recs[u] == s.recs[u])
    && (forall u | u in s.recs && u != t :: u in s'.queue <==> u in s.queue)
    && (if s.recs[t].kind == Periodic
        then s'.recs[t] == s.recs[t].(counter := Add32(s.tick, s.recs[t].period), status := Running) && t in s'.queue
        else s'.recs[t] == s.recs[t].(status := Stopped) && t !in s'.queue)
  }

  lemma DetachKeeps<T>(s: State<T>)
    requires WellFormed(s) && s.queue != []
    ensures Ordered(Detach(s).queue, Detach(s).recs)
    ensures forall u :: u in Detach(s).queue <==> u in s.queue && u != s.queue[0]
  {
    assert Detach(s).queue == RemoveAt(s.queue, 0);
    RemoveMembers(s.queue, 0);
    OrderedRemove(s.queue, s.recs, 0);
    OrderedSame(Detach(s).queue, s.recs, Detach(s).recs);
  }

  lemma SettleKeeps<T>(s: State<T>, t: T)
    requires Ordered(s.queue, s.recs) && t in s.recs && t !in s.queue
    ensures Ordered(Settle(s, t).queue, Settle(s, t).recs)
    ensures forall u :: u in Settle(s, t).queue <==> u in s.queue || (u == t && s.recs[t].kind == Periodic)
  {
    if s.recs[t].kind == Periodic {
      StartOrders(s, t);
    } else {
      OrderedSame(s.queue, s.recs, Settle(s, t).recs);
    }
  }

  lemma ExpireKeeps<T>(s: State<T>)
    requires WellFormed(s) && s.queue != []
    ensures WellFormed(Expire(s)) && Expired(s, Expire(s), s.queue[0])
  {
    DetachKeeps(s);
    SettleKeeps(Detach(s), s.queue[0]);
    ExpireIsExpired(s);
  }

  lemma ExpireIsExpired<T>(s: State<T>)
    requires WellFormed(s) && s.queue != []
    requires Ordered(Detach(s).queue, Detach(s).recs)
    requires forall u :: u in Detach(s).queue <==> u in s.queue && u != s.queue[0]
    requires forall u :: (u in Expire(s).queue
      <==> u in Detach(s).queue || (u == s.queue[0] && s.recs[s.queue[0]].kind == Periodic))
    ensures Expired(s, Expire(s), s.queue[0])
  {}

  lemma ExpireLowersDue<T>(s: State<T>, max: nat)
    requires WellFormed(s) && NoWrap(s, max) && HeadDue(s)
    ensures WellFormed(Expire(s)) && NoWrap(Expire(s), max)
    ensures var t := s.queue[0];
      Due(Expire(s), true) == Due(s, true) - {t} && Due(Expire(s), false) == Due(s, false) - {t}
  {
    ExpireKeeps(s);
    DueOfExpired(s, Expire(s), max, s.queue[0]);
  }

  lemma DueOfExpired<T>(s: State<T>, s': State<T>, max: nat, t: T)
    requires WellFormed(s) && WellFormed(s') && NoWrap(s, max) && t in s.recs && Expired(s, s', t)
    ensures NoWrap(s', max)
    ensures Due(s', true) == Due(s, true) - {t} && Due(s', false) == Due(s, false) - {t}
  {
    assert t in s'.queue ==> s'.recs[t].counter == s.tick + s.recs[t].period;
    if t in s'.queue {
      assert s.recs[t].period > 0;
    }
  }

  function Exec<T(==)>(s: State<T>, cs: seq<Command<T>>, max: nat): (s': State<T>)
    requires WellFormed(s) && NoWrap(s, max) && CommandsOk(cs, s.recs.Keys, max)
    ensures WellFormed(s') && NoWrap(s', max) && Due(s', true) <= Due(s, true)
    ensures s'.recs.Keys == s.recs.Keys && s'.tick == s.tick && s'.fired == s.fired && s'.calls == s.calls
    decreases |cs|
  {
    if cs == [] then s
    else
      assert CommandOk(cs[0], s.recs.Keys, max);
      DoKeeps(s, cs[0], max);
      DoAddsNoTimed(s, cs[0], max);
      Exec(Do(s, cs[0]), cs[1..], max)
  }

  /** The callback of an expired timer, if it has one: the next commands of the oracle. */
  function Callback<T(==)>(s: State<T>, t: T, oracle: nat -> seq<Command<T>>, max: nat): (s': State<T>)
    requires WellFormed(s) && NoWrap(s, max) && OracleOk(oracle, s.recs.Keys, max) && t in s.recs
    ensures WellFormed(s') && NoWrap(s', max) && Due(s', true) <= Due(s, true)
    ensures s'.recs.Keys == s.recs.Keys && s'.tick == s.tick && s'.fired == s.fired
    ensures !s.recs[t].hasCallback ==> s' == s
  {
    if s.recs[t].hasCallback then Exec(s, oracle(s.calls), max).(calls := s.calls + 1) else s
  }

  /** One whole round: expire the head timer, then its callback. */
  function Round<T(==)>(s: State<T>, oracle: nat -> seq<Command<T>>, max: nat): (s': State<T>)
    requires WellFormed(s) && NoWrap(s, max) && OracleOk(oracle, s.recs.Keys, max) && HeadDue(s)
    ensures WellFormed(s') && NoWrap(s', max) && s'.recs.Keys == s.recs.Keys && s'.tick == s.tick
    ensures |Due(s', true)| < |Due(s, true)|
         || (|Due(s', true)| == |Due(s, true)| && |Due(s', false)| < |Due(s, false)|)
  {
    var t := s.queue[0];
    ExpireKeeps(s);
    ExpireLowersDue(s, max);
    DueFalls(s, max, t);
    var s' := Callback(Expire(s), t, oracle, max);
    SubsetIsNoLarger(Due(s', true), Due(Expire(s), true));
    s'
  }

  lemma SubsetIsNoLarger<T>(a: set<T>, b: set<T>)
    requires a <= b
    ensures |a| <= |b|
  {
    if a != {} {
      var x :| x in a;
      SubsetIsNoLarger(a - {x}, b - {x});
    }
  }

  lemma DueFalls<T>(s: State<T>, max: nat, t: T)
    requires WellFormed(s) && NoWrap(s, max) && HeadDue(s) && t == s.queue[0]
    ensures WellFormed(Expire(s)) && NoWrap(Expire(s), max)
    ensures if s.recs[t].period > 0
      then |Due(Expire(s), true)| < |Due(s, true)|
      else |Due(Expire(s), true)| == |Due(s, true)| && |Due(Expire(s), false)| < |Due(s, false)|
  {
    ExpireLowersDue(s, max);
    var timed := s.recs[t].period > 0;
    assert t in Due(s, timed) && t !in Due(s, !timed);
    assert Due(s, !timed) - {t} == Due(s, !timed);
  }

  /** The loop of rt_tmr_update.  It ends although callbacks start timers: those with a
      period lie ahead of the tick, those without have no callback to start anything. */
  function Rounds<T(==)>(s: State<T>, oracle: nat -> seq<Command<T>>, max: nat): (s': State<T>)
    requires WellFormed(s) && NoWrap(s, max) && OracleOk(oracle, s.recs.Keys, max)
    ensures WellFormed(s') && NoWrap(s', max) && s'.recs.Keys == s.recs.Keys && s'.tick == s.tick
    ensures forall t | t in s'.queue :: s'.recs[t].counter > s'.tick
    decreases |Due(s, true)|, |Due(s, false)|
  {
    if !HeadDue(s) then s else Rounds(Round(s, oracle, max), oracle, max)
  }

  /** rt_tmr_update. */
  function Update<T(==)>(s: State<T>, oracle: nat -> seq<Command<T>>, max: nat): (s': State<T>)
    requires WellFormed(s) && s.tick + 1 + max < WORD && NoWrap(s, max)
    requires OracleOk(oracle, s.recs.Keys, max)
    ensures WellFormed(s') && NoWrap(s', max) && s'.recs.Keys == s.recs.Keys && s'.tick == s.tick + 1
    ensures forall t | t in s'.queue :: s'.recs[t].counter > s'.tick
  {
    Rounds(s.(tick := Add32(s.tick, 1)), oracle, max)
  }
}
