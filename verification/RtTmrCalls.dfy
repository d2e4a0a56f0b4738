/** The callbacks of the rt_tmr timers: which are made, and what they do. */
module RtTmrCalls {
  import opened Common
  import opened RtTmrSpec
  import opened RtTmrRuns

  // ---------------------------------------------------------------- One round

  /** The states on the way through commands done one after the other. */
  ghost predicate Passes<T>(states: seq<State<T>>, cs: seq<Command<T>>) {
    && |states| == |cs| + 1
    && forall i | 0 <= i < |cs| ::
      WellFormed(states[i]) && cs[i].timer in states[i].recs && states[i + 1] == Do(states[i], cs[i])
  }

  lemma {:induction false} ExecPasses<T>(s: State<T>, cs: seq<Command<T>>, max: nat) returns (states: seq<State<T>>)
    requires WellFormed(s) && NoWrap(s, max) && CommandsOk(cs, s.recs.Keys, max)
    ensures Passes(states, cs) && states[0] == s && states[|cs|] == Exec(s, cs, max)
    decreases |cs|
  {
    hide Do, Exec, WellFormed, NoWrap, Due;
    if cs == [] {
      states := [s];
      ExecNothing(s, max);
    } else {
      assert CommandOk(cs[0], s.recs.Keys, max);
      DoKeeps(s, cs[0], max);
      var rest := ExecPasses(Do(s, cs[0]), cs[1..], max);
      states := [s] + rest;
      PassesLonger(s, cs, rest);
      ExecUnfolds(s, cs, max);
    }
  }

  lemma ExecNothing<T>(s: State<T>, max: nat)
    requires WellFormed(s) && NoWrap(s, max)
    ensures Exec(s, [], max) == s
  {}

  lemma ExecUnfolds<T>(s: State<T>, cs: seq<Command<T>>, max: nat)
    requires WellFormed(s) && NoWrap(s, max) && CommandsOk(cs, s.recs.Keys, max) && cs != []
    requires WellFormed(Do(s, cs[0])) && NoWrap(Do(s, cs[0]), max) && Do(s, cs[0]).recs.Keys == s.recs.Keys
    ensures Exec(s, cs, max) == Exec(Do(s, cs[0]), cs[1..], max)
  {}

  lemma PassesLonger<T>(s: State<T>, cs: seq<Command<T>>, rest: seq<State<T>>)
    requires cs != [] && WellFormed(s) && cs[0].timer in s.recs
    requires Passes(rest, cs[1..]) && rest[0] == Do(s, cs[0])
    ensures Passes([s] + rest, cs)
  {
    hide Do, WellFormed;
    var states := [s] + rest;
    forall i | 1 <= i < |cs|
      ensures WellFormed(states[i]) && cs[i].timer in states[i].recs && states[i + 1] == Do(states[i], cs[i])
    {
      assert states[i] == rest[i - 1] && states[i + 1] == rest[i] && cs[i] == cs[1..][i - 1];
    }
  }

  /** One round of the update loop makes the callback of the expired timer, if it has one:
      its commands are done one after the other, from the state that the expiry left. */
  lemma RoundMakesCall<T>(s: State<T>, oracle: nat -> seq<Command<T>>, max: nat) returns (states: seq<State<T>>)
    requires WellFormed(s) && NoWrap(s, max) && OracleOk(oracle, s.recs.Keys, max) && HeadDue(s)
    ensures var called := s.recs[s.queue[0]].hasCallback;
      && Passes(states, if called then oracle(s.calls) else []) && states[0] == Expire(s)
      && Round(s, oracle, max) == states[|states| - 1].(calls := if called then s.calls + 1 else s.calls)
  {
    hide Expire, Do;
    ExpireKeeps(s);
    ExpireLowersDue(s, max);
    if s.recs[s.queue[0]].hasCallback {
      states := ExecPasses(Expire(s), oracle(s.calls), max);
    } else {
      states := [Expire(s)];
    }
  }

  // ---------------------------------------------------------------- Whole runs

  /** An expiry, and whether the timer had a callback then. */
  datatype Expiry<T> = Expiry(timer: T, tick: nat, called: bool)

  function Pairs<T>(log: seq<Expiry<T>>): (r: seq<(T, nat)>)
    ensures |r| == |log|
  {
    seq(|log|, i requires 0 <= i < |log| => (log[i].timer, log[i].tick))
  }

  function Calls<T>(log: seq<Expiry<T>>): nat {
    if log == [] then 0 else (if log[0].called then 1 else 0) + Calls(log[1..])
  }

  lemma {:induction false} CallsJoin<T>(a: seq<Expiry<T>>, b: seq<Expiry<T>>)
    ensures Calls(a + b) == Calls(a) + Calls(b)
  {
    if a == [] {
      assert a + b == b;
    } else {
      assert (a + b)[1..] == a[1..] + b;
      CallsJoin(a[1..], b);
    }
  }

  /** The expiries of the update loop, as its head timers stand when they expire. */
  function RoundsLog<T(==)>(s: State<T>, oracle: nat -> seq<Command<T>>, max: nat): seq<Expiry<T>>
    requires WellFormed(s) && NoWrap(s, max) && OracleOk(oracle, s.recs.Keys, max)
    decreases |Due(s, true)|, |Due(s, false)|
  {
    if !HeadDue(s) then []
    else
      [Expiry(s.queue[0], s.tick, s.recs[s.queue[0]].hasCallback)] + RoundsLog(Round(s, oracle, max), oracle, max)
  }

  function RunLog<T(==)>(s: State<T>, es: seq<RtTmrRuns.Event<T>>, oracle: nat -> seq<Command<T>>, max: nat)
    : seq<Expiry<T>>
    requires RunOk(s, es, oracle, max)
    decreases |es|
  {
    if es == [] then []
    else
      RunOkSplits(s, es, oracle, max);
      NextLog(s, es[0], oracle, max) + RunLog(Next(s, es[0], oracle, max), es[1..], oracle, max)
  }

  function NextLog<T(==)>(s: State<T>, e: RtTmrRuns.Event<T>, oracle: nat -> seq<Command<T>>, max: nat): seq<Expiry<T>>
    requires RunOk(s, [e], oracle, max)
  {
    assert [e][0] == e && [e][1..] == [];
    if e.Tick? then RoundsLog(s.(tick := Add32(s.tick, 1)), oracle, max) else []
  }

  lemma {:induction false} RoundsMakeCalls<T>(s: State<T>, oracle: nat -> seq<Command<T>>, max: nat)
    requires WellFormed(s) && NoWrap(s, max) && OracleOk(oracle, s.recs.Keys, max)
    ensures var log, s' := RoundsLog(s, oracle, max), Rounds(s, oracle, max);
      s'.fired == s.fired + Pairs(log) && s'.calls == s.calls + Calls(log)
    decreases |Due(s, true)|, |Due(s, false)|
  {
    hide Round, Rounds, RoundsLog, WellFormed, NoWrap, OracleOk, Due;
    RoundsUnfold(s, oracle, max);
    HeadKnown(s);
    if HeadDue(s) {
      RoundFires(s, oracle, max);
      RoundsMakeCalls(Round(s, oracle, max), oracle, max);
      var t, rest := s.queue[0], RoundsLog(Round(s, oracle, max), oracle, max);
      LogsLonger(Expiry(t, s.tick, s.recs[t].hasCallback), rest);
    }
  }

  lemma LogsLonger<T>(first: Expiry<T>, log: seq<Expiry<T>>)
    ensures Pairs([first] + log) == [(first.timer, first.tick)] + Pairs(log)
    ensures Calls([first] + log) == (if first.called then 1 else 0) + Calls(log)
  {
    assert ([first] + log)[1..] == log;
  }

  lemma RoundFires<T>(s: State<T>, oracle: nat -> seq<Command<T>>, max: nat)
    requires WellFormed(s) && NoWrap(s, max) && OracleOk(oracle, s.recs.Keys, max) && HeadDue(s)
    ensures Round(s, oracle, max).fired == s.fired + [(s.queue[0], s.tick)]
    ensures Round(s, oracle, max).calls == s.calls + if s.recs[s.queue[0]].hasCallback then 1 else 0
  {
    ExpireKeeps(s);
    ExpireLowersDue(s, max);
  }

  lemma RoundsUnfold<T>(s: State<T>, oracle: nat -> seq<Command<T>>, max: nat)
    requires WellFormed(s) && NoWrap(s, max) && OracleOk(oracle, s.recs.Keys, max)
    ensures !HeadDue(s) ==> Rounds(s, oracle, max) == s && RoundsLog(s, oracle, max) == []
    ensures HeadDue(s) ==> var s1, t := Round(s, oracle, max), s.queue[0];
      && Rounds(s, oracle, max) == Rounds(s1, oracle, max)
      && RoundsLog(s, oracle, max)
           == [Expiry(t, s.tick, s.recs[t].hasCallback)] + RoundsLog(s1, oracle, max)
  {}

  /** Over every run, the history of expiries and the number of callbacks grow together: one
      callback for every expiry of a timer that has one at that moment, none for the others. */
  lemma {:induction false} RunMakesCalls<T>(
      s: State<T>, es: seq<RtTmrRuns.Event<T>>, oracle: nat -> seq<Command<T>>, max: nat)
    requires RunOk(s, es, oracle, max)
    ensures var log, s' := RunLog(s, es, oracle, max), Run(s, es, oracle, max);
      s'.fired == s.fired + Pairs(log) && s'.calls == s.calls + Calls(log)
    decreases |es|
  {
    hide Next, NextLog, RunOk, Calls, Pairs, WellFormed, NoWrap, OracleOk;
    if es != [] {
      RunOkSplits(s, es, oracle, max);
      var s1, log := Next(s, es[0], oracle, max), NextLog(s, es[0], oracle, max);
      NextMakesCalls(s, es[0], oracle, max);
      RunMakesCalls(s1, es[1..], oracle, max);
      var rest := RunLog(s1, es[1..], oracle, max);
      LogsJoin(log, rest);
    } else {
      NoLog<T>();
      assert s.fired + [] == s.fired;
    }
  }

  lemma NoLog<T>()
    ensures Calls<T>([]) == 0 && Pairs<T>([]) == []
  {}

  lemma LogsJoin<T>(a: seq<Expiry<T>>, b: seq<Expiry<T>>)
    ensures Calls(a + b) == Calls(a) + Calls(b) && Pairs(a + b) == Pairs(a) + Pairs(b)
  {
    CallsJoin(a, b);
  }

  lemma NextMakesCalls<T>(s: State<T>, e: RtTmrRuns.Event<T>, oracle: nat -> seq<Command<T>>, max: nat)
    requires RunOk(s, [e], oracle, max)
    ensures var log, s' := NextLog(s, e, oracle, max), Next(s, e, oracle, max);
      s'.fired == s.fired + Pairs(log) && s'.calls == s.calls + Calls(log)
  {
    assert [e][0] == e && [e][1..] == [];
    match e
    case Call(c) => DoKeeps(s, c, max);
    case Tick => RoundsMakeCalls(s.(tick := Add32(s.tick, 1)), oracle, max);
  }

  // ---------------------------------------------------------------- A timer started in a callback

  /** The oracle without the callbacks made before the n-th. */
  function From<T>(oracle: nat -> seq<Command<T>>, n: nat): nat -> seq<Command<T>> {
    k => if k < n then [] else oracle(k)
  }

  lemma FromOk<T>(oracle: nat -> seq<Command<T>>, n: nat, timers: set<T>, max: nat)
    requires OracleOk(oracle, timers, max)
    ensures OracleOk(From(oracle, n), timers, max)
  {
    forall k: nat ensures CommandsOk(From(oracle, n)(k), timers, max) {
      assert CommandsOk(oracle(k), timers, max);
    }
  }

  lemma {:induction false} RoundsFrom<T>(s: State<T>, oracle: nat -> seq<Command<T>>, n: nat, max: nat)
    requires WellFormed(s) && NoWrap(s, max) && OracleOk(oracle, s.recs.Keys, max) && n <= s.calls
    ensures OracleOk(From(oracle, n), s.recs.Keys, max) && Rounds(s, From(oracle, n), max) == Rounds(s, oracle, max)
    ensures Rounds(s, oracle, max).calls >= s.calls
    decreases |Due(s, true)|, |Due(s, false)|
  {
    FromOk(oracle, n, s.recs.Keys, max);
    if HeadDue(s) {
      RoundFires(s, oracle, max);
      RoundFrom(s, oracle, n, max);
      RoundsFrom(Round(s, oracle, max), oracle, n, max);
    }
  }

  lemma RoundFrom<T>(s: State<T>, oracle: nat -> seq<Command<T>>, n: nat, max: nat)
    requires WellFormed(s) && NoWrap(s, max) && HeadDue(s) && n <= s.calls
    requires OracleOk(oracle, s.recs.Keys, max) && OracleOk(From(oracle, n), s.recs.Keys, max)
    ensures Round(s, From(oracle, n), max) == Round(s, oracle, max)
  {
    hide Expire, Exec;
    ExpireKeeps(s);
    ExpireLowersDue(s, max);
    assert From(oracle, n)(s.calls) == oracle(s.calls);
  }

  lemma {:induction false} RunFrom<T>(
      s: State<T>, es: seq<RtTmrRuns.Event<T>>, oracle: nat -> seq<Command<T>>, n: nat, max: nat)
    requires RunOk(s, es, oracle, max) && n <= s.calls
    ensures RunOk(s, es, From(oracle, n), max) && Run(s, es, From(oracle, n), max) == Run(s, es, oracle, max)
    decreases |es|
  {
    FromOk(oracle, n, s.recs.Keys, max);
    if es != [] {
      RunOkSplits(s, es, oracle, max);
      NextFrom(s, es[0], oracle, n, max);
      RunFrom(Next(s, es[0], oracle, max), es[1..], oracle, n, max);
    }
  }

  lemma NextFrom<T>(s: State<T>, e: RtTmrRuns.Event<T>, oracle: nat -> seq<Command<T>>, n: nat, max: nat)
    requires RunOk(s, [e], oracle, max) && n <= s.calls
    ensures RunOk(s, [e], From(oracle, n), max) && Next(s, e, From(oracle, n), max) == Next(s, e, oracle, max)
    ensures Next(s, e, oracle, max).calls >= s.calls
  {
    FromOk(oracle, n, s.recs.Keys, max);
    NextMakesCalls(s, e, oracle, max);
    assert [e][0] == e && [e][1..] == [];
    if e.Tick? {
      RoundsFrom(s.(tick := Add32(s.tick, 1)), oracle, n, max);
    }
  }

  /** The i-th command starts timer u, and no other command is about u. */
  ghost predicate StartsOnce<T>(cs: seq<Command<T>>, i: nat, u: T) {
    i < |cs| && cs[i] == Start(u) && forall j | 0 <= j < |cs| && j != i :: cs[j].timer != u
  }

  predicate Startable(r: Rec) {
    r.status == Created || r.status == Stopped
  }

  lemma {:induction false} ExecStarts<T>(s: State<T>, cs: seq<Command<T>>, max: nat, i: nat, u: T)
    requires WellFormed(s) && NoWrap(s, max) && CommandsOk(cs, s.recs.Keys, max)
    requires u in s.recs && Startable(s.recs[u]) && StartsOnce(cs, i, u)
    ensures Exec(s, cs, max).recs[u] == s.recs[u].(counter := s.tick + s.recs[u].period, status := Running)
    decreases |cs|
  {
    hide Exec, Do, WellFormed, NoWrap, Due;
    assert CommandOk(cs[0], s.recs.Keys, max);
    DoKeeps(s, cs[0], max);
    ExecUnfolds(s, cs, max);
    var s1 := Do(s, cs[0]);
    assert forall j | 0 <= j < |cs[1..]| :: cs[1..][j] == cs[j + 1];
    if i == 0 {
      DoStarts(s, u, max);
      ExecLeaves(s1, cs[1..], max, u);
    } else {
      ExecStarts(s1, cs[1..], max, i - 1, u);
    }
  }

  lemma DoStarts<T>(s: State<T>, u: T, max: nat)
    requires WellFormed(s) && NoWrap(s, max) && u in s.recs && Startable(s.recs[u])
    ensures u in Do(s, Start(u)).recs
    ensures Do(s, Start(u)).recs[u] == s.recs[u].(counter := s.tick + s.recs[u].period, status := Running)
  {
    StartView(s, u, max);
  }

  lemma RoundStarts<T>(s: State<T>, oracle: nat -> seq<Command<T>>, max: nat, i: nat, u: T)
    requires WellFormed(s) && NoWrap(s, max) && OracleOk(oracle, s.recs.Keys, max) && HeadDue(s)
    requires s.recs[s.queue[0]].hasCallback && StartsOnce(oracle(s.calls), i, u)
    requires u in Expire(s).recs && Startable(Expire(s).recs[u])
    ensures var s1, r := Round(s, oracle, max), Expire(s).recs[u];
      && s1.fired == Expire(s).fired && s1.calls == s.calls + 1
      && u in s1.recs && s1.recs[u] == r.(counter := s.tick + r.period, status := Running)
  {
    hide Exec;
    ExpireKeeps(s);
    ExpireLowersDue(s, max);
    assert CommandsOk(oracle(s.calls), s.recs.Keys, max);
    ExecStarts(Expire(s), oracle(s.calls), max, i, u);
  }

  /** A callback of the update loop starts a timer u with a period, possibly the timer that has
      just expired.  If nobody disturbs u from then on, it first expires one period after the
      tick of the callback, and after that, if it is periodic, once every period. */
  lemma StartedInCallback<T>(
      s: State<T>, es: seq<RtTmrRuns.Event<T>>, oracle: nat -> seq<Command<T>>, max: nat, i: nat, u: T)
    requires WellFormed(s) && NoWrap(s, max) && OracleOk(oracle, s.recs.Keys, max) && HeadDue(s)
    requires s.recs[s.queue[0]].hasCallback && StartsOnce(oracle(s.calls), i, u)
    requires u in Expire(s).recs && Startable(Expire(s).recs[u]) && Expire(s).recs[u].period > 0
    requires RunOk(Rounds(s, oracle, max), es, oracle, max)
    requires Undisturbed(es, From(oracle, s.calls + 1), u, Expire(s).recs[u].(status := Running))
    ensures var s', r := Run(Rounds(s, oracle, max), es, oracle, max), Expire(s).recs[u];
      var first := s.tick + r.period;
      Fires(s'.fired, u) == Fires(Expire(s).fired, u)
        + if r.kind == Periodic then Multiples(first, r.period, s'.tick) else if s'.tick < first then [] else [first]
  {
    hide Expire, Rounds, Run, Round, WellFormed, NoWrap, OracleOk, Undisturbed;
    var s2, later := Rounds(s, oracle, max), From(oracle, s.calls + 1);
    StartedRounds(s, es, oracle, max, i, u);
    RunFrom(s2, es, oracle, s.calls + 1, max);
    RunIsTicks(s2, es, later, max, u);
    FirstExpiries(ViewOf(s2, u), Ticks(es));
  }

  lemma StartedRounds<T>(
      s: State<T>, es: seq<RtTmrRuns.Event<T>>, oracle: nat -> seq<Command<T>>, max: nat, i: nat, u: T)
    requires WellFormed(s) && NoWrap(s, max) && OracleOk(oracle, s.recs.Keys, max) && HeadDue(s)
    requires s.recs[s.queue[0]].hasCallback && StartsOnce(oracle(s.calls), i, u)
    requires u in Expire(s).recs && Startable(Expire(s).recs[u]) && Expire(s).recs[u].period > 0
    requires Undisturbed(es, From(oracle, s.calls + 1), u, Expire(s).recs[u].(status := Running))
    ensures var s2, r := Rounds(s, oracle, max), Expire(s).recs[u];
      && u in s2.recs && s2.calls >= s.calls + 1
      && ViewOf(s2, u) == View(r.(counter := s.tick + r.period, status := Running), Fires(Expire(s).fired, u), s.tick)
      && Undisturbed(es, From(oracle, s.calls + 1), u, s2.recs[u])
  {
    hide Expire, Rounds, Round, WellFormed, NoWrap, OracleOk;
    var s1, later := Round(s, oracle, max), From(oracle, s.calls + 1);
    HeadKnown(s);
    RoundStarts(s, oracle, max, i, u);
    RoundsUnfold(s, oracle, max);
    RoundsFrom(s1, oracle, s.calls + 1, max);
    SameLeaves(es, later, u, Expire(s).recs[u].(status := Running), s1.recs[u]);
    RoundsSettle(s1, later, max, u);
  }

  lemma FirstExpiries(v: View, n: nat)
    requires v.rec.status == Running && v.rec.period > 0 && v.rec.counter > v.tick
    ensures TicksView(v, n).fires == v.fires
      + if v.rec.kind == Periodic then Multiples(v.rec.counter, v.rec.period, v.tick + n)
        else if v.tick + n < v.rec.counter then [] else [v.rec.counter]
  {
    if v.rec.kind == Periodic {
      PeriodicFromNow(v, n);
    } else {
      OneShotTicks(v, n);
      assert v.fires + [] == v.fires;
    }
  }

  lemma SameLeaves<T>(es: seq<RtTmrRuns.Event<T>>, oracle: nat -> seq<Command<T>>, t: T, r: Rec, r': Rec)
    requires Undisturbed(es, oracle, t, r) && r'.status == r.status && r'.kind == r.kind
    ensures Undisturbed(es, oracle, t, r')
  {
    assert forall k: nat :: Leaves(oracle(k), t, r) ==> Leaves(oracle(k), t, r');
    assert forall e: RtTmrRuns.Event<T> :: EventLeaves(e, t, r) ==> EventLeaves(e, t, r');
  }

  // ---------------------------------------------------------------- From creation on

  /** Every expiry of t in the log came with the callback, or without it. */
  ghost predicate AllCalled<T>(log: seq<Expiry<T>>, t: T, called: bool) {
    forall i | 0 <= i < |log| :: log[i].timer == t ==> log[i].called == called
  }

  lemma StillQuiet<T>(oracle: nat -> seq<Command<T>>, t: T, r: Rec, now: nat)
    requires Quiet(oracle, t, r)
    ensures Quiet(oracle, t, AfterExpiry(r, now))
  {
    assert forall k: nat :: Leaves(oracle(k), t, r) ==> Leaves(oracle(k), t, AfterExpiry(r, now));
  }

  lemma {:induction false} RoundsCall<T>(s: State<T>, oracle: nat -> seq<Command<T>>, max: nat, t: T)
    requires WellFormed(s) && NoWrap(s, max) && OracleOk(oracle, s.recs.Keys, max)
    requires t in s.recs && Quiet(oracle, t, s.recs[t])
    ensures AllCalled(RoundsLog(s, oracle, max), t, s.recs[t].hasCallback)
    ensures Rounds(s, oracle, max).recs[t].hasCallback == s.recs[t].hasCallback
    decreases |Due(s, true)|, |Due(s, false)|
  {
    hide Round, Rounds, RoundsLog, WellFormed, NoWrap, OracleOk, Due, Quiet;
    RoundsUnfold(s, oracle, max);
    HeadKnown(s);
    if HeadDue(s) {
      if t == s.queue[0] {
        RoundOnHead(s, oracle, max, t);
        StillQuiet(oracle, t, s.recs[t], s.tick);
      } else {
        RoundOnOther(s, oracle, max, t);
      }
      RoundsCall(Round(s, oracle, max), oracle, max, t);
    }
  }

  lemma NextCalls<T>(s: State<T>, e: RtTmrRuns.Event<T>, oracle: nat -> seq<Command<T>>, max: nat, t: T)
    requires RunOk(s, [e], oracle, max) && t in s.recs && Quiet(oracle, t, s.recs[t]) && EventLeaves(e, t, s.recs[t])
    ensures AllCalled(NextLog(s, e, oracle, max), t, s.recs[t].hasCallback)
    ensures Next(s, e, oracle, max).recs[t].hasCallback == s.recs[t].hasCallback
  {
    hide Rounds, RoundsLog, Do, Quiet;
    assert [e][0] == e && [e][1..] == [];
    match e
    case Call(c) => CallKeepsView(s, c, max, t);
    case Tick => RoundsCall(s.(tick := Add32(s.tick, 1)), oracle, max, t);
  }

  /** Each expiry of an undisturbed timer makes its callback, if it has one. */
  lemma {:induction false} RunCalls<T>(
      s: State<T>, es: seq<RtTmrRuns.Event<T>>, oracle: nat -> seq<Command<T>>, max: nat, t: T)
    requires RunOk(s, es, oracle, max)
    requires t in s.recs && Undisturbed(es, oracle, t, s.recs[t]) && Ahead(s.recs[t], s.tick)
    ensures AllCalled(RunLog(s, es, oracle, max), t, s.recs[t].hasCallback)
    decreases |es|
  {
    hide Next, NextLog, RunOk, Quiet;
    if es != [] {
      RunOkSplits(s, es, oracle, max);
      NextStaysUndisturbed(s, es, oracle, max, t);
      NextCalls(s, es[0], oracle, max, t);
      RunCalls(Next(s, es[0], oracle, max), es[1..], oracle, max, t);
    }
  }

  /** A timer that is created with a period and then started at tick now, and left alone from
      then on, expires at now + period and, if it is periodic, once every period after that;
      each expiry makes the callback that rt_tmr_create was given, or none. */
  lemma CreatedTimerExpires<T>(
      s: State<T>, t: T, kind: Kind, period: nat, called: bool,
      es: seq<RtTmrRuns.Event<T>>, oracle: nat -> seq<Command<T>>, max: nat)
    requires WellFormed(s) && NoWrap(s, max) && t in s.recs && 0 < period <= max
    requires s.recs[t].status == Init || s.recs[t].status == Stopped
    requires s.tick + Ticks(es) + max < WORD && EventsOk(es, s.recs.Keys, max) && OracleOk(oracle, s.recs.Keys, max)
    requires Undisturbed(es, oracle, t, Rec(kind, period, s.tick + period, Running, called))
    ensures WellFormed(Do(s, Create(t, kind, period, called))) && t in Do(s, Create(t, kind, period, called)).recs
    ensures var s2 := Do(Do(s, Create(t, kind, period, called)), Start(t));
      && RunOk(s2, es, oracle, max)
      && var s' := Run(s2, es, oracle, max);
         var first := s.tick + period;
         && Fires(s'.fired, t) == Fires(s.fired, t)
              + (if kind == Periodic then Multiples(first, period, s'.tick) else if s'.tick < first then [] else [first])
         && AllCalled(RunLog(s2, es, oracle, max), t, called)
  {
    hide Do, Run, RunLog, Undisturbed, WellFormed, NoWrap, EventsOk, OracleOk, Fires, Ticks, Multiples, AllCalled;
    CreateThenStart(s, t, kind, period, called, max);
    RunningExpires(Do(Do(s, Create(t, kind, period, called)), Start(t)), es, oracle, max, t);
  }

  lemma RunningExpires<T>(
      s: State<T>, es: seq<RtTmrRuns.Event<T>>, oracle: nat -> seq<Command<T>>, max: nat, t: T)
    requires RunOk(s, es, oracle, max) && t in s.recs && Undisturbed(es, oracle, t, s.recs[t])
    requires s.recs[t].status == Running && s.recs[t].period > 0 && s.recs[t].counter > s.tick
    ensures var s', r := Run(s, es, oracle, max), s.recs[t];
      && Fires(s'.fired, t) == Fires(s.fired, t)
           + (if r.kind == Periodic then Multiples(r.counter, r.period, s'.tick)
              else if s'.tick < r.counter then [] else [r.counter])
      && AllCalled(RunLog(s, es, oracle, max), t, r.hasCallback)
  {
    hide Run, RunLog, Quiet;
    RunIsTicks(s, es, oracle, max, t);
    FirstExpiries(ViewOf(s, t), Ticks(es));
    RunCalls(s, es, oracle, max, t);
  }

  lemma CreateThenStart<T>(s: State<T>, t: T, kind: Kind, period: nat, called: bool, max: nat)
    requires WellFormed(s) && NoWrap(s, max) && t in s.recs && 0 < period <= max
    requires s.recs[t].status == Init || s.recs[t].status == Stopped
    ensures WellFormed(Do(s, Create(t, kind, period, called))) && t in Do(s, Create(t, kind, period, called)).recs
    ensures var s2 := Do(Do(s, Create(t, kind, period, called)), Start(t));
      && WellFormed(s2) && NoWrap(s2, max) && s2.recs.Keys == s.recs.Keys && s2.tick == s.tick
      && s2.recs[t] == Rec(kind, period, s.tick + period, Running, called) && s2.fired == s.fired
  {
    var s1 := Do(s, Create(t, kind, period, called));
    DoKeeps(s, Create(t, kind, period, called), max);
    DoKeeps(s1, Start(t), max);
    DoStarts(s1, t, max);
  }

  lemma {:induction false} IdleTicks(v: View, n: nat)
    requires v.rec.status != Running
    ensures TicksView(v, n) == v.(tick := v.tick + n)
    decreases n
  {
    if n > 0 {
      IdleTicks(TickView(v), n - 1);
    }
  }

  /** A timer that is stopped, running or not, and left alone from then on never expires. */
  lemma StoppedNeverExpires<T>(
      s: State<T>, t: T, es: seq<RtTmrRuns.Event<T>>, oracle: nat -> seq<Command<T>>, max: nat)
    requires RunOk(s, es, oracle, max) && t in s.recs
    requires Undisturbed(es, oracle, t, s.recs[t].(status := Stopped))
    ensures RunOk(Do(s, Stop(t)), es, oracle, max)
    ensures var s' := Run(Do(s, Stop(t)), es, oracle, max);
      Fires(s'.fired, t) == Fires(s.fired, t) && s'.recs[t] == s.recs[t].(status := Stopped)
  {
    hide Run, Quiet;
    DoKeeps(s, Stop(t), max);
    RunIsTicks(Do(s, Stop(t)), es, oracle, max, t);
    IdleTicks(ViewOf(Do(s, Stop(t)), t), Ticks(es));
  }
}
