/** Timing of the rt_tmr timers over whole runs of API calls and ticks. */
module RtTmrRuns {
  import opened Common
  import opened RtTmrSpec

  datatype Event<T> = Call(command: Command<T>) | Tick

  function Ticks<T>(es: seq<Event<T>>): nat {
    if es == [] then 0 else (if es[0].Tick? then 1 else 0) + Ticks(es[1..])
  }

  ghost predicate EventsOk<T>(es: seq<Event<T>>, timers: set<T>, max: nat) {
    forall i | 0 <= i < |es| :: es[i].Call? ==> CommandOk(es[i].command, timers, max)
  }

  /** The tick counter reaches its end neither during the run nor within a period of it. */
  ghost predicate RunOk<T>(s: State<T>, es: seq<Event<T>>, oracle: nat -> seq<Command<T>>, max: nat) {
    && WellFormed(s) && NoWrap(s, max) && s.tick + Ticks(es) + max < WORD
    && EventsOk(es, s.recs.Keys, max) && OracleOk(oracle, s.recs.Keys, max)
  }

  function Next<T(==)>(s: State<T>, e: Event<T>, oracle: nat -> seq<Command<T>>, max: nat): (s': State<T>)
    requires RunOk(s, [e], oracle, max)
    ensures WellFormed(s') && NoWrap(s', max) && s'.recs.Keys == s.recs.Keys
    ensures s'.tick == s.tick + if e.Tick? then 1 else 0
  {
    assert [e][0] == e && [e][1..] == [];
    match e
    case Call(c) => DoKeeps(s, c, max); Do(s, c)
    case Tick => Update(s, oracle, max)
  }

  lemma RunOkSplits<T>(s: State<T>, es: seq<Event<T>>, oracle: nat -> seq<Command<T>>, max: nat)
    requires RunOk(s, es, oracle, max) && es != []
    ensures RunOk(s, [es[0]], oracle, max) && RunOk(Next(s, es[0], oracle, max), es[1..], oracle, max)
  {
    assert [es[0]][1..] == [];
    assert Ticks([es[0]]) <= Ticks(es);
  }

  function Run<T(==)>(s: State<T>, es: seq<Event<T>>, oracle: nat -> seq<Command<T>>, max: nat): (s': State<T>)
    requires RunOk(s, es, oracle, max)
    ensures WellFormed(s') && s'.recs.Keys == s.recs.Keys && s'.tick == s.tick + Ticks(es)
    decreases |es|
  {
    if es == [] then s
    else RunOkSplits(s, es, oracle, max); Run(Next(s, es[0], oracle, max), es[1..], oracle, max)
  }

  /** When timer t expired, in order. */
  function Fires<T(==)>(fired: seq<(T, nat)>, t: T): seq<nat> {
    if fired == [] then []
    else
      var n := |fired| - 1;
      Fires(fired[..n], t) + if fired[n].0 == t then [fired[n].1] else []
  }

  lemma FiresAppend<T>(fired: seq<(T, nat)>, u: T, now: nat, t: T)
    ensures Fires(fired + [(u, now)], t) == Fires(fired, t) + if u == t then [now] else []
  {
    assert (fired + [(u, now)])[..|fired|] == fired;
  }

  // ---------------------------------------------------------------- Undisturbed timers

  ghost predicate NeverStops<T>(cs: seq<Command<T>>, t: T) {
    forall i | 0 <= i < |cs| :: cs[i] != Stop(t)
  }

  ghost predicate NeverTouches<T>(cs: seq<Command<T>>, t: T) {
    forall i | 0 <= i < |cs| :: cs[i].timer != t
  }

  /** A running periodic timer is left running if nobody stops it; creating or starting it
      again has no effect.  Any other timer must be left alone altogether. */
  ghost predicate Leaves<T>(cs: seq<Command<T>>, t: T, r: Rec) {
    if r.status == Running && r.kind == Periodic then NeverStops(cs, t) else NeverTouches(cs, t)
  }

  ghost predicate Quiet<T>(oracle: nat -> seq<Command<T>>, t: T, r: Rec) {
    forall k: nat :: Leaves(oracle(k), t, r)
  }

  /** The record of a running timer after it expired. */
  function AfterExpiry(r: Rec, now: nat): Rec {
    if r.kind == Periodic then r.(counter := now + r.period) else r.(status := Stopped)
  }

  lemma {:induction false} ExecLeaves<T>(s: State<T>, cs: seq<Command<T>>, max: nat, t: T)
    requires WellFormed(s) && NoWrap(s, max) && CommandsOk(cs, s.recs.Keys, max)
    requires t in s.recs && Leaves(cs, t, s.recs[t])
    ensures Exec(s, cs, max).recs[t] == s.recs[t]
    decreases |cs|
  {
    if cs != [] {
      assert CommandOk(cs[0], s.recs.Keys, max);
      DoKeeps(s, cs[0], max);
      DoAddsNoTimed(s, cs[0], max);
      assert cs[0] != Stop(t) && Do(s, cs[0]).recs[t] == s.recs[t];
      ExecLeaves(Do(s, cs[0]), cs[1..], max, t);
    }
  }

  lemma RoundOnOther<T>(s: State<T>, oracle: nat -> seq<Command<T>>, max: nat, t: T)
    requires WellFormed(s) && NoWrap(s, max) && OracleOk(oracle, s.recs.Keys, max) && HeadDue(s)
    requires t in s.recs && t != s.queue[0] && Quiet(oracle, t, s.recs[t])
    ensures Round(s, oracle, max).recs[t] == s.recs[t]
    ensures Fires(Round(s, oracle, max).fired, t) == Fires(s.fired, t)
  {
    ExpireKeeps(s);
    ExpireLowersDue(s, max);
    FiresAppend(s.fired, s.queue[0], s.tick, t);
    if s.recs[s.queue[0]].hasCallback {
      ExecLeaves(Expire(s), oracle(s.calls), max, t);
    }
  }

  lemma ExpireOnHead<T>(s: State<T>, max: nat, t: T)
    requires WellFormed(s) && NoWrap(s, max) && HeadDue(s) && t == s.queue[0]
    ensures Expire(s).recs.Keys == s.recs.Keys && Expire(s).recs[t] == AfterExpiry(s.recs[t], s.tick)
    ensures Fires(Expire(s).fired, t) == Fires(s.fired, t) + [s.tick]
  {
    ExpireKeeps(s);
    FiresAppend(s.fired, t, s.tick, t);
    assert s.recs[t].status == Running;
  }

  lemma RoundOnHead<T>(s: State<T>, oracle: nat -> seq<Command<T>>, max: nat, t: T)
    requires WellFormed(s) && NoWrap(s, max) && OracleOk(oracle, s.recs.Keys, max) && HeadDue(s)
    requires t == s.queue[0] && Quiet(oracle, t, s.recs[t])
    ensures Round(s, oracle, max).recs[t] == AfterExpiry(s.recs[t], s.tick)
    ensures Fires(Round(s, oracle, max).fired, t) == Fires(s.fired, t) + [s.tick]
  {
    ExpireOnHead(s, max, t);
    ExpireLowersDue(s, max);
    if s.recs[t].hasCallback {
      assert Leaves(oracle(s.calls), t, s.recs[t]);
      ExecLeaves(Expire(s), oracle(s.calls), max, t);
    }
  }

  /** A timer that is not running stays as it is. */
  lemma {:induction false} RoundsOnIdle<T>(s: State<T>, oracle: nat -> seq<Command<T>>, max: nat, t: T)
    requires WellFormed(s) && NoWrap(s, max) && OracleOk(oracle, s.recs.Keys, max)
    requires t in s.recs && s.recs[t].status != Running && Quiet(oracle, t, s.recs[t])
    ensures Rounds(s, oracle, max).recs[t] == s.recs[t]
    ensures Fires(Rounds(s, oracle, max).fired, t) == Fires(s.fired, t)
    decreases |Due(s, true)|, |Due(s, false)|
  {
    if HeadDue(s) {
      RoundOnOther(s, oracle, max, t);
      RoundsOnIdle(Round(s, oracle, max), oracle, max, t);
    }
  }

  /** The update loop expires a running timer once if its time has come, and otherwise not. */
  lemma {:induction false} RoundsOnRunning<T>(s: State<T>, oracle: nat -> seq<Command<T>>, max: nat, t: T)
    requires WellFormed(s) && NoWrap(s, max) && OracleOk(oracle, s.recs.Keys, max)
    requires t in s.recs && s.recs[t].status == Running && Quiet(oracle, t, s.recs[t])
    requires s.recs[t].counter >= s.tick
    ensures s.recs[t].counter > s.tick ==>
      Rounds(s, oracle, max).recs[t] == s.recs[t] && Fires(Rounds(s, oracle, max).fired, t) == Fires(s.fired, t)
    ensures s.recs[t].counter == s.tick ==>
      && Rounds(s, oracle, max).recs[t] == AfterExpiry(s.recs[t], s.tick)
      && Fires(Rounds(s, oracle, max).fired, t) == Fires(s.fired, t) + [s.tick]
    decreases |Due(s, true)|, |Due(s, false)|
  {
    if !HeadDue(s) {
      HeadIsLeast(s, t);
    } else if t != s.queue[0] {
      RoundOnOther(s, oracle, max, t);
      RoundsOnRunning(Round(s, oracle, max), oracle, max, t);
    } else {
      RoundOnHead(s, oracle, max, t);
      RoundsOnExpired(s, oracle, max, t);
    }
  }

  lemma {:induction false} RoundsOnExpired<T>(s: State<T>, oracle: nat -> seq<Command<T>>, max: nat, t: T)
    requires WellFormed(s) && NoWrap(s, max) && OracleOk(oracle, s.recs.Keys, max) && HeadDue(s)
    requires t in s.recs && s.recs[t].status == Running && Quiet(oracle, t, s.recs[t])
    requires Round(s, oracle, max).recs[t] == AfterExpiry(s.recs[t], s.tick)
    ensures var s1 := Round(s, oracle, max);
      && Rounds(s1, oracle, max).recs[t] == s1.recs[t]
      && Fires(Rounds(s1, oracle, max).fired, t) == Fires(s1.fired, t)
    decreases |Due(s, true)|, |Due(s, false)|, 0
  {
    var s1 := Round(s, oracle, max);
    assert Quiet(oracle, t, s1.recs[t]) by {
      assert forall k: nat :: Leaves(oracle(k), t, s.recs[t]) ==> Leaves(oracle(k), t, s1.recs[t]);
    }
    if s.recs[t].kind == Periodic {
      assert RecOk(s.recs[t]);
      RoundsOnRunning(s1, oracle, max, t);
    } else {
      RoundsOnIdle(s1, oracle, max, t);
    }
  }

  lemma HeadIsLeast<T>(s: State<T>, t: T)
    requires WellFormed(s) && t in s.queue
    ensures s.recs[s.queue[0]].counter <= s.recs[t].counter
  {}

  // ---------------------------------------------------------------- One timer's view of a run

  /** What a run looks like from one timer: its record, when it expired, the time. */
  datatype View = View(rec: Rec, fires: seq<nat>, tick: nat)

  function ViewOf<T(==)>(s: State<T>, t: T): View
    requires t in s.recs
  {
    View(s.recs[t], Fires(s.fired, t), s.tick)
  }

  /** The effect of the update loop: a running timer whose counter is now expires once. */
  function Settled(v: View): View {
    if v.rec.status == Running && v.rec.counter == v.tick
    then v.(rec := AfterExpiry(v.rec, v.tick), fires := v.fires + [v.tick])
    else v
  }

  function TickView(v: View): View {
    Settled(v.(tick := v.tick + 1))
  }

  function TicksView(v: View, n: nat): View
    decreases n
  {
    if n == 0 then v else TicksView(TickView(v), n - 1)
  }

  predicate Ahead(r: Rec, now: nat) {
    r.status == Running ==> r.counter > now
  }

  lemma UpdateIsRounds<T>(s: State<T>, oracle: nat -> seq<Command<T>>, max: nat)
    requires WellFormed(s) && NoWrap(s, max) && s.tick + 1 + max < WORD && OracleOk(oracle, s.recs.Keys, max)
    ensures var s1 := s.(tick := s.tick + 1);
      WellFormed(s1) && NoWrap(s1, max) && Update(s, oracle, max) == Rounds(s1, oracle, max)
  {}

  lemma RoundsSettle<T>(s: State<T>, oracle: nat -> seq<Command<T>>, max: nat, t: T)
    requires WellFormed(s) && NoWrap(s, max) && OracleOk(oracle, s.recs.Keys, max)
    requires t in s.recs && Quiet(oracle, t, s.recs[t])
    requires s.recs[t].status == Running ==> s.recs[t].counter >= s.tick
    ensures ViewOf(Rounds(s, oracle, max), t) == Settled(ViewOf(s, t))
  {
    if s.recs[t].status == Running {
      RoundsOnRunning(s, oracle, max, t);
    } else {
      RoundsOnIdle(s, oracle, max, t);
    }
  }

  lemma UpdateIsTickView<T>(s: State<T>, oracle: nat -> seq<Command<T>>, max: nat, t: T)
    requires WellFormed(s) && NoWrap(s, max) && s.tick + 1 + max < WORD && OracleOk(oracle, s.recs.Keys, max)
    requires t in s.recs && Quiet(oracle, t, s.recs[t]) && Ahead(s.recs[t], s.tick)
    ensures ViewOf(Update(s, oracle, max), t) == TickView(ViewOf(s, t))
  {
    UpdateIsRounds(s, oracle, max);
    RoundsSettle(s.(tick := s.tick + 1), oracle, max, t);
  }

  lemma CallKeepsView<T>(s: State<T>, c: Command<T>, max: nat, t: T)
    requires WellFormed(s) && NoWrap(s, max) && CommandOk(c, s.recs.Keys, max)
    requires t in s.recs && Leaves([c], t, s.recs[t])
    ensures WellFormed(Do(s, c)) && t in Do(s, c).recs && ViewOf(Do(s, c), t) == ViewOf(s, t)
  {
    DoKeeps(s, c, max);
    assert [c][0] == c;
  }

  ghost predicate EventLeaves<T>(e: Event<T>, t: T, r: Rec) {
    e.Call? ==> Leaves([e.command], t, r)
  }

  lemma NextIsView<T>(s: State<T>, e: Event<T>, oracle: nat -> seq<Command<T>>, max: nat, t: T)
    requires RunOk(s, [e], oracle, max)
    requires t in s.recs && Quiet(oracle, t, s.recs[t]) && Ahead(s.recs[t], s.tick)
    requires EventLeaves(e, t, s.recs[t])
    ensures ViewOf(Next(s, e, oracle, max), t) == if e.Tick? then TickView(ViewOf(s, t)) else ViewOf(s, t)
  {
    assert [e][0] == e && [e][1..] == [];
    match e
    case Call(c) => CallKeepsView(s, c, max, t);
    case Tick => UpdateIsTickView(s, oracle, max, t);
  }

  /** The events and the callbacks leave timer t alone from state s on. */
  ghost predicate Undisturbed<T>(es: seq<Event<T>>, oracle: nat -> seq<Command<T>>, t: T, r: Rec) {
    && (forall i | 0 <= i < |es| :: EventLeaves(es[i], t, r))
    && Quiet(oracle, t, r)
  }

  lemma StillUndisturbed<T>(es: seq<Event<T>>, oracle: nat -> seq<Command<T>>, t: T, v: View)
    requires es != [] && Undisturbed(es, oracle, t, v.rec)
    ensures Undisturbed(es[1..], oracle, t, v.rec)
    ensures Undisturbed(es[1..], oracle, t, TickView(v).rec)
  {
    var r' := TickView(v).rec;
    assert forall k: nat :: Leaves(oracle(k), t, v.rec) ==> Leaves(oracle(k), t, r');
    assert forall i | 0 <= i < |es[1..]| :: es[1..][i] == es[i + 1];
    assert forall e: Event<T> :: EventLeaves(e, t, v.rec) ==> EventLeaves(e, t, r');
  }

  lemma PeriodicHasPeriod<T>(s: State<T>, t: T)
    requires WellFormed(s) && t in s.recs
    ensures s.recs[t].kind == Periodic ==> s.recs[t].period > 0
  {
    assert RecOk(s.recs[t]);
  }

  lemma NextStaysUndisturbed<T>(
      s: State<T>, es: seq<Event<T>>, oracle: nat -> seq<Command<T>>, max: nat, t: T)
    requires es != [] && RunOk(s, [es[0]], oracle, max)
    requires t in s.recs && Undisturbed(es, oracle, t, s.recs[t]) && Ahead(s.recs[t], s.tick)
    ensures var s' := Next(s, es[0], oracle, max);
      && ViewOf(s', t) == (if es[0].Tick? then TickView(ViewOf(s, t)) else ViewOf(s, t))
      && Undisturbed(es[1..], oracle, t, s'.recs[t]) && Ahead(s'.recs[t], s'.tick)
  {
    NextIsView(s, es[0], oracle, max, t);
    StillUndisturbed(es, oracle, t, ViewOf(s, t));
    PeriodicHasPeriod(s, t);
    StaysAhead(ViewOf(s, t));
  }

  lemma StaysAhead(v: View)
    requires Ahead(v.rec, v.tick) && (v.rec.kind == Periodic ==> v.rec.period > 0)
    ensures Ahead(TickView(v).rec, TickView(v).tick)
  {}

  /** For an undisturbed timer a run is just its ticks. */
  lemma {:induction false} RunIsTicks<T>(s: State<T>, es: seq<Event<T>>, oracle: nat -> seq<Command<T>>, max: nat, t: T)
    requires RunOk(s, es, oracle, max)
    requires t in s.recs && Undisturbed(es, oracle, t, s.recs[t]) && Ahead(s.recs[t], s.tick)
    ensures ViewOf(Run(s, es, oracle, max), t) == TicksView(ViewOf(s, t), Ticks(es))
    decreases |es|
  {
    if es != [] {
      RunOkSplits(s, es, oracle, max);
      NextStaysUndisturbed(s, es, oracle, max, t);
      var s1 := Next(s, es[0], oracle, max);
      RunIsTicks(s1, es[1..], oracle, max, t);
      assert Run(s, es, oracle, max) == Run(s1, es[1..], oracle, max);
      TicksOfFirst(ViewOf(s, t), ViewOf(s1, t), es);
    }
  }

  lemma TicksOfFirst<T>(v: View, v1: View, es: seq<Event<T>>)
    requires es != [] && v1 == if es[0].Tick? then TickView(v) else v
    ensures TicksView(v1, Ticks(es[1..])) == TicksView(v, Ticks(es))
  {}

  // ---------------------------------------------------------------- Main results

  /** start, start + period, ... as far as last. */
  function Multiples(start: nat, period: nat, last: nat): seq<nat>
    requires period > 0
    decreases last + 1 - start
  {
    if start > last then [] else [start] + Multiples(start + period, period, last)
  }

  /** The first of start, start + period, ... that lies after now. */
  function NextAfter(start: nat, period: nat, now: nat): (n: nat)
    requires period > 0
    ensures n > now
    decreases now + 1 - start
  {
    if start > now then start else NextAfter(start + period, period, now)
  }

  lemma {:induction false} MultiplesGrow(start: nat, period: nat, now: nat)
    requires period > 0
    ensures Multiples(start, period, now + 1)
         == Multiples(start, period, now) + if NextAfter(start, period, now) == now + 1 then [now + 1] else []
    ensures NextAfter(start, period, now + 1)
         == if NextAfter(start, period, now) == now + 1 then now + 1 + period else NextAfter(start, period, now)
    decreases now + 1 - start
  {
    if start <= now {
      MultiplesGrow(start + period, period, now);
    } else if start == now + 1 {
      assert Multiples(start + period, period, now + 1) == [];
    }
  }

  lemma {:induction false} PeriodicTicks(v: View, n: nat, start: nat, base: seq<nat>)
    requires v.rec.status == Running && v.rec.kind == Periodic && v.rec.period > 0
    requires v.rec.counter == NextAfter(start, v.rec.period, v.tick)
    requires v.fires == base + Multiples(start, v.rec.period, v.tick)
    ensures TicksView(v, n).fires == base + Multiples(start, v.rec.period, v.tick + n)
    decreases n
  {
    if n > 0 {
      MultiplesGrow(start, v.rec.period, v.tick);
      PeriodicTicks(TickView(v), n - 1, start, base);
    }
  }

  lemma PeriodicFromNow(v: View, n: nat)
    requires v.rec.status == Running && v.rec.kind == Periodic && v.rec.period > 0 && v.rec.counter > v.tick
    ensures TicksView(v, n).fires == v.fires + Multiples(v.rec.counter, v.rec.period, v.tick + n)
  {
    assert v.fires + [] == v.fires;
    PeriodicTicks(v, n, v.rec.counter, v.fires);
  }

  lemma {:induction false} OneShotTicks(v: View, n: nat)
    requires v.rec.kind == OneShot && (v.rec.status == Running ==> v.rec.counter > v.tick)
    ensures TicksView(v, n)
         == if v.rec.status != Running || v.tick + n < v.rec.counter then v.(tick := v.tick + n)
            else View(v.rec.(status := Stopped), v.fires + [v.rec.counter], v.tick + n)
    decreases n
  {
    if n > 0 {
      OneShotTicks(TickView(v), n - 1);
    }
  }

  /** rt_tmr_start sets the first expiry one period ahead. */
  lemma StartView<T>(s: State<T>, t: T, max: nat)
    requires WellFormed(s) && NoWrap(s, max) && t in s.recs
    requires s.recs[t].status == Created || s.recs[t].status == Stopped
    ensures t in DoStart(s, t).recs
    ensures ViewOf(DoStart(s, t), t)
         == View(s.recs[t].(counter := s.tick + s.recs[t].period, status := Running), Fires(s.fired, t), s.tick)
  {}

  /** A running periodic timer that nobody stops expires at its counter and then once every
      period, at exactly these ticks, whatever else the application and the callbacks
      create, start or stop. */
  lemma PeriodicIsExact<T>(s: State<T>, es: seq<Event<T>>, oracle: nat -> seq<Command<T>>, max: nat, t: T)
    requires RunOk(s, es, oracle, max)
    requires t in s.recs && s.recs[t].status == Running && s.recs[t].kind == Periodic
    requires s.recs[t].counter > s.tick && Undisturbed(es, oracle, t, s.recs[t])
    ensures var s', r := Run(s, es, oracle, max), s.recs[t];
      r.period > 0 && Fires(s'.fired, t) == Fires(s.fired, t) + Multiples(r.counter, r.period, s'.tick)
  {
    PeriodicHasPeriod(s, t);
    RunIsTicks(s, es, oracle, max, t);
    PeriodicAfter(s, Run(s, es, oracle, max), t, Ticks(es));
  }

  lemma PeriodicAfter<T>(s: State<T>, s': State<T>, t: T, n: nat)
    requires t in s.recs && t in s'.recs && ViewOf(s', t) == TicksView(ViewOf(s, t), n) && s'.tick == s.tick + n
    requires s.recs[t].status == Running && s.recs[t].kind == Periodic
    requires s.recs[t].period > 0 && s.recs[t].counter > s.tick
    ensures Fires(s'.fired, t) == Fires(s.fired, t) + Multiples(s.recs[t].counter, s.recs[t].period, s'.tick)
  {
    PeriodicFromNow(ViewOf(s, t), n);
  }

  /** A running one-shot timer that is left alone expires once, at its counter, and is
      stopped from then on. */
  lemma OneShotIsExact<T>(s: State<T>, es: seq<Event<T>>, oracle: nat -> seq<Command<T>>, max: nat, t: T)
    requires RunOk(s, es, oracle, max)
    requires t in s.recs && s.recs[t].status == Running && s.recs[t].kind == OneShot
    requires s.recs[t].counter > s.tick && Undisturbed(es, oracle, t, s.recs[t])
    ensures var s', r := Run(s, es, oracle, max), s.recs[t];
      if s'.tick < r.counter then s'.recs[t] == r && Fires(s'.fired, t) == Fires(s.fired, t)
      else s'.recs[t] == r.(status := Stopped) && Fires(s'.fired, t) == Fires(s.fired, t) + [r.counter]
  {
    RunIsTicks(s, es, oracle, max, t);
    OneShotTicks(ViewOf(s, t), Ticks(es));
  }

  // ---------------------------------------------------------------- When a sum wraps

  /** n rounds of the update loop, or as many as there are, without callbacks; sums wrap. */
  function Expiries<T(==)>(s: State<T>, n: nat): (s': State<T>)
    requires WellFormed(s)
    ensures WellFormed(s')
    decreases n
  {
    if n == 0 || !HeadDue(s) then s else ExpireKeeps(s); Expiries(Expire(s), n - 1)
  }

  ghost predicate InWords<T>(s: State<T>) {
    s.tick < WORD && forall t | t in s.recs :: s.recs[t].period < WORD
  }

  /** A linked periodic timer whose time has come, and whose next counter wraps. */
  predicate Wraps<T>(s: State<T>, t: T)
    requires Known(s.queue, s.recs)
  {
    t in s.queue && s.recs[t].kind == Periodic && s.recs[t].counter <= s.tick && s.tick + s.recs[t].period >= WORD
  }

  /** The linked timers whose time has come. */
  function AllDue<T(==)>(s: State<T>): set<T>
    requires Known(s.queue, s.recs)
  {
    set t | t in s.queue && s.recs[t].counter <= s.tick
  }

  /** One expiry: a timer that wraps stays due, any other one is due no longer. */
  lemma ExpiryOf<T>(s: State<T>)
    requires WellFormed(s) && InWords(s) && HeadDue(s)
    ensures WellFormed(Expire(s)) && InWords(Expire(s))
    ensures forall t :: Wraps(Expire(s), t) <==> Wraps(s, t)
    ensures !Wraps(s, s.queue[0]) ==> AllDue(Expire(s)) == AllDue(s) - {s.queue[0]}
  {
    ExpireKeeps(s);
    ExpiredWraps(s, Expire(s), s.queue[0]);
  }

  lemma ExpiredWraps<T>(s: State<T>, s': State<T>, t: T)
    requires WellFormed(s) && WellFormed(s') && InWords(s) && t in s.queue && s.recs[t].counter <= s.tick
    requires Expired(s, s', t)
    ensures InWords(s') && forall u :: Wraps(s', u) <==> Wraps(s, u)
    ensures !Wraps(s, t) ==> AllDue(s') == AllDue(s) - {t}
  {
    var sum := s.tick + s.recs[t].period;
    assert Add32(s.tick, s.recs[t].period) == if sum < WORD then sum else sum - WORD;
    assert s.recs[t].kind == Periodic ==> s.recs[t].period > 0;
  }

  lemma HeadKnown<T>(s: State<T>)
    requires WellFormed(s)
    ensures Known(s.queue, s.recs)
  {}

  /** A timer that wraps is due again after any number of rounds. */
  lemma {:induction false} WrappedTimerSpins<T>(s: State<T>, t: T, n: nat)
    requires WellFormed(s) && InWords(s) && Wraps(s, t)
    ensures HeadDue(Expiries(s, n))
    decreases n
  {
    hide Expire, Ordered;
    HeadIsLeast(s, t);
    HeadKnown(s);
    if n > 0 {
      ExpiryOf(s);
      WrappedTimerSpins(Expire(s), t, n - 1);
    }
  }

  lemma {:induction false} NoWrapEnds<T>(s: State<T>, n: nat)
    requires WellFormed(s) && InWords(s) && |AllDue(s)| <= n && forall t :: !Wraps(s, t)
    ensures !HeadDue(Expiries(s, n))
    decreases n
  {
    hide Expire, Ordered;
    HeadKnown(s);
    if HeadDue(s) {
      assert s.queue[0] in AllDue(s);
      ExpiryOf(s);
      NoWrapEnds(Expire(s), n - 1);
    }
  }

  /** Without callbacks, the loop of rt_tmr_update ends exactly when no linked periodic timer
      whose time has come has a period that reaches beyond the end of the tick counter. */
  lemma LoopEndsIff<T>(s: State<T>)
    requires WellFormed(s) && InWords(s)
    ensures (exists n: nat :: !HeadDue(Expiries(s, n))) <==> forall t | t in s.queue :: !Wraps(s, t)
  {
    if t :| t in s.queue && Wraps(s, t) {
      forall n: nat ensures HeadDue(Expiries(s, n)) {
        WrappedTimerSpins(s, t, n);
      }
    } else {
      NoWrapEnds(s, |AllDue(s)|);
    }
  }
}
