/** utils/src/etimer.c itself, with the timer list of utils/src/list.c and the event queue of
    utils/src/evproc.c; now is what bsp_getTick returns. */
module Etimer {
  import opened Common
  import opened LinkedList
  import opened EtimerSpec
  import opened Evproc
  import EvprocSpec

  const TMR_OVRFLOW_VAL: nat := 0xffff_ffff

  /** all are the event timers that the application owns. */
  class EventTimers {
    const list: List<Timer>
    const events: Processor<Item?<Timer>>
    ghost const all: set<Item<Timer>>

    ghost predicate Valid()
      reads list, list.items, all, events, events.evList, events.types, events.regList
    {
      && list.Valid() && events.Valid()
      && (forall i | 0 <= i < |list.items| :: list.items[i] in all)
      && (forall t | t in all :: InWords(t.val))
    }

    /** A timer is active if and only if it is on the list. */
    ghost predicate ActiveIffListed()
      reads list, all
    {
      forall t | t in all :: t.val.active <==> t in list.items
    }

    /** Which of the items have expired. */
    ghost function Due(items: seq<Item<Timer>>, now: nat): (r: seq<bool>)
      requires now < WORD && forall i | 0 <= i < |items| :: InWords(items[i].val)
      reads items
      ensures |r| == |items| && forall i | 0 <= i < |items| :: r[i] == Expired(items[i].val, now)
    {
      seq(|items|, i requires 0 <= i < |items| && InWords(items[i].val) reads items => Expired(items[i].val, now))
    }

    constructor (all: set<Item<Timer>>)
      requires forall t | t in all :: InWords(t.val) && !t.val.active
      ensures Valid() && ActiveIffListed() && list.items == [] && this.all == all
      ensures fresh(list) && fresh(events)
    {
      list := new List<Timer>();
      events := new Processor<Item?<Timer>>(null);
      this.all := all;
    }

    /** _etimer_addTimer. */
    method AddTimer(t: Item<Timer>)
      requires Valid() && t in all
      modifies list, list.items, t
      ensures Valid() && list.items == Without(old(list.items), t) + [t]
      ensures t.val == old(t.val).(active := true)
      ensures forall x | x in all && x != t :: x.val == old(x.val)
    {
      DistinctWithout(list.items, t);
      list.Remove(t);
      WithoutAbsent(list.items, t);
      list.Add(t);
      t.val := t.val.(active := true);
    }

    /** etimer_set. */
    method Set(t: Item<Timer>, interval: nat, callback: nat, now: nat)
      requires Valid() && t in all && interval < WORD && now < WORD
      modifies list, list.items, t, events.regList
      ensures Valid() && list.items == Without(old(list.items), t) + [t]
      ensures t.val == Timer(now, interval, true)
      ensures forall x | x in all && x != t :: x.val == old(x.val)
      ensures events.Row(EvprocSpec.EVENT_TYPE_TIMER_EXP)
           == if callback == 0 then old(events.Row(EvprocSpec.EVENT_TYPE_TIMER_EXP))
              else EvprocSpec.Registered(old(events.Row(EvprocSpec.EVENT_TYPE_TIMER_EXP)), callback).0
      ensures events.SameRows(EvprocSpec.EVENT_TYPE_TIMER_EXP)
      ensures old(ActiveIffListed()) ==> ActiveIffListed()
    {
      DistinctWithout(list.items, t);
      t.val := t.val.(interval := interval);
      t.val := t.val.(start := now);
      AddTimer(t);
      var code := events.RegCallback(EvprocSpec.EVENT_TYPE_TIMER_EXP, callback);
    }

    /** etimer_stop. */
    method Stop(t: Item<Timer>)
      requires Valid() && t in all
      modifies list, list.items, t
      ensures Valid() && list.items == Without(old(list.items), t)
      ensures t.val == old(t.val).(active := false)
      ensures forall x | x in all && x != t :: x.val == old(x.val)
      ensures old(ActiveIffListed()) ==> ActiveIffListed()
    {
      DistinctWithout(list.items, t);
      list.Remove(t);
      t.val := t.val.(active := false);
    }

    /** etimer_reset. */
    method Reset(t: Item<Timer>)
      requires Valid() && t in all
      modifies list, list.items, t
      ensures Valid() && list.items == Without(old(list.items), t) + [t]
      ensures t.val == Timer((old(t.val.start) + t.val.interval) % WORD, old(t.val.interval), true)
      ensures forall x | x in all && x != t :: x.val == old(x.val)
      ensures old(ActiveIffListed()) ==> ActiveIffListed()
    {
      DistinctWithout(list.items, t);
      t.val := t.val.(start := (t.val.start + t.val.interval) % WORD);
      AddTimer(t);
    }

    /** etimer_restart. */
    method Restart(t: Item<Timer>, now: nat)
      requires Valid() && t in all && now < WORD
      modifies list, list.items, t
      ensures Valid() && list.items == Without(old(list.items), t) + [t]
      ensures t.val == Timer(now, old(t.val.interval), true)
      ensures forall x | x in all && x != t :: x.val == old(x.val)
      ensures old(ActiveIffListed()) ==> ActiveIffListed()
    {
      DistinctWithout(list.items, t);
      t.val := t.val.(start := now);
      AddTimer(t);
    }
  
    /** etimer_request_poll. */
    method RequestPoll(now: nat)
      requires Valid() && ActiveIffListed() && now < WORD
      modifies list, list.items, events`queueSize, events.evList, events`ran
      ensures Valid() && ActiveIffListed()
      ensures var items, due := old(list.items), old(Due(list.items, now));
        && list.items == Kept(items, due, |items|)
        && events.Queue() == Queued(old(events.Queue()), items, due, |items|)
      ensures forall t | t in all :: t.val.(active := false) == old(t.val).(active := false)
    {
      hide Kept, Rest, Queued, Expired, Distinct;
      ghost var items, due, q := list.items, Due(list.items, now), events.Queue();
      RestEnds(items, due);
      NothingPolled(items, due, q);
      var t := list.head;
      if t == null {
        return;
      }
      ghost var k := 0;
      while t != null
        invariant k <= |items| && t == if k < |items| then items[k] else null
        invariant Valid() && Polled(items, due, q, k) && ActiveIffListed()
        invariant forall x | x in all :: x.val.(active := false) == old(x.val).(active := false)
        decreases |items| - k
      {
        SameExpiry(old(items[k].val), items[k].val, now);
        t := PollOne(t, items, due, q, k, now);
        k := k + 1;
      }
    }

    /** What a poll has done once it has looked at the first k items. */
    ghost predicate Polled(items: seq<Item<Timer>>, due: seq<bool>, q: seq<EvprocSpec.Event<Item?<Timer>>>, k: nat)
      requires |due| == |items| && k <= |items| && events.Valid()
      reads list`items, events, events.evList, events.types, events.regList
    {
      list.items == Rest(items, due, k) && events.Queue() == Queued(q, items, due, k)
    }

    /** One turn of the loop. */
    method PollOne(t: Item<Timer>, ghost items: seq<Item<Timer>>, ghost due: seq<bool>,
        ghost q: seq<EvprocSpec.Event<Item?<Timer>>>, ghost k: nat, now: nat) returns (next: Item?<Timer>)
      requires Valid() && |due| == |items| && k < |items| && Distinct(items) && t == items[k] && now < WORD
      requires InWords(t.val) && due[k] == Expired(t.val, now) && Polled(items, due, q, k)
      modifies list, list.items, events`queueSize, events.evList, events`ran
      ensures Valid() && Polled(items, due, q, k + 1)
      ensures next == Succ(items, k)
      ensures t.val.(active := false) == old(t.val).(active := false)
      ensures forall x | x in all && x != t :: x.val == old(x.val)
      ensures old(ActiveIffListed()) ==> ActiveIffListed()
    {
      hide Kept, Rest, Without, Expired;
      RestSteps(items, due, k);
      next := NextOf(t, |Kept(items, due, k)|);
      var expired := TimerExpired(t.val, now);
      if expired {
        Expire(t);
      }
    }

    /** list_item_next, for an item on the list. */
    method NextOf(t: Item<Timer>, ghost at: nat) returns (n: Item?<Timer>)
      requires list.Valid() && at < |list.items| && list.items[at] == t
      ensures n == Succ(list.items, at)
    {
      n := t.next;
    }

    /** timer_expired: right also when the tick has wrapped once since the start. */
    method TimerExpired(t: Timer, now: nat) returns (expired: bool)
      requires InWords(t) && now < WORD
      ensures expired == Expired(t, now)
    {
      var expiredtime;
      if now >= t.start {
        expiredtime := now - t.start;
      } else {
        expiredtime := TMR_OVRFLOW_VAL - t.start + now + 1;
      }
      expired := t.interval < expiredtime;
    }

    /** What a poll does with an expired timer. */
    method Expire(t: Item<Timer>)
      requires Valid() && t in list.items
      modifies list, list.items, events`queueSize, events.evList, events`ran
      ensures Valid() && list.items == Without(old(list.items), t)
      ensures events.Queue() == EvprocSpec.PutTail(old(events.Queue()), Expiry<Item?<Timer>>(t)).0
      ensures t.val == old(t.val).(active := false)
      ensures forall x | x in all && x != t :: x.val == old(x.val)
      ensures old(ActiveIffListed()) ==> ActiveIffListed()
    {
      var code := events.PutEvent(AtTail, EvprocSpec.EVENT_TYPE_TIMER_EXP, t);
      DistinctWithout(list.items, t);
      list.Remove(t);
      t.val := t.val.(active := false);
    }
  }
}
