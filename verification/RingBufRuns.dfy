/** One producer and one consumer on a ring of utils/src/ringbufindex.c, interleaved at the
    level of single reads and writes of the shared indices.

    Each side reads its own index at will, as nobody else writes it; a step reads or writes the
    other side's index, or touches a slot, at most once. */
module RingBufRuns {
  import opened Buffers
  import opened RingBufIndex

  /** Where the producer is: outside; after a ringbufindex_peek_put that found room; with v
      written to the slot; inside ringbufindex_put, with the ring found not full. */
  datatype Producer<V> = Outside | Room | Filled(v: V) | Putting(v: V)

  /** Where the consumer is: outside; after a ringbufindex_peek_get that found an element;
      with v read from the slot; inside ringbufindex_get, with the ring found not empty. */
  datatype Consumer<V> = Away | Found | Taken(v: V) | Getting(v: V)

  /** stored and received are the values whose put and get are complete; refused counts the
      calls of ringbufindex_put and ringbufindex_get that failed after a successful peek. */
  datatype State<V> = State(n: nat, put: nat, get: nat, slots: seq<V>,
    producer: Producer<V>, consumer: Consumer<V>, stored: seq<V>, received: seq<V>, refused: nat)

  /** The next step of the producer, with the value it stores if it is about to, or of the
      consumer. */
  datatype Step<V> = Produce(v: V) | Consume

  predicate WellFormed<V>(s: State<V>) {
    s.n > 0 && s.put < s.n && s.get < s.n && |s.slots| == s.n
  }

  function Full<V>(s: State<V>): bool
    requires WellFormed(s)
  {
    Between(s.put, s.get, s.n) == s.n - 1
  }

  function Empty<V>(s: State<V>): bool
    requires WellFormed(s)
  {
    Between(s.put, s.get, s.n) == 0
  }

  function DoProduce<V>(s: State<V>, v: V): (r: State<V>)
    requires WellFormed(s)
    ensures WellFormed(r)
  {
    match s.producer
    case Outside => if Full(s) then s else s.(producer := Room)
    case Room => s.(slots := s.slots[s.put := v], producer := Filled(v))
    case Filled(w) =>
      if Full(s) then s.(producer := Outside, refused := s.refused + 1) else s.(producer := Putting(w))
    case Putting(w) => s.(put := Next(s.put, s.n), stored := s.stored + [w], producer := Outside)
  }

  function DoConsume<V>(s: State<V>): (r: State<V>)
    requires WellFormed(s)
    ensures WellFormed(r)
  {
    match s.consumer
    case Away => if Empty(s) then s else s.(consumer := Found)
    case Found => s.(consumer := Taken(s.slots[s.get]))
    case Taken(w) =>
      if Empty(s) then s.(consumer := Away, refused := s.refused + 1) else s.(consumer := Getting(w))
    case Getting(w) => s.(get := Next(s.get, s.n), received := s.received + [w], consumer := Away)
  }

  function Do<V>(s: State<V>, step: Step<V>): (r: State<V>)
    requires WellFormed(s)
    ensures WellFormed(r)
  {
    match step
    case Produce(v) => DoProduce(s, v)
    case Consume => DoConsume(s)
  }

  function Run<V>(s: State<V>, steps: seq<Step<V>>): (r: State<V>)
    requires WellFormed(s)
    ensures WellFormed(r)
    decreases |steps|
  {
    if steps == [] then s else Run(Do(s, steps[0]), steps[1..])
  }

  // ---------------------------------------------------------------- The invariant

  /** The slot of the i-th element counted from get. */
  function Slot(get: nat, n: nat, i: nat): (k: nat)
    requires get < n && i < n
    ensures k < n
  {
    if get + i < n then get + i else get + i - n
  }

  ghost predicate Inv<V>(s: State<V>) {
    && WellFormed(s)
    && |s.stored| == |s.received| + Between(s.put, s.get, s.n)
    && s.received <= s.stored
    && (forall i | 0 <= i < Between(s.put, s.get, s.n) :: s.slots[Slot(s.get, s.n, i)] == s.stored[|s.received| + i])
    && (s.producer != Outside ==> !Full(s))
    && (s.producer.Filled? || s.producer.Putting? ==> s.slots[s.put] == s.producer.v)
    && (s.consumer != Away ==> !Empty(s))
    && (s.consumer.Taken? || s.consumer.Getting? ==> s.consumer.v == s.stored[|s.received|])
    && s.refused == 0
  }

  /** The producer's slot is none of those the consumer may still read. */
  lemma ProducerSlotIsFree<V>(s: State<V>, i: nat)
    requires WellFormed(s) && i < Between(s.put, s.get, s.n)
    ensures Slot(s.get, s.n, i) != s.put
  {}

  lemma PutSlot<V>(s: State<V>)
    requires WellFormed(s)
    ensures Slot(s.get, s.n, Between(s.put, s.get, s.n)) == s.put
  {}

  lemma ProduceKeeps<V>(s: State<V>, v: V)
    requires Inv(s)
    ensures Inv(DoProduce(s, v))
  {
    var t := DoProduce(s, v);
    match s.producer
    case Outside =>
    case Room =>
      forall i | 0 <= i < Between(t.put, t.get, t.n) ensures t.slots[Slot(t.get, t.n, i)] == t.stored[|t.received| + i] {
        ProducerSlotIsFree(s, i);
      }
    case Filled(w) =>
    case Putting(w) =>
      PutSlot(s);
      assert Between(t.put, t.get, t.n) == Between(s.put, s.get, s.n) + 1;
  }

  lemma ConsumeKeeps<V>(s: State<V>)
    requires Inv(s)
    ensures Inv(DoConsume(s))
  {
    match s.consumer
    case Away =>
    case Found => assert Slot(s.get, s.n, 0) == s.get;
    case Taken(w) =>
    case Getting(w) => GetKeeps(s);
  }

  lemma GetKeeps<V>(s: State<V>)
    requires Inv(s) && s.consumer.Getting?
    ensures Inv(DoConsume(s))
  {
    var t := DoConsume(s);
    assert Between(t.put, t.get, t.n) == Between(s.put, s.get, s.n) - 1;
    assert t.received == s.stored[..|s.received| + 1];
    forall i | 0 <= i < Between(t.put, t.get, t.n) ensures t.slots[Slot(t.get, t.n, i)] == t.stored[|t.received| + i] {
      assert Slot(t.get, t.n, i) == Slot(s.get, s.n, i + 1);
    }
  }

  function Started<V>(slots: seq<V>): State<V>
    requires slots != []
  {
    State(|slots|, 0, 0, slots, Outside, Away, [], [], 0)
  }

  /** Whatever way the steps of the two sides interleave: the values received are the first
      ones stored, in order; put and get never fail after a successful peek; and while the
      producer may write its slot, the consumer reads another one. */
  lemma {:induction false} ReceivedIsPrefix<V>(s: State<V>, steps: seq<Step<V>>)
    requires Inv(s)
    ensures var t := Run(s, steps);
      && Inv(t) && t.received <= t.stored && t.refused == 0
      && |t.stored| - |t.received| < t.n
      && (t.producer.Room? && t.consumer.Found? ==> t.put != t.get)
    decreases |steps|
  {
    if steps != [] {
      match steps[0] {
        case Produce(v) => ProduceKeeps(s, v);
        case Consume => ConsumeKeeps(s);
      }
      ReceivedIsPrefix(Do(s, steps[0]), steps[1..]);
    }
  }

  lemma StartIsGood<V>(slots: seq<V>)
    requires slots != []
    ensures Inv(Started(slots))
  {}

  /** The same for every run from an empty ring of any size. */
  lemma EveryRunIsSafe<V>(slots: seq<V>, steps: seq<Step<V>>)
    requires slots != []
    ensures var t := Run(Started(slots), steps);
      && t.received <= t.stored && t.refused == 0 && |t.stored| - |t.received| < |slots|
      && (t.producer.Room? && t.consumer.Found? ==> t.put != t.get)
  {
    StartIsGood(slots);
    ReceivedIsPrefix(Started(slots), steps);
    SizeStays(Started(slots), steps);
  }

  lemma {:induction false} SizeStays<V>(s: State<V>, steps: seq<Step<V>>)
    requires WellFormed(s)
    ensures Run(s, steps).n == s.n
    decreases |steps|
  {
    if steps != [] {
      SizeStays(Do(s, steps[0]), steps[1..]);
    }
  }
}
