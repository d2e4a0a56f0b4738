/** emb6/src/net/link-stats.c: the expected transmission count (ETX) of a link, kept as a
    moving average in fixed point, and the freshness of the statistics. */
module LinkStats {
  import opened Common

  const ETX_DIVISOR: nat := 128
  const EWMA_SCALE: int := 100
  const EWMA_ALPHA: int := 15
  const EWMA_BOOTSTRAP_ALPHA: int := 30
  const ETX_NOACK_PENALTY: nat := 10
  const ETX_INIT: nat := 2
  const ETX_INIT_MAX: nat := 3
  const FRESHNESS_TARGET: nat := 4
  const FRESHNESS_MAX: nat := 16
  const RSSI_HIGH: int := -60
  const RSSI_LOW: int := -90

  datatype Status = TxOk | TxNoack | TxOther

  predicate IsAlpha(alpha: int) {
    alpha == EWMA_ALPHA || alpha == EWMA_BOOTSTRAP_ALPHA
  }

  // ---------------------------------------------------------------- The average

  /** The quotient of C's integer division, which drops the fraction. */
  function CDiv(a: int, b: int): int
    requires b > 0
  {
    if a >= 0 then a / b else -((-a) / b)
  }

  /** The new average of an old value and a sample. */
  function Ewma(old_: int, sample: int, alpha: int): int {
    CDiv(old_ * (EWMA_SCALE - alpha) + sample * alpha, EWMA_SCALE)
  }

  /** The average never leaves the interval between the old value and the sample. */
  lemma EwmaBetween(x: int, sample: int, alpha: int)
    requires IsAlpha(alpha)
    ensures Min(x, sample) <= Ewma(x, sample, alpha) <= Max(x, sample)
  {}

  /** From above it falls at every step, and never below the sample. */
  lemma EwmaFalls(x: int, sample: int, alpha: int)
    requires IsAlpha(alpha) && 0 <= sample < x
    ensures sample <= Ewma(x, sample, alpha) < x
  {}

  /** From below it rises exactly when the step is worth a unit: for 15 percent, from 7 short
      on, and for 30 percent, from 4 short on. */
  lemma EwmaRisesIff(x: int, sample: int, alpha: int)
    requires IsAlpha(alpha) && 0 <= x <= sample
    ensures Ewma(x, sample, alpha) > x <==> sample - x >= if alpha == EWMA_ALPHA then 7 else 4
    ensures Ewma(x, sample, alpha) >= x
  {}

  /** k updates with one sample; the weight may change from step to step. */
  function Updated(x: int, sample: int, alphas: seq<int>): int
    decreases |alphas|
  {
    if alphas == [] then x else Updated(Ewma(x, sample, alphas[0]), sample, alphas[1..])
  }

  ghost predicate AllAlphas(alphas: seq<int>) {
    forall i | 0 <= i < |alphas| :: IsAlpha(alphas[i])
  }

  /** Under a constant sample the average reaches it from above. */
  lemma {:induction false} ConvergesFromAbove(x: int, sample: int, alphas: seq<int>)
    requires AllAlphas(alphas) && 0 <= sample <= x <= sample + |alphas|
    ensures Updated(x, sample, alphas) == sample
    decreases |alphas|
  {
    if alphas != [] {
      EwmaBetween(x, sample, alphas[0]);
      if x > sample {
        EwmaFalls(x, sample, alphas[0]);
      }
      ConvergesFromAbove(Ewma(x, sample, alphas[0]), sample, alphas[1..]);
    }
  }

  /** From below it comes to within 6 and stays there. */
  lemma {:induction false} ConvergesFromBelow(x: int, sample: int, alphas: seq<int>)
    requires AllAlphas(alphas) && 0 <= x <= sample <= x + 6 + |alphas|
    ensures sample - 6 <= Updated(x, sample, alphas) <= sample
    decreases |alphas|
  {
    if alphas != [] {
      EwmaBetween(x, sample, alphas[0]);
      EwmaRisesIff(x, sample, alphas[0]);
      ConvergesFromBelow(Ewma(x, sample, alphas[0]), sample, alphas[1..]);
    }
  }

  /** 6 is not reached for nothing: with the weight of fresh statistics the average can stay
      6 short for ever. */
  lemma {:induction false} SixShortForEver(sample: int, alphas: seq<int>)
    requires sample >= 6 && forall i | 0 <= i < |alphas| :: alphas[i] == EWMA_ALPHA
    ensures Updated(sample - 6, sample, alphas) == sample - 6
    decreases |alphas|
  {
    if alphas != [] {
      EwmaRisesIff(sample - 6, sample, EWMA_ALPHA);
      EwmaBetween(sample - 6, sample, EWMA_ALPHA);
      SixShortForEver(sample, alphas[1..]);
    }
  }

  // ---------------------------------------------------------------- One neighbour

  /** link_stats_is_fresh, with the tick, the tick of the last transmission, and the
      expiration time; the difference of ticks wraps. */
  function IsFresh(stats: Stats, now: nat, expiration: nat): bool {
    (now - stats.lastTxTime) % 0x1_0000_0000 < expiration && stats.freshness >= FRESHNESS_TARGET
  }

  datatype Stats = Stats(etx: nat, rssi: int, freshness: nat, lastTxTime: nat)

  /** What link_stats_packet_sent does for a neighbour, numtx being at least 0. */
  function Sent(s: Stats, status: Status, numtx: nat, now: nat, now2: nat, expiration: nat): Stats {
    if status == TxOther then s
    else
      var t := s.(lastTxTime := now, freshness := Min(s.freshness + numtx, FRESHNESS_MAX));
      var sample := Sample(status, numtx);
      var alpha := if IsFresh(t, now2, expiration) then EWMA_ALPHA else EWMA_BOOTSTRAP_ALPHA;
      t.(etx := Ewma(s.etx, sample, alpha) % 0x1_0000)
  }

  /** The sample is a 16-bit word. */
  function Sample(status: Status, numtx: nat): nat {
    (if status == TxNoack then ETX_NOACK_PENALTY else numtx) * ETX_DIVISOR % 0x1_0000
  }

  /** The link statistics of one neighbour. */
  class Neighbour {
    var etx: nat
    var rssi: int
    var freshness: nat
    var lastTxTime: nat

    function Abs(): Stats
      reads this
    {
      Stats(etx, rssi, freshness, lastTxTime)
    }

    /** A neighbour added by its first transmission. */
    constructor ()
      ensures Abs() == Stats(ETX_INIT * ETX_DIVISOR, 0, 0, 0)
    {
      etx, rssi, freshness, lastTxTime := ETX_INIT * ETX_DIVISOR, 0, 0, 0;
    }

    /** link_stats_packet_sent; now and now2 are the two readings of the tick. */
    method PacketSent(status: Status, numtx: nat, now: nat, now2: nat, expiration: nat)
      requires etx < 0x1_0000
      modifies this
      ensures Abs() == Sent(old(Abs()), status, numtx, now, now2, expiration)
    {
      if status != TxOk && status != TxNoack {
        return;
      }
      lastTxTime := now;
      freshness := Min(freshness + numtx, FRESHNESS_MAX);
      var packetEtx := (if status == TxNoack then ETX_NOACK_PENALTY else numtx) * ETX_DIVISOR % 0x1_0000;
      var fresh_ := (now2 - lastTxTime) % 0x1_0000_0000 < expiration && freshness >= FRESHNESS_TARGET;
      var alpha := if fresh_ then EWMA_ALPHA else EWMA_BOOTSTRAP_ALPHA;
      etx := (etx * (EWMA_SCALE - alpha) + packetEtx * alpha) / EWMA_SCALE % 0x1_0000;
    }

    /** link_stats_input_callback, for a neighbour already known. */
    method PacketReceived(packetRssi: int)
      modifies `rssi
      ensures rssi == Ewma(old(rssi), packetRssi, EWMA_ALPHA)
      ensures Min(old(rssi), packetRssi) <= rssi <= Max(old(rssi), packetRssi)
    {
      EwmaBetween(rssi, packetRssi, EWMA_ALPHA);
      rssi := CDiv(rssi * (EWMA_SCALE - EWMA_ALPHA) + packetRssi * EWMA_ALPHA, EWMA_SCALE);
    }

    /** periodic. */
    method Age()
      modifies `freshness
      ensures freshness == old(freshness) / 2
    {
      freshness := freshness / 2;
    }

    /** guess_etx_from_rssi, for a neighbour. */
    method GuessEtxFromRssi() returns (guess: nat)
      ensures ETX_DIVISOR <= guess <= ETX_INIT_MAX * ETX_DIVISOR
      ensures guess == GuessedEtx(rssi)
    {
      if rssi == 0 {
        return ETX_INIT * ETX_DIVISOR;
      }
      var bounded := rssi;
      bounded := Min(bounded, RSSI_HIGH);
      bounded := Max(bounded, RSSI_LOW + 1);
      var e := (RSSI_HIGH - RSSI_LOW) * ETX_DIVISOR / (bounded - RSSI_LOW);
      guess := Min(e, ETX_INIT_MAX * ETX_DIVISOR);
      GuessBounds(rssi);
    }
  }

  /** The guess: 30 * 128 over the height of the signal above -90, between 1 and 3
      transmissions; 2 when no packet has been received. */
  function GuessedEtx(rssi: int): int {
    if rssi == 0 then ETX_INIT * ETX_DIVISOR
    else
      var height := if rssi > RSSI_HIGH then 30 else if rssi <= RSSI_LOW then 1 else rssi + 90;
      Min(30 * ETX_DIVISOR / height, ETX_INIT_MAX * ETX_DIVISOR)
  }

  lemma GuessBounds(rssi: int)
    ensures ETX_DIVISOR <= GuessedEtx(rssi) <= ETX_INIT_MAX * ETX_DIVISOR
  {
    if rssi != 0 {
      var height := if rssi > RSSI_HIGH then 30 else if rssi <= RSSI_LOW then 1 else rssi + 90;
      QuotientAntitone(height, 30);
    }
  }

  lemma QuotientAtLeast(a: nat, h: nat, q: nat)
    requires h > 0 && q * h <= a
    ensures a / h >= q
  {
    var r := a / h;
    assert a < (r + 1) * h;
    assert r < q ==> (r + 1) * h <= q * h;
  }

  lemma QuotientTimes(a: nat, h: nat, k: nat)
    requires 1 <= h <= k
    ensures a / k * h <= a
  {
    var q := a / k;
    assert a == q * k + a % k;
    SmallerFactor(q, h, k);
  }

  lemma SmallerFactor(q: nat, h: nat, k: nat)
    requires h <= k
    ensures q * h <= q * k
  {
    assert q * k == q * h + q * (k - h);
  }

  lemma QuotientAntitone(h: nat, k: nat)
    requires 1 <= h <= k
    ensures 30 * ETX_DIVISOR / h >= 30 * ETX_DIVISOR / k
  {
    var a := 30 * ETX_DIVISOR;
    QuotientTimes(a, h, k);
    QuotientAtLeast(a, h, a / k);
  }

  /** 128 over the reception ratio, which rises linearly from 0 at -90 to 1 at -60: in between, the
      guess times the height above -90 is 30 * 128, rounded down, but at most three transmissions. */
  lemma GuessIs(rssi: int)
    ensures rssi == 0 ==> GuessedEtx(rssi) == 256
    ensures rssi >= -60 && rssi != 0 ==> GuessedEtx(rssi) == 128
    ensures rssi <= -80 ==> GuessedEtx(rssi) == 384
    ensures -80 < rssi < -60 ==> GuessedEtx(rssi) * (rssi + 90) <= 3840 < (GuessedEtx(rssi) + 1) * (rssi + 90)
  {
    var h := rssi + 90;
    if 1 <= h <= 30 {
      DivisionIs(3840, h);
      if h <= 10 {
        QuotientAtLeast(3840, h, 384);
      } else {
        QuotientAtMost(h);
      }
    }
  }

  lemma DivisionIs(a: nat, h: nat)
    requires h > 0
    ensures a / h * h <= a < (a / h + 1) * h
  {}

  lemma QuotientAtMost(h: nat)
    requires h > 10
    ensures 3840 / h < 384
  {
    DivisionIs(3840, h);
  }

  /** A stronger signal never gives a worse guess. */
  lemma GuessAntitone(r: int, s: int)
    requires r != 0 && s != 0 && r <= s
    ensures GuessedEtx(r) >= GuessedEtx(s)
  {
    var h := if r > RSSI_HIGH then 30 else if r <= RSSI_LOW then 1 else r + 90;
    var k := if s > RSSI_HIGH then 30 else if s <= RSSI_LOW then 1 else s + 90;
    QuotientAntitone(h, k);
  }

  // ---------------------------------------------------------------- Whole runs

  datatype Event = Tx(status: Status, numtx: nat, now: nat, now2: nat) | Aging

  function Step(s: Stats, e: Event, expiration: nat): Stats {
    match e
    case Tx(status, numtx, now, now2) => Sent(s, status, numtx, now, now2, expiration)
    case Aging => s.(freshness := s.freshness / 2)
  }

  function Run(s: Stats, events: seq<Event>, expiration: nat): Stats
    decreases |events|
  {
    if events == [] then s else Run(Step(s, events[0], expiration), events[1..], expiration)
  }

  /** One to ten transmissions for a packet that was acknowledged. */
  predicate Plausible(e: Event) {
    e.Tx? && e.status == TxOk ==> 1 <= e.numtx <= ETX_NOACK_PENALTY
  }

  predicate InRange(s: Stats) {
    ETX_DIVISOR <= s.etx <= ETX_NOACK_PENALTY * ETX_DIVISOR && s.freshness <= FRESHNESS_MAX
  }

  lemma SentInRange(s: Stats, status: Status, numtx: nat, now: nat, now2: nat, expiration: nat)
    requires InRange(s) && (status == TxOk ==> 1 <= numtx <= ETX_NOACK_PENALTY)
    ensures InRange(Sent(s, status, numtx, now, now2, expiration))
    ensures status != TxOther ==>
      var x := Sample(status, numtx);
      Min(s.etx, x) <= Sent(s, status, numtx, now, now2, expiration).etx <= Max(s.etx, x)
  {
    hide Ewma, IsFresh, Sample;
    if status != TxOther {
      SampleInRange(status, numtx);
      EwmaBetween(s.etx, Sample(status, numtx), EWMA_ALPHA);
      EwmaBetween(s.etx, Sample(status, numtx), EWMA_BOOTSTRAP_ALPHA);
    }
  }

  lemma SampleInRange(status: Status, numtx: nat)
    requires status == TxNoack || 1 <= numtx <= ETX_NOACK_PENALTY
    ensures ETX_DIVISOR <= Sample(status, numtx) <= ETX_NOACK_PENALTY * ETX_DIVISOR
  {}

  /** From the initial value of two transmissions on, the ETX stays between one and ten
      transmissions over every run, and so no 16-bit word overflows. */
  lemma {:induction false} EtxStaysInRange(s: Stats, events: seq<Event>, expiration: nat)
    requires InRange(s) && forall i | 0 <= i < |events| :: Plausible(events[i])
    ensures InRange(Run(s, events, expiration))
    decreases |events|
  {
    if events != [] {
      var e := events[0];
      if e.Tx? {
        SentInRange(s, e.status, e.numtx, e.now, e.now2, expiration);
      }
      EtxStaysInRange(Step(s, e, expiration), events[1..], expiration);
    }
  }

  /** Aging alone makes statistics stale: after three halvings even the freshest are. */
  lemma ThreeAgingsAreStale(s: Stats, expiration: nat, now: nat)
    requires s.freshness <= FRESHNESS_MAX
    ensures !IsFresh(Run(s, [Aging, Aging, Aging], expiration), now, expiration)
  {
    assert [Aging, Aging, Aging][1..] == [Aging, Aging];
    assert [Aging, Aging][1..] == [Aging];
    assert [Aging][1..] == [];
    var t := Step(Step(Step(s, Aging, expiration), Aging, expiration), Aging, expiration);
    assert Run(t, [], expiration) == t;
  }

  // ---------------------------------------------------------------- Which weight, which sample

  /** A transmission that was acknowledged counts for its own number of attempts, one that was
      not for ten; the new ETX is the old one and that, rounded down, in parts of 85 and 15 if the
      statistics are fresh after the transmission, and of 70 and 30 otherwise.  Any other outcome
      changes nothing. */
  lemma SentOutcome(s: Stats, status: Status, numtx: nat, now: nat, now2: nat, expiration: nat)
    requires s.etx <= 1280 && (status == TxOk ==> numtx <= 10)
    ensures var t := Sent(s, status, numtx, now, now2, expiration);
      if status == TxOther then t == s
      else
        var x := if status == TxOk then 128 * numtx else 1280;
        && t.lastTxTime == now && t.rssi == s.rssi
        && t.freshness == (if s.freshness + numtx < 16 then s.freshness + numtx else 16)
        && (t.freshness >= 4 && (now2 - now) % WORD < expiration ==>
              100 * t.etx <= 85 * s.etx + 15 * x < 100 * (t.etx + 1))
        && (t.freshness < 4 || (now2 - now) % WORD >= expiration ==>
              100 * t.etx <= 70 * s.etx + 30 * x < 100 * (t.etx + 1))
  {
    hide Ewma, IsFresh, Sample, Sent;
    SentFields(s, status, numtx, now, now2, expiration);
    if status != TxOther {
      SampleIs(status, numtx);
      RoundedDown(s.etx, Sample(status, numtx), EWMA_ALPHA);
      RoundedDown(s.etx, Sample(status, numtx), EWMA_BOOTSTRAP_ALPHA);
    }
  }

  lemma SampleIs(status: Status, numtx: nat)
    requires status != TxOther && (status == TxOk ==> numtx <= 10)
    ensures Sample(status, numtx) == if status == TxOk then 128 * numtx else 1280
  {}

  lemma SentFields(s: Stats, status: Status, numtx: nat, now: nat, now2: nat, expiration: nat)
    ensures var t := Sent(s, status, numtx, now, now2, expiration);
      if status == TxOther then t == s
      else
        && t.lastTxTime == now && t.rssi == s.rssi && t.freshness == Min(s.freshness + numtx, FRESHNESS_MAX)
        && var slow := t.freshness >= 4 && (now2 - now) % WORD < expiration;
           t.etx == Ewma(s.etx, Sample(status, numtx), if slow then EWMA_ALPHA else EWMA_BOOTSTRAP_ALPHA) % 0x1_0000
  {
    hide Ewma, Sample;
  }

  lemma RoundedDown(x: nat, sample: nat, alpha: int)
    requires IsAlpha(alpha) && x <= 1280 && sample <= 1280
    ensures var e := Ewma(x, sample, alpha);
      0 <= e < 0x1_0000 && e % 0x1_0000 == e && 100 * e <= (100 - alpha) * x + alpha * sample < 100 * (e + 1)
  {}

  /** The transmissions of a run in which every one was tried, and acknowledged or not. */
  ghost predicate AllTried(events: seq<Event>) {
    forall i | 0 <= i < |events| :: events[i].Tx? && events[i].status != TxOther && events[i].numtx >= 1
  }

  /** Four transmissions in a row make statistics fresh, and they stay so until the expiration
      time after the last one. */
  lemma {:induction false} FreshAfterFour(s: Stats, events: seq<Event>, expiration: nat, later: nat)
    requires AllTried(events) && |events| > 0 && s.freshness + |events| >= 4
    ensures var t, last := Run(s, events, expiration), events[|events| - 1].now;
      && t.lastTxTime == last && t.freshness >= Min(FRESHNESS_MAX, s.freshness + |events|)
      && (IsFresh(t, later, expiration) <==> (later - last) % WORD < expiration)
    decreases |events|
  {
    hide Ewma, Sample;
    var s1 := Step(s, events[0], expiration);
    assert s1.lastTxTime == events[0].now && s1.freshness >= Min(FRESHNESS_MAX, s.freshness + 1);
    if |events| == 1 {
      assert events[1..] == [];
      assert Run(s1, events[1..], expiration) == s1;
    } else {
      assert forall i | 0 <= i < |events[1..]| :: events[1..][i] == events[i + 1];
      FreshAfterFour(s1, events[1..], expiration, later);
    }
  }
}
