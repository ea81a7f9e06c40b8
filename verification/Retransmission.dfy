/** The retransmission timer (section 4.2.4.1 of RFC 6347) on values. */
module Retransmission {

  const MAX_RETRIES: nat := 5
  const INIT_TIMEOUT: nat := 1000
  const MAX_TIMEOUT: nat := 60000
  const CLOCK_MODULUS: nat := 0x1_0000_0000

  /** retransmitCount, retransmitTimeout, retransmitTimestamp */
  datatype Timer = Timer(count: nat, timeout: nat, timestamp: nat)

  /** timeCompare(now, timestamp + timeout) >= 0: the difference of two 32-bit clock values,
      read as a signed number. */
  predicate Expired(now: int, timestamp: int, timeout: int) {
    (now - (timestamp + timeout)) % CLOCK_MODULUS < 0x8000_0000
  }

  /** With elapsed milliseconds since the timestamp on a clock that may have wrapped, the test
      is right as long as both delays stay below 2^31. */
  lemma ExpiryAcrossWrap(timestamp: nat, timeout: nat, elapsed: nat)
    requires timeout < 0x8000_0000 && elapsed < 0x8000_0000
    ensures Expired((timestamp + elapsed) % CLOCK_MODULUS, timestamp % CLOCK_MODULUS, timeout)
            <==> elapsed >= timeout
  {
    var a, b := (timestamp + elapsed) / CLOCK_MODULUS, timestamp / CLOCK_MODULUS;
    var now, ts := (timestamp + elapsed) % CLOCK_MODULUS, timestamp % CLOCK_MODULUS;
    assert now - ts == elapsed - CLOCK_MODULUS * (a - b);
    assert a == b || a == b + 1;
  }

  /** A completed transmission of the flight. */
  function Transmitted(t: Timer, now: nat): Timer {
    t.(count := t.count + 1, timestamp := now)
  }

  function Doubled(timeout: nat): nat {
    if timeout * 2 < MAX_TIMEOUT then timeout * 2 else MAX_TIMEOUT
  }

  /** What can happen while a flight is buffered outside the application-data state: the
      timer is looked at, or the peer is seen retransmitting. ok tells whether an attempt to
      send the flight would complete. */
  datatype Event = Tick(now: nat, ok: bool) | PeerRetransmits(now: nat, ok: bool)

  datatype Outcome = Idle | Attempt(completed: bool) | TimedOut

  function OnEvent(t: Timer, e: Event): (Timer, Outcome) {
    match e
    case Tick(now, ok) =>
      if !Expired(now, t.timestamp, t.timeout) then (t, Idle)
      else if t.count < MAX_RETRIES then
        ((if ok then Transmitted(t, now) else t).(timeout := Doubled(t.timeout)), Attempt(ok))
      else (t, TimedOut)
    case PeerRetransmits(now, ok) =>
      if t.count < MAX_RETRIES then (if ok then Transmitted(t, now) else t, Attempt(ok)) else (t, Idle)
  }

  /** The timer after a run, the number of transmissions completed in it, and the number of
      attempts driven by the timer. */
  function Run(t: Timer, events: seq<Event>): (Timer, nat, nat) {
    if events == [] then (t, 0, 0)
    else
      var (mid, sent, driven) := Run(t, events[..|events| - 1]);
      var e := events[|events| - 1];
      var (next, outcome) := OnEvent(mid, e);
      (next,
       sent + (if outcome == Attempt(true) then 1 else 0),
       driven + (if outcome.Attempt? && e.Tick? then 1 else 0))
  }

  /** A new flight of messages: counter and timeout are reset, then the flight is sent. */
  function FlightStart(timestamp: nat, now: nat, ok: bool): Timer {
    var t := Timer(0, INIT_TIMEOUT, timestamp);
    if ok then Transmitted(t, now) else t
  }

  function Pow2(k: nat): nat { if k == 0 then 1 else 2 * Pow2(k - 1) }

  /** No more than a minute. */
  function Capped(n: nat): nat { if n < 60000 then n else 60000 }

  /** From the start of a flight, over any mix of timer expiries and peer retransmissions: the
      flight goes out at most 5 times, retransmitCount counts exactly the completed
      transmissions, and k timer-driven attempts leave a timeout of min(1000 * 2^k, 60000). */
  lemma {:induction false} BoundAndBackoff(timestamp: nat, now: nat, ok: bool, events: seq<Event>)
    ensures var (t, sent, driven) := Run(FlightStart(timestamp, now, ok), events);
      && t.count == sent + (if ok then 1 else 0) <= 5
      && t.timeout == Capped(1000 * Pow2(driven))
  {
    if events != [] {
      var init := events[..|events| - 1];
      BoundAndBackoff(timestamp, now, ok, init);
      var (mid, sent, driven) := Run(FlightStart(timestamp, now, ok), init);
      assert INIT_TIMEOUT * Pow2(driven + 1) == 2 * (INIT_TIMEOUT * Pow2(driven));
    }
  }

  /** One occasion to send the flight: the delay has passed or the peer repeats its own flight, and
      an attempt to send would complete. */
  predicate Occasion(t: Timer, e: Event) {
    e.ok && (e.Tick? ==> Expired(e.now, t.timestamp, t.timeout))
  }

  /** The occasions of a run. */
  function Occasions(t: Timer, events: seq<Event>): nat {
    if events == [] then 0
    else
      var init := events[..|events| - 1];
      Occasions(t, init) + (if Occasion(Run(t, init).0, events[|events| - 1]) then 1 else 0)
  }

  /** No occasion is missed: over any mix of events, with attempts that fail among them, the flight
      goes out on every occasion until it has gone out 5 times in all, and then no more. */
  lemma {:induction false} SendsExactly(timestamp: nat, now: nat, ok: bool, events: seq<Event>)
    ensures var n, most := Occasions(FlightStart(timestamp, now, ok), events), if ok then 4 else 5;
      Run(FlightStart(timestamp, now, ok), events).1 == if n <= most then n else most
  {
    if events != [] {
      var init := events[..|events| - 1];
      SendsExactly(timestamp, now, ok, init);
      BoundAndBackoff(timestamp, now, ok, init);
    }
  }

  /** The timer is looked at at these times, on a clock that wraps. */
  function Looks(times: seq<nat>): (events: seq<Event>) {
    seq(|times|, i requires 0 <= i < |times| => Tick(times[i] % CLOCK_MODULUS, true))
  }

  /** When the time before look i was: that of the look before it, or the start. */
  function Before(start: nat, times: seq<nat>, i: nat): nat
    requires i <= |times|
  {
    if i == 0 then start else times[i - 1]
  }

  /** Whatever the timeout has grown to, looks at least a minute and less than 2^31 milliseconds apart
      each repeat a flight that was sent at the start, four times and then no more; and one more such
      look reports the timeout. */
  lemma {:induction false} MinutesApart(timestamp: nat, start: nat, times: seq<nat>)
    requires forall i :: 0 <= i < |times| ==>
      60000 <= times[i] - Before(start, times, i) < 0x8000_0000
    ensures var (t, sent, _) := Run(FlightStart(timestamp, start % CLOCK_MODULUS, true), Looks(times));
      && sent == (if |times| <= 4 then |times| else 4)
      && t.count == sent + 1 && t.timeout <= 60000
      && (|times| <= 4 ==> t.timestamp == Before(start, times, |times|) % CLOCK_MODULUS)
      && (|times| == 5 ==> OnEvent(t, Looks(times)[4]).1 == TimedOut)
  {
    if times != [] {
      var n := |times| - 1;
      var init := times[..n];
      forall i | 0 <= i < n ensures Before(start, init, i) == Before(start, times, i) {
      }
      MinutesApart(timestamp, start, init);
      assert Looks(times)[..n] == Looks(init);
      var t := Run(FlightStart(timestamp, start % CLOCK_MODULUS, true), Looks(init)).0;
      if n <= 4 {
        var last := Before(start, times, n);
        assert last == Before(start, init, n);
        ExpiryAcrossWrap(last, t.timeout, times[n] - last);
      }
    }
  }

  /** Once the flight has gone out MAX_RETRIES times, an expiry reports a timeout and nothing
      is transmitted any more, whatever happens. */
  lemma {:induction false} OnlyTimeoutRemains(t: Timer, events: seq<Event>)
    requires t.count == MAX_RETRIES
    ensures Run(t, events) == (t, 0, 0)
    ensures forall now: nat, ok :: Expired(now, t.timestamp, t.timeout) ==> OnEvent(t, Tick(now, ok)) == (t, TimedOut)
  {
    if events != [] {
      OnlyTimeoutRemains(t, events[..|events| - 1]);
    }
  }
}
