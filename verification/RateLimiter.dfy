/**
 * The token bucket that limits download speed. Byte amounts are exact reals in place of float64 and
 * times are integer nanoseconds.
 */
module RateLimiter {
  import opened Strings

  const SECOND := 1_000_000_000

  /** The mutable part of a limiter; last is None until the first refill. */
  datatype Bucket = Bucket(last: Option<int>, allowance: real)

  function BurstCapacity(rate: real): real {
    if rate < 1.0 then 1.0 else rate
  }

  /** Go's int(float64) on a positive capacity. */
  function BurstSize(rate: real): int {
    BurstCapacity(rate).Floor
  }

  function Min(a: real, b: real): real { if a <= b then a else b }

  /** Bytes that the rate allows in so many nanoseconds. */
  function Earned(rate: real, nanos: int): real {
    rate * (nanos as real / SECOND as real)
  }

  function Refill(rate: real, b: Bucket, now: int): Bucket {
    match b.last
    case None => Bucket(Some(now), BurstCapacity(rate))
    case Some(last) =>
      if now - last <= 0 then b
      else Bucket(Some(now), Min(b.allowance + Earned(rate, now - last), BurstCapacity(rate)))
  }

  function Want(rate: real, max: int): int {
    if max > BurstSize(rate) then BurstSize(rate) else max
  }

  function WaitDuration(rate: real, missing: real): int
    requires rate > 0.0
  {
    var wait := (missing / rate * SECOND as real).Floor;
    if wait <= 0 then 1 else wait
  }

  /** One pass of take's loop, under the lock: a grant, or the time to sleep. */
  datatype Pass = Granted(n: int) | MustWait(nanos: int)

  function TryTake(rate: real, b: Bucket, max: int, now: int): (Bucket, Pass)
    requires rate > 0.0
  {
    var r, want := Refill(rate, b, now), Want(rate, max);
    if r.allowance >= want as real then (r.(allowance := r.allowance - want as real), Granted(want))
    else (r, MustWait(WaitDuration(rate, want as real - r.allowance)))
  }

  function Refund(rate: real, b: Bucket, n: int, now: int): Bucket {
    if n <= 0 then b
    else
      var r := Refill(rate, b, now);
      r.(allowance := Min(r.allowance + n as real, BurstCapacity(rate)))
  }

  ghost predicate Valid(rate: real, b: Bucket) {
    0.0 <= b.allowance <= BurstCapacity(rate)
  }

  // ----- any run, any clock ---------------------------------------------------------------

  /** What a reader may do to the shared bucket; `now` is whatever the clock says. */
  datatype Event = Take(max: int, now: int) | GiveBack(n: int, now: int)

  function After(rate: real, b: Bucket, e: Event): Bucket
    requires rate > 0.0
  {
    match e
    case Take(max, now) => TryTake(rate, b, max, now).0
    case GiveBack(n, now) => Refund(rate, b, n, now)
  }

  /** Bytes granted by the event, less the bytes it returns. */
  function Net(rate: real, b: Bucket, e: Event): int
    requires rate > 0.0
  {
    match e
    case Take(max, now) => (match TryTake(rate, b, max, now).1 case Granted(n) => n case MustWait(_) => 0)
    case GiveBack(n, _) => if n <= 0 then 0 else -n
  }

  function Run(rate: real, b: Bucket, events: seq<Event>): Bucket
    requires rate > 0.0
    decreases |events|
  {
    if events == [] then b else Run(rate, After(rate, b, events[0]), events[1..])
  }

  function NetOf(rate: real, b: Bucket, events: seq<Event>): int
    requires rate > 0.0
    decreases |events|
  {
    if events == [] then 0 else Net(rate, b, events[0]) + NetOf(rate, After(rate, b, events[0]), events[1..])
  }

  /** The callers' side: rateLimitedReader asks for at least one byte. */
  ghost predicate Asks(e: Event) { e.Take? ==> e.max >= 1 }

  lemma EarnedAdds(rate: real, a: int, b: int)
    ensures Earned(rate, a) + Earned(rate, b) == Earned(rate, a + b)
  {
    assert a as real / SECOND as real + b as real / SECOND as real == (a + b) as real / SECOND as real;
  }

  /** In numbers: rate bytes for every 10^9 nanoseconds. */
  lemma EarnedScaled(rate: real, a: int)
    ensures Earned(rate, a) * 1_000_000_000.0 == rate * a as real
  {}

  lemma BoundScaled(net: real, burst: real, earned: real, scaled: real)
    requires net <= burst + earned && earned * 1_000_000_000.0 == scaled
    ensures net * 1_000_000_000.0 <= burst * 1_000_000_000.0 + scaled
  {}

  lemma EarnedPositive(rate: real, a: int)
    requires rate > 0.0 && a >= 0
    ensures Earned(rate, a) >= 0.0
  {}

  lemma RefillKeeps(rate: real, b: Bucket, now: int)
    requires rate > 0.0 && Valid(rate, b)
    ensures var r := Refill(rate, b, now);
      && Valid(rate, r) && r.last.Some?
      && (b.last.Some? ==>
            && b.last.value <= r.last.value
            && b.allowance <= r.allowance <= b.allowance + Earned(rate, r.last.value - b.last.value))
  {
    if b.last.Some? && now > b.last.value { EarnedPositive(rate, now - b.last.value); }
  }

  /** A clock that steps backwards (or stands still) refills nothing and forgets nothing. */
  lemma BackwardClockIsHarmless(rate: real, b: Bucket, e: Event)
    requires rate > 0.0 && b.last.Some? && e.now <= b.last.value
    ensures Refill(rate, b, e.now) == b
    ensures After(rate, b, e).last == b.last
    ensures After(rate, b, e) == After(rate, b, e.(now := b.last.value))
    ensures Net(rate, b, e) == Net(rate, b, e.(now := b.last.value))
  {}

  /** Each event: what it grants is paid from the allowance and from the time that passed. */
  lemma EventBound(rate: real, b: Bucket, e: Event)
    requires rate > 0.0 && Valid(rate, b) && Asks(e)
    ensures Valid(rate, After(rate, b, e))
    ensures b.last.Some? ==>
      var b' := After(rate, b, e);
      && b'.last.Some? && b.last.value <= b'.last.value
      && Net(rate, b, e) as real + b'.allowance <= b.allowance + Earned(rate, b'.last.value - b.last.value)
  {
    RefillKeeps(rate, b, e.now);
  }

  /** net bytes granted in a stretch of a run, against what the bucket held and what was earned */
  ghost predicate Bounded(rate: real, b: Bucket, net: int, b': Bucket) {
    && Valid(rate, b') && b.last.Some? && b'.last.Some? && b.last.value <= b'.last.value
    && net as real + b'.allowance <= b.allowance + Earned(rate, b'.last.value - b.last.value)
  }

  lemma BoundsAdd(rate: real, b: Bucket, net: int, b1: Bucket, net1: int, b': Bucket)
    requires Bounded(rate, b, net, b1) && Bounded(rate, b1, net1, b')
    ensures Bounded(rate, b, net + net1, b')
  {
    EarnedAdds(rate, b1.last.value - b.last.value, b'.last.value - b1.last.value);
  }

  lemma {:induction false} RunBound(rate: real, b: Bucket, events: seq<Event>)
    requires rate > 0.0 && Valid(rate, b) && b.last.Some?
    requires forall e <- events :: Asks(e)
    ensures Bounded(rate, b, NetOf(rate, b, events), Run(rate, b, events))
    decreases |events|
  {
    if events == [] {
      assert Earned(rate, 0) == 0.0;
    } else {
      var b1 := After(rate, b, events[0]);
      EventBound(rate, b, events[0]);
      RunBound(rate, b1, events[1..]);
      BoundsAdd(rate, b, Net(rate, b, events[0]), b1, NetOf(rate, b1, events[1..]), Run(rate, b1, events[1..]));
    }
  }

  /** A full bucket, and rate / 10^9 for each of so many nanoseconds. */
  ghost predicate AtMost(rate: real, net: int, nanos: int) {
    net as real * 1_000_000_000.0 <= (if rate < 1.0 then 1.0 else rate) * 1_000_000_000.0 + rate * nanos as real
  }

  lemma BoundInNumbers(rate: real, b: Bucket, net: int, b': Bucket)
    requires Valid(rate, b) && Bounded(rate, b, net, b')
    ensures AtMost(rate, net, b'.last.value - b.last.value)
  {
    var nanos := b'.last.value - b.last.value;
    EarnedScaled(rate, nanos);
    BoundScaled(net as real, BurstCapacity(rate), Earned(rate, nanos), rate * nanos as real);
  }

  /**
   * A refill in numbers: the bucket is full the first time; afterwards n nanoseconds add rate * n / 10^9 bytes
   * up to the larger of the rate and one byte, and no time adds none.
   */
  lemma RefillExactly(rate: real, b: Bucket, now: int)
    requires rate > 0.0 && Valid(rate, b)
    ensures var r, burst := Refill(rate, b, now), if rate < 1.0 then 1.0 else rate;
      && (b.last.None? ==> r == Bucket(Some(now), burst))
      && (b.last.Some? && now <= b.last.value ==> r == b)
      && (b.last.Some? && now > b.last.value ==>
            var full := b.allowance + rate * (now - b.last.value) as real / 1_000_000_000.0;
            r == Bucket(Some(now), if full < burst then full else burst))
  {}

  /**
   * The throughput bound: between any two points of any run, whatever the clock reads, the net bytes
   * granted are at most a full bucket and rate / 10^9 for each nanosecond between the two refills.
   */
  lemma ThroughputBound(rate: real, b: Bucket, events: seq<Event>)
    requires rate > 0.0 && Valid(rate, b) && b.last.Some?
    requires forall e <- events :: Asks(e)
    ensures var b' := Run(rate, b, events);
      && 0.0 <= b'.allowance <= (if rate < 1.0 then 1.0 else rate)
      && b'.last.Some? && b.last.value <= b'.last.value
      && AtMost(rate, NetOf(rate, b, events), b'.last.value - b.last.value)
  {
    RunBound(rate, b, events);
    var b', net := Run(rate, b, events), NetOf(rate, b, events);
    BoundInNumbers(rate, b, net, b');
  }

  /** The same from a new limiter, counting time from the first clock reading it used. */
  lemma NewLimiterBound(rate: real, events: seq<Event>)
    requires rate > 0.0 && events != [] && events[0].Take?
    requires forall e <- events :: Asks(e)
    ensures var b' := Run(rate, Bucket(None, 0.0), events);
      && 0.0 <= b'.allowance <= (if rate < 1.0 then 1.0 else rate)
      && b'.last.Some? && events[0].now <= b'.last.value
      && AtMost(rate, NetOf(rate, Bucket(None, 0.0), events), b'.last.value - events[0].now)
  {
    var b1 := After(rate, Bucket(None, 0.0), events[0]);
    EventBound(rate, Bucket(None, 0.0), events[0]);
    RunBound(rate, b1, events[1..]);
    var nanos := Run(rate, b1, events[1..]).last.value - events[0].now;
    EarnedScaled(rate, nanos);
    BoundScaled(NetOf(rate, Bucket(None, 0.0), events) as real, BurstCapacity(rate), Earned(rate, nanos),
        rate * nanos as real);
  }

  lemma {:induction false} RunAppend(rate: real, b: Bucket, events: seq<Event>, e: Event)
    requires rate > 0.0
    ensures Run(rate, b, events + [e]) == After(rate, Run(rate, b, events), e)
    ensures NetOf(rate, b, events + [e]) == NetOf(rate, b, events) + Net(rate, Run(rate, b, events), e)
    decreases |events|
  {
    if events == [] {
      assert [e][1..] == [];
    } else {
      assert (events + [e])[1..] == events[1..] + [e];
      RunAppend(rate, After(rate, b, events[0]), events[1..], e);
    }
  }

  // ----- take ends ------------------------------------------------------------------------

  lemma ScaledSum(c: real, a: real, x: real, y: real)
    requires c > 0.0 && a < x + y
    ensures c * a < c * x + c * y
  {
    assert c * a < c * (x + y);
  }

  lemma ScaledLeast(c: real, a: real, y: real)
    requires c > 0.0 && a >= y
    ensures c * a >= c * y
  {}

  lemma WaitMisses(rate: real, missing: real)
    requires rate > 0.0 && missing > 0.0
    ensures var w := WaitDuration(rate, missing); w >= 1 && missing - Earned(rate, w) < Earned(rate, 1)
  {
    var w, q := WaitDuration(rate, missing), missing / rate;
    assert rate * q == missing;
    assert q > 0.0;
    ScaledSum(rate, q, w as real / SECOND as real, 1 as real / SECOND as real);
  }

  /**
   * A pass that has to wait is told the whole nanoseconds, at least one, in which the rate earns what is missing:
   * no more than needed, and less than one nanosecond's bytes still miss after them.
   */
  lemma WaitIsAlmostEnough(rate: real, missing: real)
    requires rate > 0.0 && missing > 0.0
    ensures var w := WaitDuration(rate, missing);
      && w >= 1 && (missing * 1_000_000_000.0 - rate * w as real < rate)
      && (w > 1 ==> rate * w as real <= missing * 1_000_000_000.0)
  {
    var w, q := WaitDuration(rate, missing), missing / rate;
    WaitMisses(rate, missing);
    EarnedScaled(rate, w);
    EarnedScaled(rate, 1);
    assert rate * q == missing;
    if w > 1 {
      ScaledLeast(rate, q * 1_000_000_000.0, w as real);
    }
  }

  lemma LastWait(rate: real, missing: real)
    requires rate > 0.0 && 0.0 < missing < Earned(rate, 1)
    ensures WaitDuration(rate, missing) == 1
  {
    var q := missing / rate;
    assert rate * q == missing;
    if q >= 1 as real / SECOND as real {
      ScaledLeast(rate, q, 1 as real / SECOND as real);
      assert false;
    }
  }

  /** When less than one nanosecond's bytes miss, the truncated wait is 0 and is raised to 1 ns. */
  lemma SmallWaitIsOne(rate: real, missing: real)
    requires rate > 0.0 && 0.0 < missing && missing * 1_000_000_000.0 < rate
    ensures WaitDuration(rate, missing) == 1
  {
    EarnedScaled(rate, 1);
    LastWait(rate, missing);
  }

  /** Waiting at least w refills at least what w earns, up to the burst. */
  lemma WaitingRefills(rate: real, b: Bucket, w: int, now: int)
    requires rate > 0.0 && Valid(rate, b) && b.last.Some? && w >= 1 && now >= b.last.value + w
    ensures Refill(rate, b, now).allowance >= Min(b.allowance + Earned(rate, w), BurstCapacity(rate))
  {
    EarnedAdds(rate, w, now - b.last.value - w);
    EarnedPositive(rate, now - b.last.value - w);
  }

  /**
   * A pass of take in numbers: the grant is the smaller of max and the whole bytes of a full bucket, made as soon
   * as the refilled allowance covers it and charged in full; otherwise the bucket is only refilled, and the wait is
   * the whole nanoseconds, at least one, in which the rate earns what is missing.
   */
  lemma TakeExactly(rate: real, b: Bucket, max: int, now: int)
    requires rate > 0.0
    ensures var (after, pass) := TryTake(rate, b, max, now);
      var burst := if rate < 1.0 then 1 else rate.Floor;
      var want, full := if max < burst then max else burst, Refill(rate, b, now);
      && (pass.Granted? <==> full.allowance >= want as real)
      && (pass.Granted? ==> pass.n == want && after == full.(allowance := full.allowance - want as real))
      && (pass.MustWait? ==>
            var missing := (want as real - full.allowance) * 1_000_000_000.0;
            && after == full && pass.nanos >= 1 && missing - rate * pass.nanos as real < rate
            && (pass.nanos > 1 ==> rate * pass.nanos as real <= missing))
  {
    var full, want := Refill(rate, b, now), Want(rate, max);
    if full.allowance < want as real {
      WaitIsAlmostEnough(rate, want as real - full.allowance);
    }
  }

  /** A refund in numbers: it refills the bucket and adds the bytes that were not used, up to a full bucket. */
  lemma RefundExactly(rate: real, b: Bucket, n: int, now: int)
    requires rate > 0.0
    ensures n <= 0 ==> Refund(rate, b, n, now) == b && Net(rate, b, GiveBack(n, now)) == 0
    ensures n > 0 ==>
              var full, burst := Refill(rate, b, now), if rate < 1.0 then 1.0 else rate;
              && Net(rate, b, GiveBack(n, now)) == -n
              && Refund(rate, b, n, now) == full.(allowance :=
                   if full.allowance + n as real < burst then full.allowance + n as real else burst)
  {}

  /** A source of time for one caller: it never steps back, and sleeps at least as long as asked. */
  class Clock {
    var time: int

    constructor (t: int)
      ensures time == t
    {
      time := t;
    }

    method Now() returns (now: int)
      modifies this
      ensures now == time && time >= old(time)
    {
      var passed: nat :| passed >= 0;
      time := time + passed;
      now := time;
    }

    method Sleep(nanos: int)
      requires nanos >= 1
      modifies this
      ensures time >= old(time) + nanos
    {
      var more: nat :| more >= 0;
      time := time + nanos + more;
    }
  }

  /** The limiter object; the lock makes every pass of Take and every Refund one atomic step. */
  class Limiter {
    const rate: real
    var last: Option<int>
    var allowance: real

    function State(): Bucket
      reads this
    {
      Bucket(last, allowance)
    }

    ghost predicate Ok()
      reads this
    {
      rate > 0.0 && Valid(rate, State())
    }

    constructor (rate: real)
      requires rate > 0.0
      ensures this.rate == rate && State() == Bucket(None, 0.0) && Ok()
    {
      this.rate := rate;
      last, allowance := None, 0.0;
    }

    method RefillLocked(now: int)
      requires Ok()
      modifies this
      ensures State() == Refill(rate, old(State()), now)
    {
      if last.None? {
        last, allowance := Some(now), BurstCapacity(rate);
        return;
      }
      if now - last.value <= 0 {
        return;
      }
      allowance := allowance + Earned(rate, now - last.value);
      if allowance > BurstCapacity(rate) {
        allowance := BurstCapacity(rate);
      }
      last := Some(now);
    }

    /**
     * The loop ends: with this clock, the third pass at the latest grants, and the grant is the
     * smaller of max and the whole bytes of a full bucket. `passes` lists the passes made as events of the bucket.
     */
    method TakeLoop(max: int, clock: Clock) returns (n: int, ghost passes: seq<Event>)
      requires Ok() && max >= 1 && (last.Some? ==> last.value <= clock.time)
      modifies this, clock
      ensures Ok() && last.Some? && last.value <= clock.time
      ensures n == (if rate < 1.0 then 1 else if max < rate.Floor then max else rate.Floor)
      ensures 1 <= |passes| <= 3 && (forall e <- passes :: e.Take? && e.max == max)
      ensures State() == Run(rate, old(State()), passes) && NetOf(rate, old(State()), passes) == n
    {
      passes := [];
      ghost var asked := 0;
      while true
        invariant Ok() && 0 <= |passes| <= 2
        invariant forall e <- passes :: e.Take? && e.max == max
        invariant State() == Run(rate, old(State()), passes) && NetOf(rate, old(State()), passes) == 0
        invariant last.Some? ==> last.value <= clock.time
        invariant |passes| >= 1 ==> last.Some? && asked >= 1 && clock.time >= last.value + asked
        invariant |passes| >= 1 ==> Want(rate, max) as real - allowance - Earned(rate, asked) < Earned(rate, 1)
        invariant |passes| == 2 ==> Want(rate, max) as real - allowance < Earned(rate, asked)
        decreases 3 - |passes|
      {
        var now := clock.Now();
        ghost var before := State();
        RefillKeeps(rate, before, now);
        RunAppend(rate, old(State()), passes, Take(max, now));
        passes := passes + [Take(max, now)];
        RefillLocked(now);
        if |passes| >= 2 { WaitingRefills(rate, before, asked, now); }
        var want := max;
        if want > BurstSize(rate) {
          want := BurstSize(rate);
        }
        if allowance >= want as real {
          allowance := allowance - want as real;
          return want, passes;
        }
        var wait := WaitDuration(rate, want as real - allowance);
        WaitMisses(rate, want as real - allowance);
        if |passes| == 2 { LastWait(rate, want as real - allowance); }
        asked := wait;
        clock.Sleep(wait);
      }
    }

    method GiveBackBytes(n: int, clock: Clock) returns (ghost event: Event)
      requires Ok()
      modifies this, clock
      ensures Ok() && event.GiveBack? && event.n == n && event.now <= clock.time
      ensures State() == After(rate, old(State()), event)
    {
      event := GiveBack(n, clock.time);
      if n <= 0 {
        return;
      }
      var now := clock.Now();
      event := GiveBack(n, now);
      RefillKeeps(rate, State(), now);
      RefillLocked(now);
      allowance := allowance + n as real;
      if allowance > BurstCapacity(rate) {
        allowance := BurstCapacity(rate);
      }
    }

    /**
     * One Read of a limited reader whose source delivers `available` bytes (at most what it is asked
     * for): the bytes delivered are exactly the bytes the bucket is charged, net of the refund.
     */
    method Read(length: nat, available: nat, clock: Clock) returns (n: int, ghost events: seq<Event>)
      requires Ok() && (last.Some? ==> last.value <= clock.time)
      modifies this, clock
      ensures Ok()
      ensures var burst := if rate < 1.0 then 1 else rate.Floor;
              var most := if length < burst then length else burst;
              n == if available < most then available else most
      ensures State() == Run(rate, old(State()), events) && NetOf(rate, old(State()), events) == n
      ensures forall e <- events :: Asks(e)
    {
      events := [];
      if length == 0 {
        return 0, events;
      }
      var max;
      max, events := TakeLoop(length, clock);
      n := if available < max then available else max;
      if n < max {
        ghost var event := GiveBackBytes(max - n, clock);
        RunAppend(rate, old(State()), events, event);
        events := events + [event];
      }
    }
  }
}
