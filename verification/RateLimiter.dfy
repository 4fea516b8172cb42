/** Runs of the rate limiter: src/transport/dns_tunnel.cpp:52-98. */
module RateLimits {
  import opened Core

  datatype Limits = Limits(maxQps: nat, minJitterMs: nat, maxJitterMs: nat)

  /** 1000 / max_qps has no value for max_qps = 0. */
  predicate Usable(l: Limits) {
    l.maxQps >= 1
  }

  function Interval(l: Limits): nat
    requires Usable(l)
  {
    1000 / l.maxQps
  }

  /** How many microseconds sleep_ms(ms) lasts: the product handed to usleep is a 32-bit one. */
  function Slept(ms: nat): nat {
    Wrap32(1000 * ms)
  }

  /** The longest sleep that lasts as asked. */
  const LONGEST_SLEEP: nat := 4294967

  lemma ShortSleep(ms: nat)
    requires ms <= LONGEST_SLEEP
    ensures Slept(ms) == 1000 * ms
  {
  }

  function Jitter(l: Limits, random: nat): (j: nat)
    ensures l.minJitterMs <= j <= MaxJitter(l)
  {
    if l.maxJitterMs > l.minJitterMs
    then l.minJitterMs + random % (l.maxJitterMs - l.minJitterMs)
    else l.minJitterMs
  }

  /** The largest jitter that is drawn. */
  function MaxJitter(l: Limits): (j: nat)
    ensures j >= l.minJitterMs
  {
    if l.maxJitterMs > l.minJitterMs then l.maxJitterMs - 1 else l.minJitterMs
  }

  /** The shortest that any jitter from `low` to `high` lasts. */
  function LeastSlept(low: nat, high: nat): nat
    requires low <= high
    decreases high
  {
    if low == high then Slept(low)
    else
      var rest := LeastSlept(low, high - 1);
      if Slept(high) < rest then Slept(high) else rest
  }

  lemma {:induction false} LeastOfAll(low: nat, high: nat, j: nat)
    requires low <= j <= high
    ensures LeastSlept(low, high) <= Slept(j)
    decreases high
  {
    hide Slept;
    if j == high {
    } else {
      LeastOfAll(low, high - 1, j);
    }
  }

  lemma {:induction false} LeastIsReached(low: nat, high: nat) returns (j: nat)
    requires low <= high
    ensures low <= j <= high && Slept(j) == LeastSlept(low, high)
    decreases high
  {
    hide Slept;
    if low == high || Slept(high) < LeastSlept(low, high - 1) {
      j := high;
    } else {
      j := LeastIsReached(low, high - 1);
    }
  }

  /** Jitters within the longest sleep last at least as long as the smallest of them. */
  lemma {:induction false} ShortSleepsLast(low: nat, high: nat)
    requires low <= high <= LONGEST_SLEEP
    ensures LeastSlept(low, high) == 1000 * low
    decreases high
  {
    hide Slept;
    ShortSleep(high);
    if low == high {
    } else {
      ShortSleepsLast(low, high - 1);
    }
  }

  /** What two consecutive stamps are apart at least, in milliseconds. */
  function Gap(l: Limits): nat
    requires Usable(l)
  {
    Interval(l) + LeastSlept(l.minJitterMs, MaxJitter(l)) / 1000
  }

  /** The same in microseconds. Without an interval to wait for, what is left of a millisecond counts as well. */
  function Spread(l: Limits): nat
    requires Usable(l)
  {
    if Interval(l) > 0 then 1000 * Gap(l) else LeastSlept(l.minJitterMs, MaxJitter(l))
  }

  /** When a call whose first clock reading is at `entry` may go ahead, in microseconds. Readings and stamps count whole
      milliseconds; the stamp 0 stands for no earlier query. */
  function Due(l: Limits, last: nat, entry: nat): nat
    requires Usable(l)
  {
    if last > 0 && entry / 1000 < last + Interval(l) then 1000 * (last + Interval(l)) + entry % 1000 else entry
  }

  /** One call: the time of its first clock reading, the random number it draws, the time that passes unasked, and the
      time of its last reading. Times are in microseconds. */
  datatype Call = Call(entry: nat, random: nat, drift: nat, end: nat)

  /** What the last reading shows. */
  function Stamp(c: Call): nat {
    c.end / 1000
  }

  /** The call ends at the due time plus what the jitter lasts, and late by no more than the drift. */
  predicate IsCall(l: Limits, last: nat, c: Call)
    requires Usable(l)
  {
    var t := Due(l, last, c.entry) + Slept(Jitter(l, c.random));
    t <= c.end <= t + c.drift
  }

  /** The same in numbers: the wait is for the interval since the last stamp, if less than that has passed, the jitter
      is drawn from its half-open range, and the sleep is 1000 times that in 32 bits. */
  lemma CallInNumbers(l: Limits, last: nat, c: Call)
    requires Usable(l) && last <= c.entry / 1000
    ensures var elapsed := c.entry / 1000 - last;
            var wait := if last > 0 && elapsed < 1000 / l.maxQps then 1000 / l.maxQps - elapsed else 0;
            var jitter := if l.maxJitterMs > l.minJitterMs
                          then l.minJitterMs + c.random % (l.maxJitterMs - l.minJitterMs) else l.minJitterMs;
            IsCall(l, last, c)
            <==> c.entry + 1000 * wait + 1000 * jitter % 0x1_0000_0000 <= c.end
                 && c.end <= c.entry + 1000 * wait + 1000 * jitter % 0x1_0000_0000 + c.drift
  {
    assert c.entry == 1000 * (c.entry / 1000) + c.entry % 1000;
  }

  function LastEnd(run: seq<Call>): nat {
    if run == [] then 0 else run[|run| - 1].end
  }

  function LastStamp(run: seq<Call>): nat {
    LastEnd(run) / 1000
  }

  /** Calls on one limiter, each after the one before, on a clock that shows a positive time and never goes back. */
  predicate IsRun(l: Limits, run: seq<Call>)
    requires Usable(l)
  {
    run != [] ==>
      var c := run[|run| - 1];
      var front := run[..|run| - 1];
      && IsRun(l, front)
      && 1000 <= c.entry && LastEnd(front) <= c.entry
      && IsCall(l, LastStamp(front), c)
  }

  /** `run` is `before` and one call more, between the times `start` and `end`. */
  predicate OneMore(l: Limits, before: seq<Call>, run: seq<Call>, random: nat, start: nat, drift: nat, end: nat)
    requires Usable(l)
  {
    && |run| == |before| + 1 && run[..|before|] == before
    && var c := run[|before|];
       c.random == random && c.drift == drift && start <= c.entry && c.end == end && IsCall(l, LastStamp(before), c)
  }

  /** One more call, started no earlier than the last one ended. */
  lemma RunGrows(l: Limits, run: seq<Call>, c: Call)
    requires Usable(l) && IsRun(l, run) && 1000 <= c.entry && LastEnd(run) <= c.entry && IsCall(l, LastStamp(run), c)
    ensures IsRun(l, run + [c]) && LastEnd(run + [c]) == c.end
  {
    assert (run + [c])[..|run|] == run;
  }

  /** How many stamps lie in the second that starts at `from`. */
  function StampsWithin(run: seq<Call>, from: nat): (n: nat)
    ensures n <= |run|
  {
    if run == [] then 0
    else
      var t := Stamp(run[|run| - 1]);
      StampsWithin(run[..|run| - 1], from) + if from <= t < from + 1000 then 1 else 0
  }

  /** Where a call stands on the scale of Spread. */
  function Place(l: Limits, c: Call): nat
    requires Usable(l)
  {
    if Interval(l) > 0 then 1000 * Stamp(c) else c.end
  }

  lemma PlaceAndStamp(l: Limits, c: Call, from: nat)
    requires Usable(l)
    ensures Stamp(c) >= from <==> Place(l, c) >= 1000 * from
    ensures Stamp(c) < from + 1000 <==> Place(l, c) < 1000 * from + 1_000_000
  {
  }

  /** A call keeps its distance from the one before, which ended at `lastEnd`. */
  lemma CallKeepsGap(l: Limits, lastEnd: nat, c: Call)
    requires Usable(l) && 1000 <= lastEnd <= c.entry && IsCall(l, lastEnd / 1000, c)
    ensures Stamp(c) >= lastEnd / 1000 + Gap(l)
    ensures Interval(l) == 0 ==> c.end >= lastEnd + Spread(l)
  {
    hide Slept, Jitter, LeastSlept, Interval;
    var least := LeastSlept(l.minJitterMs, MaxJitter(l));
    LeastOfAll(l.minJitterMs, MaxJitter(l), Jitter(l, c.random));
    var due := Due(l, lastEnd / 1000, c.entry);
    assert due >= 1000 * (lastEnd / 1000 + Interval(l));
    assert c.end >= 1000 * (lastEnd / 1000 + Interval(l)) + least;
  }

  lemma {:induction false} PrefixIsRun(l: Limits, run: seq<Call>, n: nat)
    requires Usable(l) && IsRun(l, run) && n <= |run|
    ensures IsRun(l, run[..n])
    decreases |run|
  {
    if n < |run| {
      PrefixIsRun(l, run[..|run| - 1], n);
      assert run[..|run| - 1][..n] == run[..n];
    } else {
      assert run[..n] == run;
    }
  }

  /** Every stamp is positive and at least the gap behind the one before. */
  lemma StampsKeepGap(l: Limits, run: seq<Call>, k: nat)
    requires Usable(l) && IsRun(l, run) && k < |run|
    ensures Stamp(run[k]) > 0
    ensures k > 0 ==> Stamp(run[k]) >= Stamp(run[k - 1]) + Gap(l)
    ensures k > 0 ==> Place(l, run[k]) >= Place(l, run[k - 1]) + Spread(l)
  {
    hide Jitter, Slept, Gap, Interval;
    PrefixIsRun(l, run, k + 1);
    assert run[..k + 1][..k] == run[..k];
    if k == 0 {
    } else {
      StampsKeepGap(l, run, k - 1);
      assert LastEnd(run[..k]) == run[k - 1].end;
      CallKeepsGap(l, run[k - 1].end, run[k]);
    }
  }

  /** Over any stretch of a run the gaps add up. */
  lemma {:induction false} StampsSpread(l: Limits, run: seq<Call>, i: nat, j: nat)
    requires Usable(l) && IsRun(l, run) && i <= j < |run|
    ensures Stamp(run[j]) >= Stamp(run[i]) + (j - i) * Gap(l)
    decreases j - i
  {
    if i >= j {
    } else {
      StampsSpread(l, run, i, j - 1);
      StampsKeepGap(l, run, j);
      assert (j - i) * Gap(l) == (j - 1 - i) * Gap(l) + Gap(l);
    }
  }

  /** The stamps of a second take up its microseconds at one spread each. */
  lemma {:induction false} StampsFillWindow(l: Limits, run: seq<Call>, from: nat)
    requires Usable(l) && IsRun(l, run)
    ensures var n := StampsWithin(run, from);
            n > 0 ==> && (n - 1) * Spread(l) < 1_000_000
                      && Place(l, run[|run| - 1]) >= 1000 * from
                      && (LastStamp(run) < from + 1000 ==>
                            (n - 1) * Spread(l) <= Place(l, run[|run| - 1]) - 1000 * from)
    decreases |run|
  {
    hide Spread, IsCall, Place, Stamp;
    if run == [] {
    } else {
      var k := |run| - 1;
      var front := run[..k];
      StampsFillWindow(l, front, from);
      StampsKeepGap(l, run, k);
      PlaceAndStamp(l, run[k], from);
      LastOfRun(run);
      var n := StampsWithin(front, from);
      if k > 0 {
        assert front[k - 1] == run[k - 1];
        LastOfRun(front);
        PlaceAndStamp(l, run[k - 1], from);
      }
      if n > 0 {
        assert n * Spread(l) == (n - 1) * Spread(l) + Spread(l);
      }
    }
  }

  lemma LastOfRun(run: seq<Call>)
    requires run != []
    ensures LastStamp(run) == Stamp(run[|run| - 1])
  {
  }

  /** At most max_qps stamps in every second of every run, if the spreads of max_qps stamps fill a second. */
  lemma RateBound(l: Limits, run: seq<Call>, from: nat)
    requires Usable(l) && IsRun(l, run) && l.maxQps * Spread(l) >= 1_000_000
    ensures StampsWithin(run, from) <= l.maxQps
  {
    hide Spread, IsRun;
    StampsFillWindow(l, run, from);
    var n := StampsWithin(run, from);
    if n > l.maxQps {
      Monotone(l.maxQps, n - 1, Spread(l));
      assert false;
    }
  }

  lemma Monotone(a: nat, b: nat, g: nat)
    requires a <= b
    ensures a * g <= b * g
  {
  }

  /** Any positive jitter is enough, as long as no sleep is cut short. */
  lemma JitterFillsSecond(l: Limits)
    requires Usable(l) && l.minJitterMs >= 1 && MaxJitter(l) <= LONGEST_SLEEP
    ensures Gap(l) == Interval(l) + l.minJitterMs && l.maxQps * Spread(l) >= 1_000_000
  {
    hide LeastSlept, MaxJitter;
    ShortSleepsLast(l.minJitterMs, MaxJitter(l));
    var q := l.maxQps;
    assert Spread(l) == 1000 * (1000 / q + l.minJitterMs);
    assert q * (1000 / q) + 1000 % q == 1000;
    assert q * (1000 / q + l.minJitterMs) == q * (1000 / q) + q * l.minJitterMs;
    Monotone(1, l.minJitterMs, q);
    assert q * Spread(l) == 1000 * (q * (1000 / q + l.minJitterMs));
  }

  /** When a burst starts, so that its first call ends with a whole millisecond. */
  function BurstStart(slept: nat): nat {
    2000 - slept % 1000
  }

  /** Calls as close together as they can be, on an exact clock, with one random number for all. */
  function Burst(l: Limits, random: nat, n: nat): (run: seq<Call>)
    requires Usable(l)
    ensures |run| == n
  {
    if n == 0 then []
    else
      var (front, slept) := (Burst(l, random, n - 1), Slept(Jitter(l, random)));
      var entry :=
        if n == 1 then BurstStart(slept)
        else if Interval(l) > 0 then 1000 * (LastStamp(front) + Interval(l))
        else LastEnd(front);
      front + [Call(entry, random, 0, entry + slept)]
  }

  /** Such a random number that the jitter lasts as short as it can. */
  lemma ShortestJitter(l: Limits) returns (random: nat)
    requires Usable(l)
    ensures Slept(Jitter(l, random)) == LeastSlept(l.minJitterMs, MaxJitter(l))
  {
    hide Slept, LeastSlept;
    var j := LeastIsReached(l.minJitterMs, MaxJitter(l));
    random := j - l.minJitterMs;
    assert Jitter(l, random) == j;
  }

  /** The next call of a burst is due when it starts, and one spread behind the one before. */
  lemma BurstNext(l: Limits, lastEnd: nat, random: nat)
    requires Usable(l) && Slept(Jitter(l, random)) == LeastSlept(l.minJitterMs, MaxJitter(l)) && lastEnd >= 1000
    ensures var entry := if Interval(l) > 0 then 1000 * (lastEnd / 1000 + Interval(l)) else lastEnd;
            var c := Call(entry, random, 0, entry + Slept(Jitter(l, random)));
            && lastEnd <= entry && IsCall(l, lastEnd / 1000, c)
            && forall b: Call :: b.end == lastEnd ==> Place(l, c) == Place(l, b) + Spread(l)
  {
    hide Slept, Jitter, LeastSlept, Interval;
  }

  lemma BurstFirst(l: Limits, random: nat)
    requires Usable(l)
    ensures var slept := Slept(Jitter(l, random));
            var c := Call(BurstStart(slept), random, 0, BurstStart(slept) + slept);
            IsCall(l, 0, c) && Stamp(c) == 2 + slept / 1000 && Place(l, c) == 1000 * Stamp(c) && c.entry >= 1000
  {
    hide Slept, Jitter, Interval;
  }

  function Multiple(n: nat, g: nat): nat {
    n * g
  }

  lemma OneMultipleMore(n: nat, g: nat)
    ensures Multiple(0, g) == 0 && Multiple(n + 1, g) == Multiple(n, g) + g
  {
  }

  /** Where the last of `n` calls stands that begin a burst. */
  predicate EndsBurst(l: Limits, random: nat, run: seq<Call>, n: nat)
    requires Usable(l)
  {
    && |run| == n && IsRun(l, run)
    && (n > 0 ==>
          && LastEnd(run) >= 1000
          && Place(l, run[n - 1]) == 1000 * (2 + Slept(Jitter(l, random)) / 1000) + Multiple(n - 1, Spread(l)))
  }

  lemma BurstStarts(l: Limits, random: nat)
    requires Usable(l)
    ensures EndsBurst(l, random, Burst(l, random, 1), 1)
  {
    hide Slept, Jitter, LeastSlept, Interval, IsRun, IsCall, Place, Spread, Multiple;
    NoRun(l);
    BurstFirst(l, random);
    OneMultipleMore(0, Spread(l));
    var c := Burst(l, random, 1)[0];
    assert Burst(l, random, 0) == [] && Burst(l, random, 1) == [] + [c];
    RunGrows(l, [], c);
  }

  lemma BurstGrows(l: Limits, random: nat, n: nat, front: seq<Call>)
    requires Usable(l) && Slept(Jitter(l, random)) == LeastSlept(l.minJitterMs, MaxJitter(l)) && n > 1
    requires front == Burst(l, random, n - 1) && EndsBurst(l, random, front, n - 1)
    ensures EndsBurst(l, random, Burst(l, random, n), n)
  {
    hide Slept, Jitter, LeastSlept, Interval, IsRun, IsCall, Place, Spread, Multiple, MaxJitter;
    var c := Burst(l, random, n)[n - 1];
    assert Burst(l, random, n) == front + [c];
    BurstNext(l, LastEnd(front), random);
    assert front[n - 2].end == LastEnd(front);
    OneMultipleMore(n - 2, Spread(l));
    RunGrows(l, front, c);
  }

  lemma {:induction false} BurstIsRun(l: Limits, random: nat, n: nat)
    requires Usable(l) && Slept(Jitter(l, random)) == LeastSlept(l.minJitterMs, MaxJitter(l))
    ensures EndsBurst(l, random, Burst(l, random, n), n)
  {
    hide Slept, Jitter, LeastSlept, Burst, EndsBurst, MaxJitter;
    if n == 0 {
      NoBurst(l, random);
    } else if n == 1 {
      BurstStarts(l, random);
    } else {
      BurstIsRun(l, random, n - 1);
      BurstGrows(l, random, n, Burst(l, random, n - 1));
    }
  }

  lemma NoBurst(l: Limits, random: nat)
    requires Usable(l)
    ensures EndsBurst(l, random, Burst(l, random, 0), 0)
  {
  }

  lemma NoRun(l: Limits)
    requires Usable(l)
    ensures IsRun(l, [])
  {
  }

  lemma {:induction false} BurstWithin(l: Limits, random: nat, n: nat)
    requires Usable(l) && Slept(Jitter(l, random)) == LeastSlept(l.minJitterMs, MaxJitter(l))
    requires n == 0 || (n - 1) * Spread(l) < 1_000_000
    ensures StampsWithin(Burst(l, random, n), 2 + Slept(Jitter(l, random)) / 1000) == n
  {
    hide Spread, Slept, Jitter, LeastSlept, Interval, Place, Stamp;
    if n == 0 {
    } else {
      var run, from := Burst(l, random, n), 2 + Slept(Jitter(l, random)) / 1000;
      assert run[..n - 1] == Burst(l, random, n - 1);
      BurstIsRun(l, random, n);
      PlaceAndStamp(l, run[n - 1], from);
      if n > 1 {
        Monotone(n - 2, n - 1, Spread(l));
      }
      BurstWithin(l, random, n - 1);
    }
  }

  /** Some run breaks the limit in some second. */
  ghost predicate LimitBroken(l: Limits)
    requires Usable(l)
  {
    exists run: seq<Call>, from: nat :: IsRun(l, run) && StampsWithin(run, from) > l.maxQps
  }

  /** The limit is kept by every run exactly when max_qps spreads fill a second. */
  lemma RateBoundExactly(l: Limits)
    requires Usable(l)
    ensures LimitBroken(l) <==> l.maxQps * Spread(l) < 1_000_000
  {
    hide Spread, IsRun, StampsWithin, Slept, Jitter, LeastSlept;
    if l.maxQps * Spread(l) >= 1_000_000 {
      forall run: seq<Call>, from: nat | IsRun(l, run)
        ensures StampsWithin(run, from) <= l.maxQps
      {
        RateBound(l, run, from);
      }
    } else {
      var random := ShortestJitter(l);
      BurstIsRun(l, random, l.maxQps + 1);
      BurstWithin(l, random, l.maxQps + 1);
      var run, from := Burst(l, random, l.maxQps + 1), 2 + Slept(Jitter(l, random)) / 1000;
      assert IsRun(l, run) && StampsWithin(run, from) > l.maxQps;
    }
  }

  /** Without jitter three queries a second are not kept to, because 333 ms intervals leave a millisecond. */
  lemma NoJitterBreaksLimit()
    ensures LimitBroken(Limits(3, 0, 0))
  {
    hide LimitBroken;
    var l := Limits(3, 0, 0);
    ShortSleepsLast(0, 0);
    assert Spread(l) == 333_000;
    RateBoundExactly(l);
  }

  /** A jitter of 4294968 ms lasts 704 microseconds, so neither are they with that. */
  lemma LongJitterBreaksLimit()
    ensures Slept(4294968) == 704 && LimitBroken(Limits(3, 4294968, 4294968))
  {
    hide LimitBroken;
    var l := Limits(3, 4294968, 4294968);
    assert 1000 * 4294968 == 0x1_0000_0000 + 704;
    assert Spread(l) == 333_000;
    RateBoundExactly(l);
  }

  /** With a limit above 1000 there is no interval to wait for, and those 704 microseconds alone keep 2000 a second. */
  lemma LongJitterKeepsHighLimit()
    ensures !LimitBroken(Limits(2000, 4294968, 4294968))
  {
    hide LimitBroken;
    var l := Limits(2000, 4294968, 4294968);
    assert 1000 * 4294968 == 0x1_0000_0000 + 704;
    assert Interval(l) == 0 && Spread(l) == 704;
    RateBoundExactly(l);
  }
}

/** The limiter object and the clock it reads. */
module RateLimiting {
  import opened Core
  import opened RateLimits

  /** A clock in microseconds that shows a positive number of milliseconds and never goes back. */
  class Clock {
    var now: nat
    ghost var drift: nat

    constructor (start: nat)
      requires start >= 1000
      ensures now == start && drift == 0
    {
      now, drift := start, 0;
    }

    /** Any time may pass before the reading is taken, in whole milliseconds. */
    method GetTimeMs() returns (t: nat)
      modifies this
      ensures t == now / 1000 && now - old(now) == drift - old(drift) >= 0
    {
      var d: nat :| d >= 0;
      now, drift := now + d, drift + d;
      t := now / 1000;
    }

    /** Hands the system a 32-bit number of microseconds; the system sleeps that long, or longer. */
    method SleepMs(ms: nat)
      modifies this
      ensures drift >= old(drift) && now == old(now) + Slept(ms) + (drift - old(drift))
    {
      var us := Wrap32(1000 * ms);
      var d: nat :| d >= 0;
      now, drift := now + us + d, drift + d;
    }
  }

  class RateLimiter {
    var lastQueryTimeMs: nat
    var maxQps: nat
    var minJitterMs: nat
    var maxJitterMs: nat
    var initialized: bool
    /** The calls so far. */
    ghost var run: seq<Call>

    constructor ()
      ensures lastQueryTimeMs == 0 && Limits() == RateLimits.Limits(5, 100, 500) && !initialized && run == []
      ensures IsRun(Limits(), run)
    {
      lastQueryTimeMs, maxQps, minJitterMs, maxJitterMs, initialized := 0, 5, 100, 500, false;
      run := [];
    }

    ghost function Limits(): RateLimits.Limits
      reads this
    {
      RateLimits.Limits(maxQps, minJitterMs, maxJitterMs)
    }

    /** The calls form a run that ended by this clock. */
    ghost predicate Valid(clock: Clock)
      reads this, clock
    {
      && Usable(Limits()) && 1000 <= clock.now && LastEnd(run) <= clock.now
      && IsRun(Limits(), run) && LastStamp(run) == lastQueryTimeMs
    }

    /** Until the interval since the last query is over; `entry` is the time of the first reading. */
    method AwaitInterval(clock: Clock) returns (ghost entry: nat)
      requires Usable(Limits()) && 1000 * lastQueryTimeMs <= clock.now
      modifies clock
      ensures clock.drift >= old(clock.drift) && clock.now >= entry >= old(clock.now)
      ensures var due := Due(Limits(), lastQueryTimeMs, entry);
              due <= clock.now <= due + (clock.drift - old(clock.drift))
    {
      hide Slept;
      var now := clock.GetTimeMs();
      entry := clock.now;
      var minIntervalMs := 1000 / maxQps;
      assert minIntervalMs == Interval(Limits()) <= 1000;
      if lastQueryTimeMs > 0 {
        var elapsed := now - lastQueryTimeMs;
        if elapsed < minIntervalMs {
          var waitTime := minIntervalMs - elapsed;
          ShortSleep(waitTime);
          clock.SleepMs(waitTime);
          now := clock.GetTimeMs();
        }
      }
    }

    /** `random` is the value rand() returns. The call becomes the last one of the run, so that the object keeps the
        limit in every second of its life, whenever max_qps spreads fill a second. */
    method EnforceRateLimit(clock: Clock, random: nat)
      requires Valid(clock)
      modifies this, clock
      ensures Valid(clock) && initialized && Limits() == old(Limits())
      ensures clock.drift >= old(clock.drift) && lastQueryTimeMs == clock.now / 1000
      ensures OneMore(Limits(), old(run), run, random, old(clock.now), clock.drift - old(clock.drift), clock.now)
      ensures maxQps * Spread(Limits()) >= 1_000_000 ==> forall from: nat :: StampsWithin(run, from) <= maxQps
    {
      hide IsRun, StampsWithin, LastEnd, Spread, Slept, Due;
      if !initialized {
        initialized := true;
      }
      ghost var (before, drift) := (run, clock.drift);
      ghost var entry := AwaitInterval(clock);
      var jitter := minJitterMs;
      if maxJitterMs > minJitterMs {
        jitter := jitter + random % (maxJitterMs - minJitterMs);
      }
      assert jitter == Jitter(Limits(), random);
      clock.SleepMs(jitter);
      lastQueryTimeMs := clock.GetTimeMs();
      ghost var c := Call(entry, random, clock.drift - drift, clock.now);
      RunGrows(Limits(), before, c);
      run := before + [c];
      assert run[..|before|] == before;
      KeepsLimit(Limits(), run);
    }
  }

  lemma KeepsLimit(l: Limits, run: seq<Call>)
    requires Usable(l) && IsRun(l, run)
    ensures l.maxQps * Spread(l) >= 1_000_000 ==> forall from: nat :: StampsWithin(run, from) <= l.maxQps
  {
    hide IsRun, StampsWithin, Spread;
    if l.maxQps * Spread(l) >= 1_000_000 {
      forall from: nat
        ensures StampsWithin(run, from) <= l.maxQps
      {
        RateBound(l, run, from);
      }
    }
  }
}
