/** The periodic scheduler of kernel/hwe_async.c: due times on a wrapping clock, and the unbounded
    clock they stand for. A clock of W bits is given by `half` = 2^(W-1). */
module Scheduler {
  /** `time_after_eq(a, b)`: the signed difference of the two clock values is not negative. */
  predicate TimeAfterEq(a: nat, b: nat, half: nat)
    requires half > 0
  {
    (a - b) % (2 * half) < half
  }

  /** The next due time of a pair: `time` is the last one, with 0 for a pair not started. */
  function DueAt(time: nat, period: nat, jiff: nat, half: nat): nat
    requires half > 0
  {
    if time != 0 then (time + period) % (2 * half) else jiff
  }

  predicate Fires(time: nat, period: nat, jiff: nat, half: nat)
    requires half > 0
  {
    TimeAfterEq(jiff, DueAt(time, period, jiff, half), half)
  }

  /** What one tick at clock value `jiff` leaves in `time`. */
  function Tick(time: nat, period: nat, jiff: nat, half: nat): nat
    requires half > 0
  {
    if Fires(time, period, jiff, half) then DueAt(time, period, jiff, half) else time
  }

  // ---- The unbounded clock ----

  /** A pair that has fired `n` times, first at `t0`; its firings are due at t0, t0 + P, t0 + 2P, ... */
  datatype Ideal = Idle | Running(t0: nat, n: nat)

  /** The instant a tick at `now` compares with. */
  function NextDue(s: Ideal, period: nat, now: nat): nat {
    match s case Idle => now case Running(t0, n) => t0 + n * period
  }

  function IdealTick(s: Ideal, period: nat, now: nat): Ideal {
    if now < NextDue(s, period, now) then s
    else match s case Idle => Running(now, 1) case Running(t0, n) => Running(t0, n + 1)
  }

  /** The stored W-bit time stands for the ideal state. */
  predicate Stands(time: nat, s: Ideal, period: nat, half: nat)
    requires half > 0
  {
    match s
    case Idle => time == 0
    case Running(t0, n) => n >= 1 && time == (t0 + (n - 1) * period) % (2 * half) && time != 0
  }

  /** No firing that counts has been due in the future. */
  predicate Past(s: Ideal, period: nat, now: nat) {
    s.Running? ==> s.n >= 1 && s.t0 + (s.n - 1) * period <= now
  }

  /** The wrapping clock serves this tick: nothing is due, or the delay is (modulo the clock) less
      than half its range and the due instant is not the value 0 that means "not started". */
  predicate Served(s: Ideal, period: nat, now: nat, half: nat)
    requires half > 0
  {
    var due := NextDue(s, period, now);
    now < due || ((now - due) % (2 * half) < half && due % (2 * half) != 0)
  }

  lemma MulBounds(k: int, m: int)
    requires m >= 0
    ensures k >= 1 ==> k * m >= m
    ensures k <= -1 ==> k * m <= -m
  {
  }

  lemma ModUnique(a: int, m: nat, q: int, r: int)
    requires m > 0 && a == q * m + r && 0 <= r < m
    ensures a % m == r && a / m == q
  {
    var k := q - a / m;
    assert k * m == a % m - r;
    MulBounds(k, m);
  }

  /** Values that differ by a whole number of clock ranges are the same clock value. */
  lemma ModEqual(a: int, b: int, m: nat, q: int)
    requires m > 0 && a == b + m * q
    ensures a % m == b % m
  {
    assert a == (q + b / m) * m + b % m;
    ModUnique(a, m, q + b / m, b % m);
  }

  lemma ModOfDifference(a: int, b: int, m: nat)
    requires m > 0
    ensures (a % m - b % m) % m == (a - b) % m
    ensures (a - b % m) % m == (a - b) % m
    ensures (a % m + b) % m == (a + b) % m
  {
    var qa, qb := a / m, b / m;
    assert a == m * qa + a % m && b == m * qb + b % m;
    assert a % m - b % m == (a - b) + m * (qb - qa);
    ModEqual(a % m - b % m, a - b, m, qb - qa);
    ModEqual(a - b % m, a - b, m, qb);
    ModEqual(a % m + b, a + b, m, -qa);
  }

  /** The due time a tick computes is the ideal one on the clock. */
  lemma DueStands(time: nat, s: Ideal, period: nat, now: nat, half: nat)
    requires half > 0 && Stands(time, s, period, half)
    ensures DueAt(time, period, now % (2 * half), half) == NextDue(s, period, now) % (2 * half)
  {
    match s
    case Idle =>
    case Running(t0, n) =>
      ModOfDifference(t0 + (n - 1) * period, period, 2 * half);
      assert t0 + (n - 1) * period + period == t0 + n * period;
  }

  /** The comparison on the clock, exactly: before the due instant it is right whenever the period
      is at most half the range; after it, when the delay modulo the range is below half. */
  lemma DecisionOnClock(now: nat, due: nat, half: nat)
    requires half > 0
    ensures TimeAfterEq(now % (2 * half), due % (2 * half), half) <==> (now - due) % (2 * half) < half
    ensures now < due <= now + half ==> !TimeAfterEq(now % (2 * half), due % (2 * half), half)
  {
    var m := 2 * half;
    ModOfDifference(now, due, m);
    if now < due <= now + half {
      ModUnique(now - due, m, -1, m + now - due);
    }
  }

  /** One tick on the wrapping clock makes the decision of the unbounded clock and stores the time
      that stands for its state, exactly when the tick is served. */
  lemma TickExact(time: nat, s: Ideal, period: nat, now: nat, half: nat)
    requires 1 <= period <= half
    requires Stands(time, s, period, half) && Past(s, period, now)
    ensures var jiff := now % (2 * half); var due := NextDue(s, period, now);
      (Fires(time, period, jiff, half) <==> now >= due)
        && Stands(Tick(time, period, jiff, half), IdealTick(s, period, now), period, half)
      <==> Served(s, period, now, half)
    ensures Past(IdealTick(s, period, now), period, now)
  {
    hide TimeAfterEq;
    var due := NextDue(s, period, now);
    DueStands(time, s, period, now, half);
    if s.Running? {
      assert s.t0 + s.n * period == s.t0 + (s.n - 1) * period + period;
    }
    DecisionOnClock(now, due, half);
    assert due <= now + half;
    var s' := IdealTick(s, period, now);
    if now >= due {
      assert s'.Running? && s'.t0 + (s'.n - 1) * period == due;
    }
  }

  // ---- Runs: the instants `ts` of the ticks that got the lock ----

  predicate Ascending(from: nat, ts: seq<nat>)
    decreases |ts|
  {
    ts == [] || (from <= ts[0] && Ascending(ts[0], ts[1..]))
  }

  function IdealRun(s: Ideal, period: nat, ts: seq<nat>): Ideal
    decreases |ts|
  {
    if ts == [] then s else IdealRun(IdealTick(s, period, ts[0]), period, ts[1..])
  }

  /** The instants at which the pair fires. */
  function IdealLog(s: Ideal, period: nat, ts: seq<nat>): seq<nat>
    decreases |ts|
  {
    if ts == [] then []
    else
      var first := if ts[0] < NextDue(s, period, ts[0]) then [] else [ts[0]];
      first + IdealLog(IdealTick(s, period, ts[0]), period, ts[1..])
  }

  function ClockRun(time: nat, period: nat, ts: seq<nat>, half: nat): nat
    requires half > 0
    decreases |ts|
  {
    if ts == [] then time else ClockRun(Tick(time, period, ts[0] % (2 * half), half), period, ts[1..], half)
  }

  function ClockLog(time: nat, period: nat, ts: seq<nat>, half: nat): seq<nat>
    requires half > 0
    decreases |ts|
  {
    if ts == [] then []
    else
      var first := if Fires(time, period, ts[0] % (2 * half), half) then [ts[0]] else [];
      first + ClockLog(Tick(time, period, ts[0] % (2 * half), half), period, ts[1..], half)
  }

  predicate AllServed(s: Ideal, period: nat, ts: seq<nat>, half: nat)
    requires half > 0
    decreases |ts|
  {
    ts == [] || (Served(s, period, ts[0], half) && AllServed(IdealTick(s, period, ts[0]), period, ts[1..], half))
  }

  /** At every tick both clocks decide alike, and afterwards the stored time stands for the ideal state. */
  predicate Agrees(time: nat, s: Ideal, period: nat, ts: seq<nat>, half: nat)
    requires half > 0
    decreases |ts|
  {
    ts == [] || (
      var jiff := ts[0] % (2 * half);
      var time', s' := Tick(time, period, jiff, half), IdealTick(s, period, ts[0]);
      (Fires(time, period, jiff, half) <==> ts[0] >= NextDue(s, period, ts[0]))
      && Stands(time', s', period, half) && Agrees(time', s', period, ts[1..], half))
  }

  /** Over any run, the wrapping clock behaves as the unbounded one exactly when every tick is served. */
  lemma {:induction false} ClockIsIdeal(time: nat, s: Ideal, period: nat, ts: seq<nat>, half: nat, from: nat)
    requires 1 <= period <= half
    requires Stands(time, s, period, half) && Past(s, period, from) && Ascending(from, ts)
    ensures Agrees(time, s, period, ts, half) <==> AllServed(s, period, ts, half)
    decreases |ts|
  {
    hide Fires, Tick, NextDue, Stands, Served, IdealTick;
    if ts != [] {
      var now := ts[0];
      PastLater(s, period, from, now);
      TickExact(time, s, period, now, half);
      if Served(s, period, now, half) {
        ClockIsIdeal(Tick(time, period, now % (2 * half), half), IdealTick(s, period, now), period, ts[1..], half, now);
      }
    }
  }

  lemma PastLater(s: Ideal, period: nat, from: nat, now: nat)
    requires Past(s, period, from) && from <= now
    ensures Past(s, period, now)
  {
  }

  lemma {:induction false} AgreeingRuns(time: nat, s: Ideal, period: nat, ts: seq<nat>, half: nat)
    requires half > 0 && Stands(time, s, period, half) && Agrees(time, s, period, ts, half)
    ensures Stands(ClockRun(time, period, ts, half), IdealRun(s, period, ts), period, half)
    ensures ClockLog(time, period, ts, half) == IdealLog(s, period, ts)
    decreases |ts|
  {
    hide Fires, Tick, NextDue, Stands, IdealTick;
    if ts != [] {
      AgreeingRuns(Tick(time, period, ts[0] % (2 * half), half), IdealTick(s, period, ts[0]), period, ts[1..], half);
    }
  }

  /** On the unbounded clock, firing number `n + k` is never early, and every firing counts once. */
  lemma {:induction false} NeverEarly(t0: nat, n: nat, period: nat, ts: seq<nat>)
    ensures var log := IdealLog(Running(t0, n), period, ts);
      && (forall k | 0 <= k < |log| :: log[k] >= t0 + (n + k) * period)
      && IdealRun(Running(t0, n), period, ts) == Running(t0, n + |log|)
    decreases |ts|
  {
    if ts != [] {
      var late := ts[0] >= t0 + n * period;
      var n' := if late then n + 1 else n;
      NeverEarly(t0, n', period, ts[1..]);
      var log, rest := IdealLog(Running(t0, n), period, ts), IdealLog(Running(t0, n'), period, ts[1..]);
      forall k | 0 <= k < |log|
        ensures log[k] >= t0 + (n + k) * period
      {
        if late && k > 0 {
          assert log[k] == rest[k - 1];
          assert n' + (k - 1) == n + k;
        }
      }
    }
  }

  /** No drift: over any served run of a pair that had not started, firing `k` happens no earlier
      than k periods after the first, and the stored time is exactly the due time of the last
      firing on the clock, whatever the delays were. */
  lemma NoDrift(period: nat, ts: seq<nat>, half: nat)
    requires 1 <= period <= half && ts != [] && Ascending(0, ts)
    requires AllServed(Idle, period, ts, half)
    ensures var log := ClockLog(0, period, ts, half);
      && |log| >= 1 && log[0] == ts[0]
      && (forall k | 0 <= k < |log| :: log[k] >= ts[0] + k * period)
      && ClockRun(0, period, ts, half) == (ts[0] + (|log| - 1) * period) % (2 * half)
  {
    hide Fires, Tick, ClockRun, ClockLog, AllServed, Agrees;
    ClockIsIdeal(0, Idle, period, ts, half, 0);
    AgreeingRuns(0, Idle, period, ts, half);
    NeverEarly(ts[0], 1, period, ts[1..]);
    var log, rest := IdealLog(Idle, period, ts), IdealLog(Running(ts[0], 1), period, ts[1..]);
    assert log == [ts[0]] + rest;
    forall k | 0 <= k < |log|
      ensures log[k] >= ts[0] + k * period
    {
      if k > 0 {
        assert log[k] == rest[k - 1];
      }
    }
  }

  /** The mark 0 at work: a firing due at an instant that is 0 on the clock forgets its schedule, and
      the pair fires again at the very next tick. */
  lemma ZeroRestarts(time: nat, t0: nat, n: nat, period: nat, now: nat, next: nat, half: nat)
    requires 1 <= period <= half && Stands(time, Running(t0, n), period, half)
    requires var due := t0 + n * period; due <= now < due + half && due % (2 * half) == 0
    ensures Tick(time, period, now % (2 * half), half) == 0
    ensures Fires(0, period, next % (2 * half), half)
  {
    hide TimeAfterEq;
    DueStands(time, Running(t0, n), period, now, half);
    DecisionOnClock(now, t0 + n * period, half);
    ModUnique(now - (t0 + n * period), 2 * half, 0, now - (t0 + n * period));
    DecisionOnClock(next, next, half);
  }

  /** A tick late by at least half the range, but less than the range, does not fire. */
  lemma TooLateSkips(time: nat, t0: nat, n: nat, period: nat, now: nat, half: nat)
    requires 1 <= period <= half && Stands(time, Running(t0, n), period, half)
    requires var due := t0 + n * period; due + half <= now < due + 2 * half
    ensures !Fires(time, period, now % (2 * half), half)
  {
    hide TimeAfterEq;
    DueStands(time, Running(t0, n), period, now, half);
    DecisionOnClock(now, t0 + n * period, half);
    ModUnique(now - (t0 + n * period), 2 * half, 0, now - (t0 + n * period));
  }

  // ---- Catching up after lost ticks ----

  /** Successive ticks are at most `g` apart. */
  predicate GapsWithin(from: nat, ts: seq<nat>, g: nat)
    decreases |ts|
  {
    ts == [] || (from <= ts[0] <= from + g && GapsWithin(ts[0], ts[1..], g))
  }

  /** Nothing that was due by `now` is still to fire. */
  predicate CaughtUp(t0: nat, n: nat, period: nat, now: nat) {
    now < t0 + n * period
  }

  /** Once caught up, a pair stays so as long as ticks come more often than its period. */
  lemma {:induction false} StaysCaughtUp(t0: nat, n: nat, period: nat, g: nat, now: nat, ts: seq<nat>)
    requires g < period && CaughtUp(t0, n, period, now) && GapsWithin(now, ts, g)
    ensures var s := IdealRun(Running(t0, n), period, ts);
      s.Running? && s.t0 == t0 && CaughtUp(t0, s.n, period, if ts == [] then now else ts[|ts| - 1])
    decreases |ts|
  {
    if ts != [] {
      var n' := if ts[0] >= t0 + n * period then n + 1 else n;
      assert t0 + (n + 1) * period == t0 + n * period + period;
      StaysCaughtUp(t0, n', period, g, ts[0], ts[1..]);
    }
  }

  lemma FirstTick(t0: nat, n: nat, period: nat, ts: seq<nat>)
    requires ts != []
    ensures var n' := if ts[0] >= t0 + n * period then n + 1 else n;
      IdealRun(Running(t0, n), period, ts) == IdealRun(Running(t0, n'), period, ts[1..])
    ensures (n + 1) * period == n * period + period
  {
  }

  lemma Distribute(k: nat, d: nat)
    ensures (k + 1) * d == k * d + d
  {
  }

  /** A backlog of `backlog` jiffies is cleared, and stays cleared, once `ticks` ticks at most `g`
      apart have got the lock, where `ticks` exceeds backlog / (period - g). */
  lemma {:induction false} CatchesUp(t0: nat, n: nat, period: nat, g: nat, backlog: int, ts: seq<nat>)
    requires g < period && ts != [] && GapsWithin(ts[0], ts[1..], g)
    requires ts[0] - (t0 + n * period) <= backlog && |ts| * (period - g) > backlog
    ensures var s := IdealRun(Running(t0, n), period, ts);
      s.Running? && s.t0 == t0 && CaughtUp(t0, s.n, period, ts[|ts| - 1])
    decreases |ts|
  {
    hide IdealRun;
    var now, rest := ts[0], ts[1..];
    var n' := if now >= t0 + n * period then n + 1 else n;
    FirstTick(t0, n, period, ts);
    Distribute(|rest|, period - g);
    if CaughtUp(t0, n', period, now) {
      StaysCaughtUp(t0, n', period, g, now, rest);
    } else {
      CatchesUp(t0, n', period, g, backlog - (period - g), rest);
    }
  }

  /** After any run of lost ticks, floor(backlog / (period - g)) + 1 ticks that get the lock are enough. */
  lemma CatchUpBound(t0: nat, n: nat, period: nat, g: nat, ts: seq<nat>)
    requires g < period && ts != [] && GapsWithin(ts[0], ts[1..], g)
    requires ts[0] >= t0 + n * period
    requires |ts| >= (ts[0] - (t0 + n * period)) / (period - g) + 1
    ensures var s := IdealRun(Running(t0, n), period, ts);
      s.Running? && s.t0 == t0 && CaughtUp(t0, s.n, period, ts[|ts| - 1])
  {
    hide IdealRun, GapsWithin, CaughtUp;
    var backlog := ts[0] - (t0 + n * period);
    var d := period - g;
    var q := backlog / d;
    assert backlog == q * d + backlog % d;
    MulAtLeast(|ts|, q + 1, d);
    CatchesUp(t0, n, period, g, backlog, ts);
  }

  lemma MulAtLeast(a: nat, b: nat, d: nat)
    requires a >= b
    ensures a * d >= b * d
  {
  }

  /** Once caught up at `now`, exactly the firings that were due have happened: none lost, none
      twice. */
  lemma CountWhenCaughtUp(t0: nat, n: nat, period: nat, now: nat)
    requires period >= 1 && Past(Running(t0, n), period, now) && CaughtUp(t0, n, period, now)
    ensures n == (now - t0) / period + 1
  {
    var x := now - t0;
    assert x == (n - 1) * period + (x - (n - 1) * period);
    assert n * period == (n - 1) * period + period;
    ModUnique(x, period, n - 1, x - (n - 1) * period);
  }

  lemma {:induction false} RunAppend(s: Ideal, period: nat, a: seq<nat>, b: seq<nat>)
    ensures IdealRun(s, period, a + b) == IdealRun(IdealRun(s, period, a), period, b)
    decreases |a|
  {
    hide IdealTick;
    if a == [] {
      assert a + b == b;
    } else {
      assert (a + b)[1..] == a[1..] + b;
      RunAppend(IdealTick(s, period, a[0]), period, a[1..], b);
    }
  }

  lemma {:induction false} RunPast(s: Ideal, period: nat, from: nat, ts: seq<nat>)
    requires Past(s, period, from) && Ascending(from, ts)
    ensures Past(IdealRun(s, period, ts), period, if ts == [] then from else ts[|ts| - 1])
    decreases |ts|
  {
    if ts != [] {
      RunPast(IdealTick(s, period, ts[0]), period, ts[0], ts[1..]);
    }
  }

  /** None lost, none twice, on the wrapping clock: let a pair that had not started see the ticks
      `a`, with any number of ticks lost in between, and then the ticks `b`, at most `g` apart and
      enough to clear the backlog it had. Then it has fired exactly once for every instant
      t0, t0 + P, t0 + 2P, ... up to the last tick. */
  lemma EveryFiringHappens(period: nat, g: nat, a: seq<nat>, b: seq<nat>, half: nat)
    requires g < period <= half && a != [] && b != []
    requires Ascending(0, a + b) && AllServed(Idle, period, a + b, half)
    requires GapsWithin(b[0], b[1..], g)
    requires |b| * (period - g) > b[0] - NextDue(IdealRun(Idle, period, a), period, b[0])
    ensures |ClockLog(0, period, a + b, half)| == (b[|b| - 1] - a[0]) / period + 1
  {
    var ts, last := a + b, b[|b| - 1];
    var n := |IdealLog(Running(a[0], 1), period, ts[1..])| + 1;
    FiringsAre(period, a + b, half, n);
    NeverEarly(a[0], 1, period, a[1..]);
    assert IdealTick(Idle, period, a[0]) == Running(a[0], 1);
    var mid := IdealRun(Idle, period, a);
    assert mid == IdealRun(Running(a[0], 1), period, a[1..]);
    RunAppend(Idle, period, a, b);
    CatchesUp(a[0], mid.n, period, g, b[0] - (a[0] + mid.n * period), b);
    assert ts[|ts| - 1] == last;
    CountWhenCaughtUp(a[0], n, period, last);
  }

  /** A served run of a pair that had not started fires as often as its ideal state counts. */
  lemma FiringsAre(period: nat, ts: seq<nat>, half: nat, n: nat)
    requires 1 <= period <= half && ts != [] && Ascending(0, ts) && AllServed(Idle, period, ts, half)
    requires n == |IdealLog(Running(ts[0], 1), period, ts[1..])| + 1
    ensures |ClockLog(0, period, ts, half)| == n
    ensures IdealRun(Idle, period, ts) == Running(ts[0], n)
    ensures Past(Running(ts[0], n), period, ts[|ts| - 1])
  {
    hide Fires, Tick, ClockRun, ClockLog, AllServed, Agrees;
    ClockIsIdeal(0, Idle, period, ts, half, 0);
    AgreeingRuns(0, Idle, period, ts, half);
    NeverEarly(ts[0], 1, period, ts[1..]);
    RunPast(Idle, period, 0, ts);
  }
}
