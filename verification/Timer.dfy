/** `timer_func` of kernel/hwe_async.c: one tick over all interfaces, devices and pairs. */
module Timer {
  import opened Scheduler

  /** The fields of a pair that the timer reads and writes. */
  class TimedPair {
    const asyncRx: bool
    const period: nat
    var time: nat

    constructor (asyncRx: bool, period: nat)
      ensures this.asyncRx == asyncRx && this.period == period && time == 0
    {
      this.asyncRx := asyncRx;
      this.period := period;
      time := 0;
    }
  }

  predicate FiresNow(p: TimedPair, time: nat, jiff: nat, half: nat)
    requires half > 0
  {
    p.asyncRx && Fires(time, p.period, jiff, half)
  }

  /** The time a pair has after the tick. */
  function TimeAfter(p: TimedPair, time: nat, jiff: nat, half: nat): nat
    requires half > 0
  {
    if p.asyncRx then Tick(time, p.period, jiff, half) else time
  }

  ghost function Times(ps: seq<TimedPair>): seq<nat>
    reads ps
  {
    seq(|ps|, i requires 0 <= i < |ps| reads ps => ps[i].time)
  }

  /** The pairs of `ps`, with times `ts`, that fire at this tick, in the order of the list. */
  ghost function Firing(ps: seq<TimedPair>, ts: seq<nat>, jiff: nat, half: nat): seq<TimedPair>
    requires half > 0 && |ps| == |ts|
  {
    if ps == [] then []
    else
      var n := |ps| - 1;
      Firing(ps[..n], ts[..n], jiff, half) + if FiresNow(ps[n], ts[n], jiff, half) then [ps[n]] else []
  }

  lemma {:induction false} FiringConcat(ps: seq<TimedPair>, ts: seq<nat>, qs: seq<TimedPair>, us: seq<nat>, jiff: nat, half: nat)
    requires half > 0 && |ps| == |ts| && |qs| == |us|
    ensures Firing(ps + qs, ts + us, jiff, half) == Firing(ps, ts, jiff, half) + Firing(qs, us, jiff, half)
    decreases |qs|
  {
    hide FiresNow;
    if qs == [] {
      assert ps + qs == ps && ts + us == ts;
    } else {
      var n := |qs| - 1;
      assert (ps + qs)[..|ps| + n] == ps + qs[..n];
      assert (ts + us)[..|ps| + n] == ts + us[..n];
      FiringConcat(ps, ts, qs[..n], us[..n], jiff, half);
    }
  }

  ghost predicate AllDifferent(ps: seq<TimedPair>) {
    forall i, j | 0 <= i < j < |ps| :: ps[i] != ps[j]
  }

  /** `a` is what is left of `b` when some of its entries are left out. */
  ghost predicate Subsequence(a: seq<TimedPair>, b: seq<TimedPair>)
    decreases |b|
  {
    if a == [] then true
    else if b == [] then false
    else
      var m, n := |a| - 1, |b| - 1;
      (a[m] == b[n] && Subsequence(a[..m], b[..n])) || Subsequence(a, b[..n])
  }

  lemma {:induction false} SubsequenceHas(a: seq<TimedPair>, b: seq<TimedPair>)
    requires Subsequence(a, b)
    ensures forall p | p in a :: p in b
    decreases |b|
  {
    if a != [] {
      var m, n := |a| - 1, |b| - 1;
      assert a == a[..m] + [a[m]] && b == b[..n] + [b[n]];
      if a[m] == b[n] && Subsequence(a[..m], b[..n]) {
        SubsequenceHas(a[..m], b[..n]);
      } else {
        SubsequenceHas(a, b[..n]);
      }
    }
  }

  lemma {:induction false} SubsequenceDifferent(a: seq<TimedPair>, b: seq<TimedPair>)
    requires Subsequence(a, b) && AllDifferent(b)
    ensures AllDifferent(a)
    decreases |b|
  {
    if a != [] {
      var m, n := |a| - 1, |b| - 1;
      if a[m] == b[n] && Subsequence(a[..m], b[..n]) {
        SubsequenceDifferent(a[..m], b[..n]);
        SubsequenceHas(a[..m], b[..n]);
        assert forall i | 0 <= i < m :: a[i] == a[..m][i] && a[..m][i] in b[..n];
      } else {
        SubsequenceDifferent(a, b[..n]);
      }
    }
  }

  lemma {:induction false} SubsequenceTrans(a: seq<TimedPair>, b: seq<TimedPair>, c: seq<TimedPair>)
    requires Subsequence(a, b) && Subsequence(b, c)
    ensures Subsequence(a, c)
    decreases |c|
  {
    if a != [] {
      var l, m, n := |a| - 1, |b| - 1, |c| - 1;
      if b[m] == c[n] && Subsequence(b[..m], c[..n]) {
        if a[l] == b[m] && Subsequence(a[..l], b[..m]) {
          SubsequenceTrans(a[..l], b[..m], c[..n]);
        } else {
          SubsequenceTrans(a, b[..m], c[..n]);
        }
      } else {
        SubsequenceTrans(a, b, c[..n]);
      }
    }
  }

  lemma {:induction false} SubsequenceConcat(a: seq<TimedPair>, b: seq<TimedPair>, c: seq<TimedPair>, d: seq<TimedPair>)
    requires Subsequence(a, b) && Subsequence(c, d)
    ensures Subsequence(a + c, b + d)
    decreases |d|
  {
    if d == [] {
      assert a + c == a && b + d == b;
    } else {
      var n := |d| - 1;
      assert (b + d)[..|b| + n] == b + d[..n];
      if c == [] {
        SubsequenceConcat(a, b, c, d[..n]);
      } else {
        var m := |c| - 1;
        assert (a + c)[..|a| + m] == a + c[..m];
        if c[m] == d[n] && Subsequence(c[..m], d[..n]) {
          SubsequenceConcat(a, b, c[..m], d[..n]);
        } else {
          SubsequenceConcat(a, b, c, d[..n]);
        }
      }
    }
  }

  lemma {:induction false} SubsequenceSelf(a: seq<TimedPair>)
    ensures Subsequence(a, a)
    decreases |a|
  {
    if a != [] {
      SubsequenceSelf(a[..|a| - 1]);
    }
  }

  /** The pairs that fire are listed in the order of the list, each as often as there. */
  lemma {:induction false} FiringInOrder(ps: seq<TimedPair>, ts: seq<nat>, jiff: nat, half: nat)
    requires half > 0 && |ps| == |ts|
    ensures Subsequence(Firing(ps, ts, jiff, half), ps)
    decreases |ps|
  {
    hide FiresNow;
    if ps != [] {
      var n := |ps| - 1;
      var before := Firing(ps[..n], ts[..n], jiff, half);
      FiringInOrder(ps[..n], ts[..n], jiff, half);
      assert (before + [ps[n]])[..|before|] == before && before + [] == before;
    }
  }

  /** The tick has been done for the pairs of `ps`, whose times were `ts`. */
  ghost predicate Done(ps: seq<TimedPair>, ts: seq<nat>, jiff: nat, half: nat)
    requires half > 0 && |ps| == |ts|
    reads ps
  {
    forall i | 0 <= i < |ps| :: ps[i].time == TimeAfter(ps[i], ts[i], jiff, half)
  }

  /** The inner loop, over the pairs of one device: `fired` is what is handed to `async_rx`, in order. */
  method ScanPairs(ps: seq<TimedPair>, jiff: nat, half: nat) returns (fired: seq<TimedPair>)
    requires half > 0 && AllDifferent(ps)
    modifies ps
    ensures Done(ps, old(Times(ps)), jiff, half)
    ensures fired == Firing(ps, old(Times(ps)), jiff, half)
    ensures Subsequence(fired, ps) && AllDifferent(fired)
  {
    hide Fires;
    FiringInOrder(ps, Times(ps), jiff, half);
    SubsequenceDifferent(Firing(ps, Times(ps), jiff, half), ps);
    ghost var ts := Times(ps);
    fired := [];
    for i := 0 to |ps|
      invariant fired == Firing(ps[..i], ts[..i], jiff, half)
      invariant forall k | 0 <= k < i :: ps[k].time == TimeAfter(ps[k], ts[k], jiff, half)
      invariant forall k | i <= k < |ps| :: ps[k].time == ts[k]
    {
      var p := ps[i];
      assert ps[..i + 1][..i] == ps[..i] && ts[..i + 1][..i] == ts[..i];
      if p.asyncRx {
        if Fires(p.time, p.period, jiff, half) {
          fired := fired + [p];
          p.time := DueAt(p.time, p.period, jiff, half);
        }
      }
    }
    assert ps[..|ps|] == ps && ts[..|ps|] == ts;
  }

  ghost function Flat(devs: seq<seq<TimedPair>>): seq<TimedPair> {
    if devs == [] then [] else devs[0] + Flat(devs[1..])
  }

  /** The pairs of the interfaces whose lock is free, in the order of the lists. */
  ghost function Visited(ifaces: seq<seq<seq<TimedPair>>>, free: seq<bool>): seq<TimedPair>
    requires |ifaces| == |free|
  {
    if ifaces == [] then []
    else (if free[0] then Flat(ifaces[0]) else []) + Visited(ifaces[1..], free[1..])
  }

  /** The pairs of `ps` from `k` to `end` have been visited, those after `end` not yet. */
  ghost predicate Progress(ps: seq<TimedPair>, ts: seq<nat>, k: nat, fired: seq<TimedPair>, jiff: nat, half: nat)
    requires half > 0 && |ps| == |ts| && k <= |ps|
    reads ps
  {
    && Done(ps[..k], ts[..k], jiff, half)
    && fired == Firing(ps[..k], ts[..k], jiff, half)
    && forall i | k <= i < |ps| :: ps[i].time == ts[i]
  }

  lemma Window<T>(s: seq<T>, k: nat, part: seq<T>)
    requires k + |part| <= |s| && s[k..k + |part|] == part
    ensures s[..k] + part == s[..k + |part|]
    ensures forall i | 0 <= i < |part| :: part[i] == s[k + i]
  {
    var found := s[k..k + |part|];
    assert forall i | 0 <= i < |part| :: found[i] == s[k + i];
  }

  lemma OutsideWindow(ps: seq<TimedPair>, k: nat, part: seq<TimedPair>)
    requires AllDifferent(ps) && k + |part| <= |ps| && ps[k..k + |part|] == part
    ensures AllDifferent(part)
    ensures forall i | 0 <= i < |ps| && !(k <= i < k + |part|) :: ps[i] !in part
  {
    Window(ps, k, part);
  }

  /** One device: the pairs of `ps` from `k` on. */
  method ScanDevice(pairs: seq<TimedPair>, ghost ps: seq<TimedPair>, ghost ts: seq<nat>, ghost k: nat, ghost before: seq<TimedPair>,
      jiff: nat, half: nat)
    returns (fired: seq<TimedPair>)
    requires half > 0 && AllDifferent(ps) && |ps| == |ts| && k + |pairs| <= |ps| && ps[k..k + |pairs|] == pairs
    requires Progress(ps, ts, k, before, jiff, half)
    modifies ps
    ensures Progress(ps, ts, k + |pairs|, before + fired, jiff, half)
  {
    hide TimeAfter, Firing, AllDifferent;
    ghost var n := |pairs|;
    Window(ps, k, pairs);
    Window(ts, k, ts[k..k + n]);
    OutsideWindow(ps, k, pairs);
    assert Times(pairs) == ts[k..k + n];
    assert forall i | 0 <= i < k :: ps[..k][i] == ps[i];
    fired := ScanPairs(pairs, jiff, half);
    FiringConcat(ps[..k], ts[..k], pairs, ts[k..k + n], jiff, half);
    ghost var qs, us := ps[..k + n], ts[..k + n];
    forall i | 0 <= i < |qs|
      ensures qs[i].time == TimeAfter(qs[i], us[i], jiff, half)
    {
      if i < k {
        assert ps[..k][i] == ps[i];
      } else {
        assert pairs[i - k] == ps[i];
      }
    }
  }

  /** The middle loop, over the devices of one interface. */
  method ScanIface(devs: seq<seq<TimedPair>>, ghost ps: seq<TimedPair>, ghost ts: seq<nat>, ghost k: nat,
      ghost before: seq<TimedPair>, jiff: nat, half: nat)
    returns (fired: seq<TimedPair>)
    requires half > 0 && AllDifferent(ps) && |ps| == |ts|
    requires k + |Flat(devs)| <= |ps| && ps[k..k + |Flat(devs)|] == Flat(devs)
    requires Progress(ps, ts, k, before, jiff, half)
    modifies ps
    ensures Progress(ps, ts, k + |Flat(devs)|, before + fired, jiff, half)
  {
    hide Progress, AllDifferent;
    fired := [];
    ghost var at, end := k, k + |Flat(devs)|;
    assert devs[0..] == devs && before + [] == before;
    for i := 0 to |devs|
      invariant k <= at <= end && ps[at..end] == Flat(devs[i..])
      invariant Progress(ps, ts, at, before + fired, jiff, half)
    {
      assert devs[i..][1..] == devs[i + 1..];
      ghost var n := |devs[i]|;
      assert ps[at..at + n] == ps[at..end][..n] && ps[at + n..end] == ps[at..end][n..];
      var more := ScanDevice(devs[i], ps, ts, at, before + fired, jiff, half);
      assert before + fired + more == before + (fired + more);
      fired := fired + more;
      at := at + n;
    }
    assert |ps[at..end]| == 0;
  }

  /** `timer_func` at clock value `jiff`: every pair of an interface whose lock is free gets exactly
      one tick and fires at most once; interfaces whose lock is busy are left alone. */
  method TimerFunc(ifaces: seq<seq<seq<TimedPair>>>, free: seq<bool>, jiff: nat, half: nat) returns (fired: seq<TimedPair>)
    requires half > 0 && |ifaces| == |free| && AllDifferent(Visited(ifaces, free))
    modifies Visited(ifaces, free)
    ensures var ps := Visited(ifaces, free);
      Done(ps, old(Times(ps)), jiff, half) && fired == Firing(ps, old(Times(ps)), jiff, half)
    ensures Subsequence(fired, Visited(ifaces, free)) && AllDifferent(fired)
  {
    hide AllDifferent, Progress, Firing, Visited, Flat, Done, Fires, TimeAfter;
    ghost var ps := Visited(ifaces, free);
    ghost var ts := Times(ps);
    ghost var at := 0;
    fired := [];
    NoProgress(ps, ts, jiff, half);
    assert ifaces[0..] == ifaces && free[0..] == free && ps[0..] == ps;
    for i := 0 to |ifaces|
      invariant at <= |ps| && ps[at..] == Visited(ifaces[i..], free[i..])
      invariant Progress(ps, ts, at, fired, jiff, half)
    {
      VisitedStep(ifaces, free, i);
      if free[i] {
        ghost var n := |Flat(ifaces[i])|;
        assert ps[at..at + n] == ps[at..][..n] && ps[at + n..] == ps[at..][n..];
        var more := ScanIface(ifaces[i], ps, ts, at, fired, jiff, half);
        fired := fired + more;
        at := at + n;
      }
    }
    NoneVisited(ifaces[|ifaces|..], free[|ifaces|..]);
    assert |ps[at..]| == 0;
    AllProgress(ps, ts, fired, jiff, half);
    FiringInOrder(ps, ts, jiff, half);
    SubsequenceDifferent(fired, ps);
  }

  lemma VisitedStep(ifaces: seq<seq<seq<TimedPair>>>, free: seq<bool>, i: nat)
    requires |ifaces| == |free| && i < |ifaces|
    ensures Visited(ifaces[i..], free[i..]) ==
      (if free[i] then Flat(ifaces[i]) else []) + Visited(ifaces[i + 1..], free[i + 1..])
  {
    hide Flat;
    assert ifaces[i..][1..] == ifaces[i + 1..] && free[i..][1..] == free[i + 1..];
  }

  lemma NoneVisited(ifaces: seq<seq<seq<TimedPair>>>, free: seq<bool>)
    requires |ifaces| == |free| == 0
    ensures Visited(ifaces, free) == []
  {
  }

  lemma NoProgress(ps: seq<TimedPair>, ts: seq<nat>, jiff: nat, half: nat)
    requires half > 0 && ts == Times(ps)
    ensures Progress(ps, ts, 0, [], jiff, half)
  {
  }

  lemma AllProgress(ps: seq<TimedPair>, ts: seq<nat>, fired: seq<TimedPair>, jiff: nat, half: nat)
    requires half > 0 && |ps| == |ts| && Progress(ps, ts, |ps|, fired, jiff, half)
    ensures Done(ps, ts, jiff, half) && fired == Firing(ps, ts, jiff, half)
  {
    assert ps[..|ps|] == ps && ts[..|ts|] == ts;
  }

  // ---- Runs: the timer re-arms itself ----

  ghost function AllPairs(ifaces: seq<seq<seq<TimedPair>>>): seq<TimedPair> {
    if ifaces == [] then [] else Flat(ifaces[0]) + AllPairs(ifaces[1..])
  }

  /** How many pairs the devices before device `d` have. */
  ghost function PairsBefore(devs: seq<seq<TimedPair>>, d: nat): nat
    requires d <= |devs|
  {
    if d == 0 then 0 else PairsBefore(devs, d - 1) + |devs[d - 1]|
  }

  lemma {:induction false} BeforeInRest(devs: seq<seq<TimedPair>>, d: nat)
    requires 1 <= d <= |devs|
    ensures PairsBefore(devs, d) == |devs[0]| + PairsBefore(devs[1..], d - 1)
  {
    if d > 1 {
      BeforeInRest(devs, d - 1);
    }
  }

  /** The order of the lists: device after device, and the pairs of each in their order. */
  lemma {:induction false} FlatAt(devs: seq<seq<TimedPair>>, d: nat, k: nat)
    requires d < |devs| && k < |devs[d]|
    ensures PairsBefore(devs, d) + k < |Flat(devs)| && Flat(devs)[PairsBefore(devs, d) + k] == devs[d][k]
  {
    if d > 0 {
      BeforeInRest(devs, d);
      FlatAt(devs[1..], d - 1, k);
    }
  }

  /** And interface after interface. */
  lemma {:induction false} AllPairsAre(ifaces: seq<seq<seq<TimedPair>>>)
    ensures AllPairs(ifaces) == Flat(seq(|ifaces|, i requires 0 <= i < |ifaces| => Flat(ifaces[i])))
  {
    var flats := seq(|ifaces|, i requires 0 <= i < |ifaces| => Flat(ifaces[i]));
    if ifaces != [] {
      AllPairsAre(ifaces[1..]);
      assert flats[1..] == seq(|ifaces[1..]|, i requires 0 <= i < |ifaces[1..]| => Flat(ifaces[1..][i]));
    }
  }

  lemma DifferentParts(a: seq<TimedPair>, b: seq<TimedPair>)
    ensures AllDifferent(a + b) <==> AllDifferent(a) && AllDifferent(b) && forall p | p in a :: p !in b
  {
    var all := a + b;
    assert forall i | 0 <= i < |a| :: all[i] == a[i];
    assert forall i | 0 <= i < |b| :: all[|a| + i] == b[i];
    if AllDifferent(a) && AllDifferent(b) && forall p | p in a :: p !in b {
      forall i, j | 0 <= i < j < |all|
        ensures all[i] != all[j]
      {
        assert i < |a| <= j ==> all[i] in a && all[j] in b;
        assert |a| <= i ==> all[i] == b[i - |a|] && all[j] == b[j - |a|];
      }
    }
  }

  lemma {:induction false} VisitedInOrder(ifaces: seq<seq<seq<TimedPair>>>, free: seq<bool>)
    requires |ifaces| == |free|
    ensures Subsequence(Visited(ifaces, free), AllPairs(ifaces))
  {
    hide Flat, Subsequence;
    if ifaces == [] {
      SubsequenceSelf([]);
    } else {
      VisitedInOrder(ifaces[1..], free[1..]);
      SubsequenceSelf(Flat(ifaces[0]));
      NothingIsPart(Flat(ifaces[0]));
      SubsequenceConcat(if free[0] then Flat(ifaces[0]) else [], Flat(ifaces[0]), Visited(ifaces[1..], free[1..]), AllPairs(ifaces[1..]));
    }
  }

  lemma NothingIsPart(b: seq<TimedPair>)
    ensures Subsequence([], b)
  {
  }

  /** A tick visits the pairs of the interfaces whose lock is free, each once, and no others. */
  lemma VisitedAre(ifaces: seq<seq<seq<TimedPair>>>, free: seq<bool>)
    requires |ifaces| == |free| && AllDifferent(AllPairs(ifaces))
    ensures AllDifferent(Visited(ifaces, free))
    ensures forall k | 0 <= k < |Visited(ifaces, free)| :: Visited(ifaces, free)[k] in AllPairs(ifaces)
    ensures forall i, p | 0 <= i < |ifaces| && p in Flat(ifaces[i]) :: p in AllPairs(ifaces) && (p in Visited(ifaces, free) <==> free[i])
  {
    hide AllDifferent, Flat, Visited, AllPairs, Subsequence;
    VisitedInOrder(ifaces, free);
    SubsequenceDifferent(Visited(ifaces, free), AllPairs(ifaces));
    SubsequenceHas(Visited(ifaces, free), AllPairs(ifaces));
    forall i, p | 0 <= i < |ifaces| && p in Flat(ifaces[i])
      ensures p in AllPairs(ifaces) && (p in Visited(ifaces, free) <==> free[i])
    {
      VisitedIff(ifaces, free, i, p);
    }
  }

  lemma {:induction false} VisitedIff(ifaces: seq<seq<seq<TimedPair>>>, free: seq<bool>, i: nat, p: TimedPair)
    requires |ifaces| == |free| && AllDifferent(AllPairs(ifaces)) && i < |ifaces| && p in Flat(ifaces[i])
    ensures p in AllPairs(ifaces) && (p in Visited(ifaces, free) <==> free[i])
  {
    hide AllDifferent, Flat, Subsequence;
    var rest := Visited(ifaces[1..], free[1..]);
    DifferentParts(Flat(ifaces[0]), AllPairs(ifaces[1..]));
    VisitedInOrder(ifaces[1..], free[1..]);
    SubsequenceHas(rest, AllPairs(ifaces[1..]));
    if i > 0 {
      VisitedIff(ifaces[1..], free[1..], i - 1, p);
    }
  }

  /** Of different pairs, those that fire now are the ones handed on. */
  lemma {:induction false} FiringAre(ps: seq<TimedPair>, ts: seq<nat>, jiff: nat, half: nat, k: nat)
    requires half > 0 && |ps| == |ts| && AllDifferent(ps) && k < |ps|
    ensures ps[k] in Firing(ps, ts, jiff, half) <==> FiresNow(ps[k], ts[k], jiff, half)
    decreases |ps|
  {
    hide FiresNow;
    var n := |ps| - 1;
    FiringFrom(ps[..n], ts[..n], jiff, half);
    if k < n {
      FiringAre(ps[..n], ts[..n], jiff, half, k);
    }
  }

  lemma {:induction false} FiringFrom(ps: seq<TimedPair>, ts: seq<nat>, jiff: nat, half: nat)
    requires half > 0 && |ps| == |ts|
    ensures forall p | p in Firing(ps, ts, jiff, half) :: p in ps
  {
    hide FiresNow;
    if ps != [] {
      FiringFrom(ps[..|ps| - 1], ts[..|ps| - 1], jiff, half);
    }
  }

  /** The instants at which the lock of interface `i` was free. */
  ghost function Instants(frees: seq<seq<bool>>, nows: seq<nat>, i: nat): seq<nat>
    requires |frees| == |nows| && forall t | 0 <= t < |frees| :: i < |frees[t]|
  {
    if nows == [] then []
    else
      var n := |nows| - 1;
      Instants(frees[..n], nows[..n], i) + if frees[n][i] then [nows[n]] else []
  }

  function Repeat(x: nat, k: nat): seq<nat> {
    if k == 0 then [] else [x] + Repeat(x, k - 1)
  }

  /** The instants at which `p` was handed on, each as often as it was. */
  ghost function FiredAt(log: seq<seq<TimedPair>>, nows: seq<nat>, p: TimedPair): seq<nat>
    requires |log| == |nows|
  {
    if nows == [] then []
    else
      var n := |nows| - 1;
      FiredAt(log[..n], nows[..n], p) + Repeat(nows[n], multiset(log[n])[p])
  }

  /** `time` and the firings are those of the scheduler's run over the ticks `ts`. */
  ghost predicate Tracks(p: TimedPair, start: nat, time: nat, firings: seq<nat>, ts: seq<nat>, half: nat)
    requires half > 0
  {
    if p.asyncRx then time == ClockRun(start, p.period, ts, half) && firings == ClockLog(start, p.period, ts, half)
    else time == start && firings == []
  }

  lemma {:induction false} RunSnoc(time: nat, period: nat, ts: seq<nat>, now: nat, half: nat)
    requires half > 0
    ensures ClockRun(time, period, ts + [now], half) == Tick(ClockRun(time, period, ts, half), period, now % (2 * half), half)
    decreases |ts|
  {
    hide Tick;
    if ts == [] {
      assert ts + [now] == [now] && [now][1..] == [];
    } else {
      assert (ts + [now])[1..] == ts[1..] + [now];
      RunSnoc(Tick(time, period, ts[0] % (2 * half), half), period, ts[1..], now, half);
    }
  }

  lemma LogStep(time: nat, period: nat, ts: seq<nat>, half: nat)
    requires half > 0
    ensures ts == [] ==> ClockRun(time, period, ts, half) == time && ClockLog(time, period, ts, half) == []
    ensures ts != [] ==> var next := Tick(time, period, ts[0] % (2 * half), half);
      && ClockRun(time, period, ts, half) == ClockRun(next, period, ts[1..], half)
      && ClockLog(time, period, ts, half) ==
        (if Fires(time, period, ts[0] % (2 * half), half) then [ts[0]] else []) + ClockLog(next, period, ts[1..], half)
  {
  }

  lemma {:induction false} LogSnoc(time: nat, period: nat, ts: seq<nat>, now: nat, half: nat)
    requires half > 0
    ensures ClockLog(time, period, ts + [now], half) == ClockLog(time, period, ts, half)
      + if Fires(ClockRun(time, period, ts, half), period, now % (2 * half), half) then [now] else []
    decreases |ts|
  {
    hide Fires, Tick, ClockRun, ClockLog;
    LogStep(time, period, ts + [now], half);
    LogStep(time, period, ts, half);
    if ts == [] {
      assert ts + [now] == [now] && [now][1..] == [];
      LogStep(Tick(time, period, now % (2 * half), half), period, [], half);
    } else {
      assert (ts + [now])[1..] == ts[1..] + [now];
      LogSnoc(Tick(time, period, ts[0] % (2 * half), half), period, ts[1..], now, half);
    }
  }

  lemma TracksTick(p: TimedPair, start: nat, time: nat, firings: seq<nat>, ts: seq<nat>, now: nat, half: nat)
    requires half > 0 && Tracks(p, start, time, firings, ts, half)
    ensures var jiff := now % (2 * half);
      Tracks(p, start, TimeAfter(p, time, jiff, half), firings + (if FiresNow(p, time, jiff, half) then [now] else []), ts + [now], half)
  {
    hide Fires, Tick, ClockRun, ClockLog;
    RunSnoc(start, p.period, ts, now, half);
    LogSnoc(start, p.period, ts, now, half);
  }

  /** Pair `k` of device `d` of interface `i`. */
  ghost predicate Is(ifaces: seq<seq<seq<TimedPair>>>, i: int, d: int, k: int) {
    0 <= i < |ifaces| && 0 <= d < |ifaces[i]| && 0 <= k < |ifaces[i][d]|
  }

  lemma {:induction false} DeviceListed(devs: seq<seq<TimedPair>>, d: nat)
    requires d < |devs|
    ensures forall p | p in devs[d] :: p in Flat(devs)
  {
    if d > 0 {
      DeviceListed(devs[1..], d - 1);
    }
  }

  lemma PairsListed(ifaces: seq<seq<seq<TimedPair>>>)
    ensures forall i, d, k | Is(ifaces, i, d, k) :: ifaces[i][d][k] in Flat(ifaces[i])
  {
    hide Flat;
    forall i, d, k | Is(ifaces, i, d, k)
      ensures ifaces[i][d][k] in Flat(ifaces[i])
    {
      DeviceListed(ifaces[i], d);
    }
  }

  /** One tick, pair by pair. */
  method TimerTick(ifaces: seq<seq<seq<TimedPair>>>, free: seq<bool>, jiff: nat, half: nat) returns (fired: seq<TimedPair>)
    requires half > 0 && |ifaces| == |free| && AllDifferent(AllPairs(ifaces))
    modifies AllPairs(ifaces)
    ensures forall i, d, k | Is(ifaces, i, d, k) :: var p, time := ifaces[i][d][k], old(ifaces[i][d][k].time);
      && p.time == (if free[i] then TimeAfter(p, time, jiff, half) else time)
      && (p in fired <==> free[i] && FiresNow(p, time, jiff, half))
    ensures Subsequence(fired, AllPairs(ifaces)) && AllDifferent(fired)
  {
    hide Subsequence, AllDifferent, AllPairs, Flat, Visited, Firing, TimeAfter, FiresNow;
    PairsListed(ifaces);
    VisitedAre(ifaces, free);
    ghost var ps := Visited(ifaces, free);
    ghost var ts := Times(ps);
    fired := TimerFunc(ifaces, free, jiff, half);
    VisitedInOrder(ifaces, free);
    SubsequenceTrans(fired, ps, AllPairs(ifaces));
    FiringFrom(ps, ts, jiff, half);
    forall k | 0 <= k < |ps|
      ensures ps[k] in fired <==> FiresNow(ps[k], ts[k], jiff, half)
    {
      FiringAre(ps, ts, jiff, half, k);
    }
    forall i, d, k | Is(ifaces, i, d, k)
      ensures var p, time := ifaces[i][d][k], old(ifaces[i][d][k].time);
        && p.time == (if free[i] then TimeAfter(p, time, jiff, half) else time)
        && (p in fired <==> free[i] && FiresNow(p, time, jiff, half))
    {
      ghost var p := ifaces[i][d][k];
      assert p in Flat(ifaces[i]);
      if free[i] {
        assert p in ps;
        ghost var x :| 0 <= x < |ps| && ps[x] == p;
        assert ts[x] == old(ifaces[i][d][k].time);
      } else {
        assert p !in ps;
      }
    }
  }

  /** The timer over its ticks at the instants `nows`, `frees[t]` telling which locks it gets at tick
      `t`: each pair goes through the scheduler's run over exactly the instants at which the lock of
      its interface was free, and is handed on once at exactly the instants at which that run fires. */
  method Ticks(ifaces: seq<seq<seq<TimedPair>>>, frees: seq<seq<bool>>, nows: seq<nat>, half: nat) returns (log: seq<seq<TimedPair>>)
    requires half > 0 && AllDifferent(AllPairs(ifaces))
    requires |frees| == |nows| && forall t | 0 <= t < |frees| :: |frees[t]| == |ifaces|
    modifies AllPairs(ifaces)
    ensures |log| == |nows|
    ensures forall i, d, k | Is(ifaces, i, d, k) :: var p := ifaces[i][d][k];
      Tracks(p, old(ifaces[i][d][k].time), p.time, FiredAt(log, nows, p), Instants(frees, nows, i), half)
  {
    hide AllDifferent, AllPairs, Flat, Tracks, TimeAfter, FiresNow, FiredAt, Instants;
    log := [];
    forall i, d, k | Is(ifaces, i, d, k)
      ensures var p := ifaces[i][d][k];
        Tracks(p, p.time, p.time, FiredAt(log, nows[..0], p), Instants(frees[..0], nows[..0], i), half)
    {
      NoTicks(ifaces[i][d][k], frees[..0], nows[..0], i, half);
    }
    for t := 0 to |nows|
      invariant |log| == t
      invariant forall i, d, k | Is(ifaces, i, d, k) :: var p := ifaces[i][d][k];
        Tracks(p, old(ifaces[i][d][k].time), p.time, FiredAt(log, nows[..t], p), Instants(frees[..t], nows[..t], i), half)
    {
      label before:
      ghost var logged := log;
      var fired := TimerTick(ifaces, frees[t], nows[t] % (2 * half), half);
      log := log + [fired];
      forall i, d, k | Is(ifaces, i, d, k)
        ensures var p := ifaces[i][d][k];
          Tracks(p, old(ifaces[i][d][k].time), p.time, FiredAt(log, nows[..t + 1], p), Instants(frees[..t + 1], nows[..t + 1], i), half)
      {
        ghost var p := ifaces[i][d][k];
        OneMore(p, old(p.time), old@before(p.time), logged, fired, frees, nows, t, i, half);
      }
    }
    assert nows[..|nows|] == nows && frees[..|frees|] == frees;
  }

  lemma NoTicks(p: TimedPair, frees: seq<seq<bool>>, nows: seq<nat>, i: nat, half: nat)
    requires half > 0 && |frees| == |nows| == 0
    ensures Tracks(p, p.time, p.time, FiredAt([], nows, p), Instants(frees, nows, i), half)
  {
  }

  lemma {:induction false} Once(ps: seq<TimedPair>, p: TimedPair)
    requires AllDifferent(ps)
    ensures multiset(ps)[p] == if p in ps then 1 else 0
  {
    if ps != [] {
      var n := |ps| - 1;
      Once(ps[..n], p);
      assert ps == ps[..n] + [ps[n]];
    }
  }

  lemma OneMore(p: TimedPair, start: nat, time: nat, log: seq<seq<TimedPair>>, fired: seq<TimedPair>,
      frees: seq<seq<bool>>, nows: seq<nat>, t: nat, i: nat, half: nat)
    requires half > 0 && |frees| == |nows| && t < |nows| && |log| == t && forall t | 0 <= t < |frees| :: i < |frees[t]|
    requires Tracks(p, start, time, FiredAt(log, nows[..t], p), Instants(frees[..t], nows[..t], i), half)
    requires p.time == if frees[t][i] then TimeAfter(p, time, nows[t] % (2 * half), half) else time
    requires AllDifferent(fired)
    requires p in fired <==> frees[t][i] && FiresNow(p, time, nows[t] % (2 * half), half)
    ensures Tracks(p, start, p.time, FiredAt(log + [fired], nows[..t + 1], p), Instants(frees[..t + 1], nows[..t + 1], i), half)
  {
    hide Tracks, TimeAfter, FiresNow;
    var firings, ts := FiredAt(log, nows[..t], p), Instants(frees[..t], nows[..t], i);
    TracksTick(p, start, time, firings, ts, nows[t], half);
    Once(fired, p);
    assert Repeat(nows[t], 0) == [] && Repeat(nows[t], 1) == [nows[t]];
    assert nows[..t + 1][..t] == nows[..t] && frees[..t + 1][..t] == frees[..t] && (log + [fired])[..t] == log;
    assert firings + [] == firings && ts + [] == ts;
  }
}
