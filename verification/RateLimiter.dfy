/**
  The fixed-window limiter of src-tauri/src/local_rate_limit.rs. Instants and durations are
  natural numbers of clock ticks; a call reads the clock up to twice.
 */
module RateLimiter {

  /** One call: whether the lock is poisoned, its two clock readings, and the moment it counts for. */
  datatype Call = Call(poisoned: bool, first: nat, at: nat, second: nat)

  datatype Window = Window(started: nat, requests: nat)

  /** Saturating, like `Instant::elapsed`. */
  function Elapsed(started: nat, now: nat): nat {
    if now >= started then now - started else 0
  }

  datatype Policy = Policy(limit: nat, period: nat) {

    function Try(w: Window, c: Call): (Window, bool) {
      if c.poisoned then (w, false)
      else
        var open := if Elapsed(w.started, c.first) >= period then Window(c.second, 0) else w;
        if open.requests >= limit then (open, false) else (open.(requests := open.requests + 1), true)
    }

    /** Calls granted at a moment in [lo, hi). */
    function Granted(w: Window, calls: seq<Call>, lo: nat, hi: nat): nat
      decreases |calls|
    {
      if calls == [] then 0
      else
        var (w', granted) := Try(w, calls[0]);
        (if granted && lo <= calls[0].at < hi then 1 else 0) + Granted(w', calls[1..], lo, hi)
    }
  }

  /** The clock never runs backwards, within a call or between calls. */
  predicate Ordered(from: nat, calls: seq<Call>)
    decreases |calls|
  {
    calls == [] || (from <= calls[0].first <= calls[0].at <= calls[0].second && Ordered(calls[0].second, calls[1..]))
  }

  /** A full period after the window was opened, or at once without a period, the next one opens with nothing
      granted in it; a call is granted as long as its window has room. */
  lemma TryMeaning(p: Policy, w: Window, c: Call)
    ensures var (w', granted) := p.Try(w, c);
            var restarts := p.period == 0 || c.first >= w.started + p.period;
            && (c.poisoned ==> !granted && w' == w)
            && (!c.poisoned && restarts ==> (granted <==> p.limit > 0) && w'.started == c.second)
            && (!c.poisoned && !restarts ==> (granted <==> w.requests < p.limit) && w'.started == w.started)
            && (!c.poisoned ==> w'.requests == (if restarts then 0 else w.requests) + if granted then 1 else 0)
  {
  }

  // ----- The bound -----

  lemma {:induction false} NothingAfterInterval(p: Policy, w: Window, calls: seq<Call>, from: nat, lo: nat, hi: nat)
    requires Ordered(from, calls) && from >= hi
    ensures p.Granted(w, calls, lo, hi) == 0
    decreases |calls|
  {
    if calls != [] {
      NothingAfterInterval(p, p.Try(w, calls[0]).0, calls[1..], calls[0].second, lo, hi);
    }
  }

  /** If the next window cannot open before `x` and `j` windows cover `x` to `hi`, the rest of the run
      grants at most what the open window has left plus `j` full windows. */
  lemma {:induction false} GrantedFromHere(p: Policy, w: Window, calls: seq<Call>, from: nat, x: nat, j: nat, lo: nat,
                                           hi: nat)
    requires Ordered(from, calls) && w.requests <= p.limit && w.started <= from
    requires x <= from || x <= w.started + p.period
    requires hi <= x + j * p.period
    ensures p.Granted(w, calls, lo, hi) <= p.limit - w.requests + j * p.limit
    decreases |calls|
  {
    Split(j, p.limit);
    if calls != [] {
      var c := calls[0];
      var w' := p.Try(w, c).0;
      if c.poisoned || Elapsed(w.started, c.first) < p.period {
        GrantedFromHere(p, w', calls[1..], c.second, x, j, lo, hi);
      } else if j == 0 {
        NothingAfterInterval(p, w, calls, c.first, lo, hi);
      } else {
        Split(j, p.period);
        GrantedFromHere(p, w', calls[1..], c.second, c.second + p.period, j - 1, lo, hi);
      }
    }
  }

  lemma Split(j: nat, n: nat)
    ensures j > 0 ==> j * n == n + (j - 1) * n
    ensures j * n >= 0
  {
  }

  /** Over any run and any stretch of k periods, at most k + 1 windows' worth of calls is granted. */
  lemma {:induction false} RateOverPeriods(p: Policy, w: Window, calls: seq<Call>, from: nat, t: nat, k: nat)
    requires Ordered(from, calls) && w.requests <= p.limit && w.started <= from
    ensures p.Granted(w, calls, t, t + k * p.period) <= (k + 1) * p.limit
    decreases |calls|
  {
    var hi := t + k * p.period;
    Split(k + 1, p.limit);
    Split(k, p.period);
    Split(k, p.limit);
    if calls != [] {
      var c := calls[0];
      var w' := p.Try(w, c).0;
      if c.at < t {
        RateOverPeriods(p, w', calls[1..], c.second, t, k);
      } else if c.poisoned || Elapsed(w.started, c.first) < p.period {
        GrantedFromHere(p, w', calls[1..], c.second, t, k, t, hi);
      } else if k == 0 {
        GrantedFromHere(p, w', calls[1..], c.second, t, 0, t, hi);
      } else {
        GrantedFromHere(p, w', calls[1..], c.second, c.second + p.period, k - 1, t, hi);
      }
    }
  }

  // ----- The bound is attained -----

  function Burst(n: nat, time: nat): seq<Call> {
    if n == 0 then [] else [Call(false, time, time, time)] + Burst(n - 1, time)
  }

  /** A full burst at every multiple of the period, from the j-th to the k-th. */
  function Bursts(p: Policy, j: nat, k: nat): seq<Call>
    decreases k + 1 - j
  {
    if j > k then [] else Burst(p.limit, j * p.period) + Bursts(p, j + 1, k)
  }

  lemma {:induction false} BurstIsGranted(p: Policy, w: Window, n: nat, time: nat, rest: seq<Call>, lo: nat, hi: nat)
    requires w.started <= time < w.started + p.period && w.requests + n <= p.limit && lo <= time < hi
    ensures var w' := Window(w.started, w.requests + n);
            p.Granted(w, Burst(n, time) + rest, lo, hi) == n + p.Granted(w', rest, lo, hi)
    decreases n
  {
    hide Ordered;
    if n == 0 {
      assert [] + rest == rest;
    } else {
      var calls := Burst(n, time) + rest;
      assert calls[0] == Call(false, time, time, time) && calls[1..] == Burst(n - 1, time) + rest;
      var w1 := Window(w.started, w.requests + 1);
      assert p.Try(w, calls[0]) == (w1, true);
      hide Policy.Try, Burst;
      BurstIsGranted(p, w1, n - 1, time, rest, lo, hi);
      assert p.Granted(w, calls, lo, hi) == 1 + p.Granted(w1, calls[1..], lo, hi);
    }
  }

  lemma {:induction false} BurstIsOrdered(n: nat, time: nat, rest: seq<Call>)
    requires Ordered(time, rest)
    ensures Ordered(time, Burst(n, time) + rest)
  {
    if n == 0 {
      assert [] + rest == rest;
    } else {
      var calls := Burst(n, time) + rest;
      assert calls[0] == Call(false, time, time, time) && calls[1..] == Burst(n - 1, time) + rest;
      BurstIsOrdered(n - 1, time, rest);
    }
  }

  lemma {:induction false} BurstsAreGranted(p: Policy, w: Window, j: nat, k: nat, lo: nat, hi: nat)
    requires p.limit > 0 && p.period > 0 && 1 <= j <= k + 1
    requires w.started + p.period <= j * p.period && lo <= j * p.period && k * p.period < hi
    ensures p.Granted(w, Bursts(p, j, k), lo, hi) == (k + 1 - j) * p.limit
    ensures Ordered((j - 1) * p.period, Bursts(p, j, k))
    decreases k + 1 - j
  {
    hide Policy.Granted, Ordered, Burst;
    Split(k + 1 - j, p.limit);
    if j <= k {
      Split(j + 1, p.period);
      Split(j, p.period);
      Ascending(j, k, p.period);
      var time, rest := j * p.period, Bursts(p, j + 1, k);
      BurstsAreGranted(p, Window(time, p.limit), j + 1, k, lo, hi);
      BurstIsGranted(p, Window(time, 0), p.limit, time, rest, lo, hi);
      FirstCallOpensWindow(p, w, time, rest, lo, hi);
      BurstIsOrdered(p.limit, time, rest);
      OrderedSooner((j - 1) * p.period, time, Burst(p.limit, time) + rest);
    } else {
      NoCalls(p, w, (j - 1) * p.period, lo, hi);
    }
  }

  lemma Ascending(j: nat, k: nat, n: nat)
    requires j <= k
    ensures j * n <= k * n
  {
    assert k * n == j * n + (k - j) * n;
    Split(k - j, n);
  }

  lemma NoCalls(p: Policy, w: Window, from: nat, lo: nat, hi: nat)
    ensures p.Granted(w, [], lo, hi) == 0 && Ordered(from, [])
  {
  }

  lemma OrderedSooner(sooner: nat, from: nat, calls: seq<Call>)
    requires sooner <= from && Ordered(from, calls)
    ensures Ordered(sooner, calls)
  {
  }

  lemma FirstCallOpensWindow(p: Policy, w: Window, time: nat, rest: seq<Call>, lo: nat, hi: nat)
    requires p.limit > 0 && p.period > 0 && w.started + p.period <= time
    ensures p.Granted(w, Burst(p.limit, time) + rest, lo, hi)
            == p.Granted(Window(time, 0), Burst(p.limit, time) + rest, lo, hi)
  {
    assert (Burst(p.limit, time) + rest)[0] == Call(false, time, time, time);
  }

  /** No smaller bound holds: a burst just before the first window ends, then one at every period. */
  lemma RateBoundIsAttained(p: Policy, k: nat)
    requires p.limit > 0 && p.period >= 2 && k >= 1
    ensures var calls := Burst(p.limit, p.period - 1) + Bursts(p, 1, k);
            && Ordered(0, calls)
            && p.Granted(Window(0, 0), calls, p.period - 1, p.period - 1 + k * p.period) == (k + 1) * p.limit
  {
    var time, hi, rest := p.period - 1, p.period - 1 + k * p.period, Bursts(p, 1, k);
    Split(k + 1, p.limit);
    BurstsAreGranted(p, Window(0, p.limit), 1, k, time, hi);
    Split(k, p.period);
    assert rest[0] == Call(false, p.period, p.period, p.period);
    BurstIsGranted(p, Window(0, 0), p.limit, time, rest, time, hi);
    BurstIsOrdered(p.limit, time, rest);
    OrderedFromStart(time, Burst(p.limit, time) + rest);
  }

  lemma OrderedFromStart(from: nat, calls: seq<Call>)
    requires Ordered(from, calls)
    ensures Ordered(0, calls)
  {
  }

  // ----- Denials are justified -----

  /** The limiter. `grants` records the second clock reading of every granted call. */
  class FixedWindowLimiter {
    const limit: nat
    const period: nat
    var started: nat
    var requests: nat
    ghost var grants: seq<nat>

    ghost function Rules(): Policy {
      Policy(limit, period)
    }

    ghost function State(): Window
      reads this
    {
      Window(started, requests)
    }

    /** The open window counts exactly the grants made since it started. */
    ghost predicate Valid()
      reads this
    {
      && requests <= limit && requests <= |grants|
      && (forall i :: |grants| - requests <= i < |grants| ==> started <= grants[i])
    }

    constructor (limit: nat, period: nat, now: nat)
      ensures Valid() && Rules() == Policy(limit, period) && State() == Window(now, 0) && grants == []
    {
      this.limit, this.period := limit, period;
      started, requests, grants := now, 0, [];
    }

    /** Grants or denies one call; a denial under a healthy lock means `limit` calls were granted less
        than a period before. */
    method TryAcquire(c: Call) returns (granted: bool)
      requires Valid() && started <= c.first <= c.second
      requires forall i :: 0 <= i < |grants| ==> grants[i] <= c.first
      modifies this
      ensures Valid() && (State(), granted) == Rules().Try(old(State()), c)
      ensures grants == old(grants) + if granted then [c.second] else []
      ensures !granted && !c.poisoned ==>
                && limit <= |grants|
                && (forall i :: |grants| - limit <= i < |grants| ==> grants[i] <= c.first < grants[i] + period)
    {
      if c.poisoned {
        return false;
      }
      if Elapsed(started, c.first) >= period {
        started := c.second;
        requests := 0;
      }
      if requests >= limit {
        return false;
      }
      requests := requests + 1;
      grants := grants + [c.second];
      granted := true;
    }
  }
}
