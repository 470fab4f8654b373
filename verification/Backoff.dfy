/** Per-target backoff: capped doubling, the gate of a module loop's sweep, and what they mean for a dead host. */
module Backoff {
  import opened Core

  const TWO_62: int := 0x4000_0000_0000_0000
  const TWO_63: int := 0x8000_0000_0000_0000

  /** A duration is a signed 64-bit number of nanoseconds; arithmetic on it wraps around. */
  type Duration = x: int | -TWO_63 <= x < TWO_63

  function Wrap(x: int): Duration {
    (x + TWO_63) % (2 * TWO_63) - TWO_63
  }

  function Min(a: int, b: int): int {
    if a < b then a else b
  }

  /** `d` doubled `n` times, without any bound. */
  function Scaled(d: int, n: nat): int {
    if n == 0 then d else 2 * Scaled(d, n - 1)
  }

  function Power2(n: nat): nat {
    if n == 0 then 1 else 2 * Power2(n - 1)
  }

  lemma {:induction false} ScaledIsProduct(d: int, n: nat)
    ensures Scaled(d, n) == d * Power2(n)
  {
    if n > 0 {
      ScaledIsProduct(d, n - 1);
    }
  }

  lemma {:induction false} ScaledFromFront(d: int, n: nat)
    ensures Scaled(d * 2, n) == Scaled(d, n + 1)
  {
    if n > 0 {
      ScaledFromFront(d, n - 1);
    }
  }

  lemma {:induction false} ScaledGrows(d: nat, i: nat, j: nat)
    requires i <= j
    ensures 0 <= Scaled(d, i) <= Scaled(d, j)
    decreases j
  {
    if i < j {
      ScaledGrows(d, i, j - 1);
    } else if i > 0 {
      ScaledGrows(d, i - 1, i - 1);
    }
  }

  /** `doublings` rounds of the loop from `d`, and the cap after it. */
  function Doubled(d: Duration, max: Duration, doublings: nat): Duration
    decreases doublings
  {
    if doublings == 0 then (if d > max then max else d)
    else
      var twice := Wrap(d * 2);
      if twice >= max then max else Doubled(twice, max, doublings - 1)
  }

  function Rounds(consecutive: int): nat {
    if consecutive <= 1 then 0 else consecutive - 1
  }

  method BackoffFor(base: Duration, max: Duration, consecutive: int) returns (d: Duration)
    ensures d == Doubled(base, max, Rounds(consecutive))
  {
    d := base;
    var i := 1;
    while i < consecutive
      invariant 1 <= i && (i <= consecutive || consecutive <= 1)
      invariant Doubled(base, max, Rounds(consecutive)) == Doubled(d, max, Rounds(consecutive - i + 1))
    {
      d := Wrap(d * 2);
      if d >= max {
        return max;
      }
      i := i + 1;
    }
    if d > max {
      d := max;
    }
  }

  /** No doubling leaves the 64-bit range before the cap is reached. */
  ghost predicate NeverOverflows(base: Duration, max: Duration) {
    forall j: nat :: Scaled(base, j) < TWO_62 || (j > 0 && Scaled(base, j) >= max)
  }

  lemma SmallDoesNotWrap(x: int)
    requires -TWO_63 <= x < TWO_63
    ensures Wrap(x) == x
  {
  }

  lemma {:induction false} DoubledIsCapped(d: Duration, max: Duration, k: nat)
    requires d > 0 && max > 0
    requires forall j: nat :: j < k ==> Scaled(d, j) < TWO_62 || (j > 0 && Scaled(d, j) >= max)
    ensures Doubled(d, max, k) == Min(Scaled(d, k), max)
    decreases k
  {
    hide Wrap;
    if k > 0 {
      assert Scaled(d, 0) < TWO_62;
      SmallDoesNotWrap(d * 2);
      ScaledFromFront(d, k - 1);
      if d * 2 >= max {
        ScaledGrows(d * 2, 0, k - 1);
      } else {
        forall j: nat | j < k - 1 ensures Scaled(d * 2, j) < TWO_62 || (j > 0 && Scaled(d * 2, j) >= max) {
          ScaledFromFront(d, j);
          assert Scaled(d, j + 1) < TWO_62 || Scaled(d, j + 1) >= max;
        }
        DoubledIsCapped(d * 2, max, k - 1);
      }
    }
  }

  /** Until it overflows or reaches the cap, the loop just doubles. */
  lemma {:induction false} DoubledUncapped(d: Duration, max: Duration, j: nat, k: nat)
    requires d > 0 && j <= k
    requires forall i: nat :: i < j ==> Scaled(d, i) < TWO_62
    requires forall i: nat :: 0 < i <= j ==> Scaled(d, i) < max
    ensures 0 < Scaled(d, j) < TWO_63
    ensures Doubled(d, max, k) == Doubled(Scaled(d, j), max, k - j)
    decreases j
  {
    hide Wrap;
    if j > 0 {
      assert Scaled(d, 0) < TWO_62;
      assert Scaled(d, 1) < max;
      SmallDoesNotWrap(d * 2);
      forall i: nat | i < j - 1 ensures Scaled(d * 2, i) < TWO_62 {
        ScaledFromFront(d, i);
      }
      forall i: nat | 0 < i <= j - 1 ensures Scaled(d * 2, i) < max {
        ScaledFromFront(d, i);
      }
      DoubledUncapped(d * 2, max, j - 1, k - 1);
      ScaledFromFront(d, j - 1);
    }
  }

  /** The first doubling at or above 2^62, if one of those below the cap is. */
  lemma {:induction false} FirstUnsafe(base: Duration, max: Duration, j: nat) returns (i: nat)
    requires base > 0
    requires Scaled(base, j) >= TWO_62 && (j == 0 || Scaled(base, j) < max)
    ensures Scaled(base, i) >= TWO_62 && (forall h: nat :: h < i ==> Scaled(base, h) < TWO_62)
    ensures forall h: nat :: 0 < h <= i ==> Scaled(base, h) < max
  {
    if h: nat :| h < j && Scaled(base, h) >= TWO_62 {
      ScaledGrows(base, h, j);
      i := FirstUnsafe(base, max, h);
    } else {
      i := j;
      forall h: nat | 0 < h <= j ensures Scaled(base, h) < max {
        ScaledGrows(base, h, j);
      }
    }
  }

  /** For every count of failures the delay is RetryBase doubled per failure and capped at RetryMax, exactly when
      no doubling can overflow before the cap. */
  lemma BackoffClosedFormExactly(base: Duration, max: Duration)
    requires base > 0 && max > 0
    ensures (forall n: nat :: Doubled(base, max, n) == Min(base * Power2(n), max)) <==> NeverOverflows(base, max)
  {
    hide Doubled;
    if NeverOverflows(base, max) {
      forall n: nat ensures Doubled(base, max, n) == Min(base * Power2(n), max) {
        DoubledIsCapped(base, max, n);
        ScaledIsProduct(base, n);
      }
    } else {
      var j: nat :| !(Scaled(base, j) < TWO_62 || (j > 0 && Scaled(base, j) >= max));
      var i := FirstUnsafe(base, max, j);
      DoubledUncapped(base, max, i, i + 1);
      OverflowIsNegative(Scaled(base, i), max);
      ScaledIsProduct(base, i + 1);
      ScaledGrows(base, i, i + 1);
      assert Doubled(base, max, i + 1) != Min(base * Power2(i + 1), max);
    }
  }

  lemma OverflowIsNegative(d: Duration, max: Duration)
    requires d >= TWO_62 && max > 0
    ensures Doubled(d, max, 1) < 0
  {
  }

  /** In particular below 2^62 nanoseconds, 146 years; and then more failures never mean a shorter delay. */
  lemma BackoffClosedForm(base: Duration, max: Duration, n: nat)
    requires 0 < base < TWO_62 && 0 < max < TWO_62 && n >= 1
    ensures NeverOverflows(base, max)
    ensures Doubled(base, max, Rounds(n)) == Min(base * Power2(n - 1), max)
    ensures Doubled(base, max, Rounds(n)) <= Doubled(base, max, Rounds(n + 1))
  {
    hide Doubled;
    assert NeverOverflows(base, max);
    DoubledIsCapped(base, max, n - 1);
    DoubledIsCapped(base, max, n);
    ScaledIsProduct(base, n - 1);
    ScaledGrows(base, n - 1, n);
  }

  // ---- the gate ----

  /** How a scan launched by a sweep ended: without error, with an error, or cancelled. */
  datatype Outcome = Succeeded | Failed | Cancelled

  datatype Completion = Completion(target: string, at: Time, outcome: Outcome)

  /** Length of the trailing block of failed completions of the target. */
  function TrailingFailures(trace: seq<Completion>, t: string): nat {
    if trace == [] then 0
    else
      var last := trace[|trace| - 1];
      if last.target != t then TrailingFailures(trace[..|trace| - 1], t)
      else if last.outcome == Failed then TrailingFailures(trace[..|trace| - 1], t) + 1
      else 0
  }

  function OfTarget(trace: seq<Completion>, t: string): seq<Completion> {
    if trace == [] then []
    else
      var n := |trace| - 1;
      OfTarget(trace[..n], t) + if trace[n].target == t then [trace[n]] else []
  }

  /** The failure count is the length of the longest run of failed completions that the target's completions end in;
      a success and a cancellation end such a run alike. */
  lemma {:induction false} TrailingExactly(trace: seq<Completion>, t: string)
    ensures var cs, n := OfTarget(trace, t), TrailingFailures(trace, t);
      && n <= |cs|
      && (forall i :: |cs| - n <= i < |cs| ==> cs[i].outcome == Failed)
      && (n < |cs| ==> cs[|cs| - n - 1].outcome == Succeeded || cs[|cs| - n - 1].outcome == Cancelled)
  {
    if trace != [] {
      TrailingExactly(trace[..|trace| - 1], t);
    }
  }

  datatype RetryConfig = RetryConfig(base: Duration, max: Duration)

  /** No delay overflows: both durations are positive and below 146 years. */
  predicate Sane(c: RetryConfig) {
    0 < c.base < 0x4000_0000_0000_0000 && 0 < c.max < 0x4000_0000_0000_0000
  }

  /** The `attempt`-th delay: the base doubled for every failure but the first, at most the maximum. */
  function Backoff(c: RetryConfig, attempt: nat): int
    requires attempt > 0
  {
    var doubled := c.base * Power2(attempt - 1);
    if doubled < c.max then doubled else c.max
  }

  function Delay(c: RetryConfig, failures: nat): int {
    Doubled(c.base, c.max, Rounds(failures))
  }

  /** The earliest next attempt: only after a failed completion is there one. */
  function GateOf(c: RetryConfig, trace: seq<Completion>, t: string): Option<Time> {
    if trace == [] then None
    else
      var last := trace[|trace| - 1];
      if last.target != t then GateOf(c, trace[..|trace| - 1], t)
      else if last.outcome == Failed then Some(last.at + Delay(c, TrailingFailures(trace, t)))
      else None
  }

  lemma DelayIsBackoff(c: RetryConfig, n: nat)
    requires n > 0 && Sane(c)
    ensures Delay(c, n) == Backoff(c, n)
  {
    hide Doubled, Power2;
    BackoffClosedForm(c.base, c.max, n);
  }

  /** The last completion of a target, if it has one, decides alone when the next launch is allowed. */
  ghost predicate IsLast(trace: seq<Completion>, t: string, i: nat) {
    i < |trace| && trace[i].target == t && forall j :: i < j < |trace| ==> trace[j].target != t
  }

  lemma {:induction false} GateExactly(c: RetryConfig, trace: seq<Completion>, t: string, i: nat, now: Time)
    requires IsLast(trace, t, i) && Sane(c)
    ensures trace[i].outcome == Failed ==> TrailingFailures(trace, t) > 0
    ensures Admits(GateOf(c, trace, t), now) <==>
      trace[i].outcome != Failed || now >= trace[i].at + Backoff(c, TrailingFailures(trace, t))
  {
    hide Delay, Backoff;
    var n := |trace| - 1;
    if i < n {
      GateExactly(c, trace[..n], t, i, now);
    } else if trace[i].outcome == Failed {
      DelayIsBackoff(c, TrailingFailures(trace, t));
    }
  }

  lemma {:induction false} NoGate(c: RetryConfig, trace: seq<Completion>, t: string, now: Time)
    requires forall j :: 0 <= j < |trace| ==> trace[j].target != t
    ensures Admits(GateOf(c, trace, t), now)
  {
    if trace != [] {
      NoGate(c, trace[..|trace| - 1], t, now);
    }
  }

  predicate Admits(gate: Option<Time>, now: Time) {
    gate.Some? ==> gate.value <= now
  }

  /** The failure and gate maps a module loop keeps for its sweeps. */
  class Gate {
    const c: RetryConfig
    var failures: map<string, nat>
    var nextOK: map<string, Option<Time>>
    ghost var trace: seq<Completion>

    ghost predicate Valid()
      reads this
    {
      && (forall t :: TrailingFailures(trace, t) == if t in failures then failures[t] else 0)
      && (forall t :: GateOf(c, trace, t) == if t in nextOK then nextOK[t] else None)
    }

    constructor (c: RetryConfig)
      ensures Valid() && trace == [] && this.c == c
    {
      this.c := c;
      failures := map[];
      nextOK := map[];
      trace := [];
    }

    /** Whether a sweep may launch a scan of the target now. */
    method MayLaunch(t: string, now: Time) returns (launch: bool)
      requires Valid()
      ensures launch == Admits(GateOf(c, trace, t), now)
      ensures (forall j :: 0 <= j < |trace| ==> trace[j].target != t) ==> launch
      ensures Sane(c) ==> forall i: nat :: IsLast(trace, t, i) ==>
        (trace[i].outcome == Failed ==> TrailingFailures(trace, t) > 0)
        && (launch <==>
              trace[i].outcome != Failed || now >= trace[i].at + Backoff(c, TrailingFailures(trace, t)))
    {
      hide Backoff, Delay;
      if forall j :: 0 <= j < |trace| ==> trace[j].target != t {
        NoGate(c, trace, t, now);
      }
      if Sane(c) {
        forall i: nat | IsLast(trace, t, i)
          ensures trace[i].outcome == Failed ==> TrailingFailures(trace, t) > 0
          ensures Admits(GateOf(c, trace, t), now) <==>
            trace[i].outcome != Failed || now >= trace[i].at + Backoff(c, TrailingFailures(trace, t))
        {
          GateExactly(c, trace, t, i, now);
        }
      }
      var gate := if t in nextOK then nextOK[t] else None;
      launch := !(gate.Some? && now < gate.value);
    }

    /** Bookkeeping after a scan; on a failure the attempt number and delay that are reported. */
    method Complete(t: string, now: Time, outcome: Outcome) returns (attempt: nat, delay: int)
      requires Valid()
      modifies this
      ensures Valid() && trace == old(trace) + [Completion(t, now, outcome)]
      ensures outcome == Failed ==> attempt == TrailingFailures(trace, t) > 0
      ensures outcome == Failed ==> delay == Delay(c, attempt)
      ensures outcome == Failed && Sane(c) ==> delay == Backoff(c, attempt)
    {
      ghost var longer := trace + [Completion(t, now, outcome)];
      assert longer[..|trace|] == trace;
      trace := longer;
      if outcome == Failed {
        attempt := (if t in failures then failures[t] else 0) + 1;
        failures := failures[t := attempt];
        delay := BackoffFor(c.base, c.max, attempt);
        if Sane(c) {
          DelayIsBackoff(c, attempt);
        }
        nextOK := nextOK[t := Some(now + delay)];
        return;
      }
      failures := failures[t := 0];
      nextOK := nextOK[t := None];
      attempt, delay := 0, 0;
    }
  }

  // ---- a dead host over time ----

  /** What the sweeps of one module loop do, in the order of time. */
  datatype Event = Launch(target: string, at: Time) | Finish(target: string, at: Time, outcome: Outcome)

  function Completions(events: seq<Event>): seq<Completion> {
    if events == [] then []
    else
      var last := events[|events| - 1];
      Completions(events[..|events| - 1])
      + if last.Finish? then [Completion(last.target, last.at, last.outcome)] else []
  }

  function Launches(events: seq<Event>, t: string): seq<Time> {
    if events == [] then []
    else
      var last := events[|events| - 1];
      Launches(events[..|events| - 1], t) + if last.Launch? && last.target == t then [last.at] else []
  }

  function InFlight(events: seq<Event>, t: string): bool {
    events != [] &&
    (var last := events[|events| - 1];
     if last.target == t then last.Launch? else InFlight(events[..|events| - 1], t))
  }

  /** Time does not run backwards, every launch passed the gate, and the scans of `t` never overlap and always fail. */
  predicate DeadHost(c: RetryConfig, events: seq<Event>, t: string) {
    events == [] ||
    (var n := |events| - 1; var last := events[n];
     && DeadHost(c, events[..n], t)
     && (n > 0 ==> events[n - 1].at <= last.at)
     && (last.Launch? ==> Admits(GateOf(c, Completions(events[..n]), last.target), last.at))
     && (last.target == t && last.Launch? ==> !InFlight(events[..n], t))
     && (last.target == t && last.Finish? ==> InFlight(events[..n], t) && last.outcome == Failed))
  }

  /** The first `n` delays together. */
  function TotalDelay(c: RetryConfig, n: nat): int {
    if n == 0 then 0 else TotalDelay(c, n - 1) + Delay(c, n)
  }

  lemma {:induction false} DeadHostProgress(c: RetryConfig, events: seq<Event>, t: string)
    requires DeadHost(c, events, t)
    ensures var ls, cs := Launches(events, t), Completions(events);
      && |ls| == TrailingFailures(cs, t) + (if InFlight(events, t) then 1 else 0)
      && (|ls| > 0 ==> events != [] && ls[|ls| - 1] <= events[|events| - 1].at)
      && (forall n :: 0 <= n < |ls| ==> ls[n] >= ls[0] + TotalDelay(c, n))
      && (TrailingFailures(cs, t) > 0 ==>
            GateOf(c, cs, t).Some? && GateOf(c, cs, t).value >= ls[0] + TotalDelay(c, TrailingFailures(cs, t)))
  {
    hide Doubled, Rounds, Delay, GateOf, TrailingFailures;
    NothingCompleted(t);
    if events != [] {
      var n := |events| - 1;
      DeadHostProgress(c, events[..n], t);
      var last := events[n];
      var cs := Completions(events[..n]);
      if last.Finish? {
        OneMoreCompletion(c, cs, Completion(last.target, last.at, last.outcome), t);
      } else {
        assert Completions(events) == cs;
      }
    }
  }

  lemma NothingCompleted(t: string)
    ensures TrailingFailures([], t) == 0
  {
  }

  lemma OneMoreCompletion(c: RetryConfig, cs: seq<Completion>, last: Completion, t: string)
    ensures last.target != t ==>
      TrailingFailures(cs + [last], t) == TrailingFailures(cs, t) && GateOf(c, cs + [last], t) == GateOf(c, cs, t)
    ensures last.target == t && last.outcome == Failed ==>
      && TrailingFailures(cs + [last], t) == TrailingFailures(cs, t) + 1
      && GateOf(c, cs + [last], t) == Some(last.at + Delay(c, TrailingFailures(cs, t) + 1))
  {
    hide Delay;
    assert (cs + [last])[..|cs|] == cs;
  }

  /** The first `n` backoffs together. */
  function SumOfBackoffs(c: RetryConfig, n: nat): int {
    if n == 0 then 0 else SumOfBackoffs(c, n - 1) + Backoff(c, n)
  }

  lemma {:induction false} TotalDelayIsSum(c: RetryConfig, n: nat)
    requires Sane(c)
    ensures TotalDelay(c, n) == SumOfBackoffs(c, n)
  {
    hide Delay, Backoff;
    if n > 0 {
      TotalDelayIsSum(c, n - 1);
      DelayIsBackoff(c, n);
    }
  }

  /** The n-th retry of a dead host starts no earlier than the first attempt plus the first n backoffs. */
  lemma RetriesAreSpaced(c: RetryConfig, events: seq<Event>, t: string, n: nat)
    requires DeadHost(c, events, t) && n < |Launches(events, t)| && Sane(c)
    ensures Launches(events, t)[n] >= Launches(events, t)[0] + SumOfBackoffs(c, n)
  {
    DeadHostProgress(c, events, t);
    TotalDelayIsSum(c, n);
  }
}
