/** What Close waits for: deliveries run concurrently, and Close returns when none is in flight. */
module Closing {
  import opened Core
  import opened Dispatch
  import opened DispatchRuns

  /** The dispatcher, the deliveries whose retry loop has ended, and whether a Close has returned. */
  datatype Life = Life(state: State, finished: multiset<Send>, returned: bool)

  datatype Step = Do(op: Op) | Finish(send: Send) | CloseReturns

  const BORN := Life(INITIAL, multiset{}, false)

  /** Each flush adds its deliveries to the wait group, and the end of a retry loop takes one off. */
  ghost predicate InFlight(channels: nat, l: Life, s: Send) {
    l.finished[s] < DueCount(channels, l.state.flushed, s)
  }

  ghost predicate Enabled(channels: nat, l: Life, step: Step) {
    match step
    case Do(_) => true
    case Finish(s) => InFlight(channels, l, s)
    case CloseReturns => l.state.closed && forall s: Send :: !InFlight(channels, l, s)
  }

  ghost function Next(c: Config, l: Life, step: Step): Life {
    match step
    case Do(op) => l.(state := After(c, l.state, op))
    case Finish(s) => l.(finished := l.finished + multiset{s})
    case CloseReturns => l.(returned := true)
  }

  ghost predicate IsRun(c: Config, channels: nat, steps: seq<Step>, trace: seq<Life>) {
    && |trace| == |steps| + 1
    && trace[0] == BORN
    && forall i :: 0 <= i < |steps| ==>
         Enabled(channels, trace[i], steps[i]) && trace[i + 1] == Next(c, trace[i], steps[i])
  }

  ghost predicate LifeInv(c: Config, channels: nat, l: Life) {
    && Inv(c, l.state)
    && (forall s: Send :: l.finished[s] <= DueCount(channels, l.state.flushed, s))
    && (l.returned ==> l.state.closed && forall s: Send :: l.finished[s] == DueCount(channels, l.state.flushed, s))
  }

  lemma DueOnlyGrows(c: Config, channels: nat, s: State, op: Op, send: Send)
    ensures DueCount(channels, s.flushed, send) <= DueCount(channels, After(c, s, op).flushed, send)
    ensures s.closed && s.window == [] ==> After(c, s, op).flushed == s.flushed && After(c, s, op).closed
  {
    hide IsDigestOf;
    var t := After(c, s, op);
    if t.flushed != s.flushed {
      assert t.flushed[..|t.flushed| - 1] == s.flushed;
    }
  }

  lemma NextKeepsLifeInv(c: Config, channels: nat, l: Life, step: Step)
    requires c.maxBatch > 0 && LifeInv(c, channels, l) && Enabled(channels, l, step)
    ensures LifeInv(c, channels, Next(c, l, step))
    ensures l.returned ==> Next(c, l, step).returned && Next(c, l, step).state.flushed == l.state.flushed
  {
    hide DueCount, After;
    match step
    case Do(op) =>
      AfterKeepsInv(c, l.state, op);
      forall s: Send
        ensures DueCount(channels, l.state.flushed, s) <= DueCount(channels, After(c, l.state, op).flushed, s)
      {
        DueOnlyGrows(c, channels, l.state, op, s);
      }
      DueOnlyGrows(c, channels, l.state, op, Send(0, Digest("", [], [], 0)));
    case Finish(s) =>
    case CloseReturns =>
      forall s: Send ensures l.finished[s] == DueCount(channels, l.state.flushed, s) {
        assert !InFlight(channels, l, s);
      }
  }

  lemma {:induction false} AlwaysLifeInv(c: Config, channels: nat, steps: seq<Step>, trace: seq<Life>, i: nat)
    requires c.maxBatch > 0 && IsRun(c, channels, steps, trace) && i <= |steps|
    ensures LifeInv(c, channels, trace[i])
  {
    hide Enabled, Next, LifeInv;
    if i == 0 {
      BornInv(c, channels);
    } else {
      AlwaysLifeInv(c, channels, steps, trace, i - 1);
      assert Enabled(channels, trace[i - 1], steps[i - 1]) && trace[i - 1 + 1] == Next(c, trace[i - 1], steps[i - 1]);
      NextKeepsLifeInv(c, channels, trace[i - 1], steps[i - 1]);
    }
  }

  lemma BornInv(c: Config, channels: nat)
    requires c.maxBatch > 0
    ensures LifeInv(c, channels, BORN)
  {
  }

  /** However events, flushes and the ends of deliveries interleave: once a Close has returned, every delivery that was
      ever due has run to its end, exactly as often as it was due, and none starts any more. */
  lemma {:induction false} CloseWaits(c: Config, channels: nat, steps: seq<Step>, trace: seq<Life>, i: nat, j: nat)
    requires c.maxBatch > 0 && IsRun(c, channels, steps, trace) && i <= j <= |steps| && trace[i].returned
    ensures trace[j].returned && trace[j].state.flushed == trace[i].state.flushed
    ensures forall s: Send :: trace[j].finished[s] == DueCount(channels, trace[j].state.flushed, s)
    decreases j - i
  {
    hide Enabled, Next, DueCount;
    AlwaysLifeInv(c, channels, steps, trace, j);
    if i < j {
      CloseWaits(c, channels, steps, trace, i, j - 1);
      AlwaysLifeInv(c, channels, steps, trace, j - 1);
      assert Enabled(channels, trace[j - 1], steps[j - 1]) && trace[j - 1 + 1] == Next(c, trace[j - 1], steps[j - 1]);
      NextKeepsLifeInv(c, channels, trace[j - 1], steps[j - 1]);
    }
  }
}
