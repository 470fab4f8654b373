/** From the store to the digests, over whole runs: what all digests list adds up to what is unresolved. */
module Totals {
  import opened Core
  import opened Stores
  import opened Reconcile
  import opened Meaning
  import opened Sorting
  import opened Dispatch
  import opened DispatchRuns
  import opened Bridge
  import opened Windows
  import Dropped
  import Runs

  /** Every scan's result is enqueued, and then flushed before the next scan. */
  ghost function SpacedRun(c: Config, run: seq<Runs.Step>, at: nat -> nat -> Time, flushAt: nat -> Time): State {
    if run == [] then INITIAL
    else
      var n := |run| - 1;
      AfterFlush(EnqueueAll(c, SpacedRun(c, run[..n], at, flushAt), StepEvents(run[n]), at(n)), flushAt(n))
  }

  ghost predicate AllSevere(c: Config, run: seq<Runs.Step>) {
    forall s, e :: s in run && e in StepEvents(s) ==> SevereEnough(c, e)
  }

  // ---- counting events ----

  function KindCount(events: seq<Event>, kind: string): nat {
    |FindingsOf(events, kind)|
  }

  lemma {:induction false} KindCountConcat(a: seq<Event>, b: seq<Event>, kind: string)
    ensures KindCount(a + b, kind) == KindCount(a, kind) + KindCount(b, kind)
  {
    if b == [] {
      assert a + b == a;
    } else {
      var n := |b| - 1;
      KindCountConcat(a, b[..n], kind);
      assert (a + b)[..|a + b| - 1] == a + b[..n];
    }
  }

  lemma {:induction false} KindCountFor(m: string, kind: string, fs: seq<Finding>, kind': string)
    ensures KindCount(EventsFor(m, kind, fs), kind') == if kind == kind' then |fs| else 0
  {
    if fs != [] {
      var n := |fs| - 1;
      KindCountFor(m, kind, fs[..n], kind');
      assert EventsFor(m, kind, fs)[..n] == EventsFor(m, kind, fs[..n]);
    }
  }

  lemma StepCounts(s: Runs.Step)
    ensures var done := if s.Scan? && Runs.Complete(s) then Runs.FullPlan(s) else [];
      && KindCount(StepEvents(s), KIND_OPENED) == Runs.Count(done, Opened)
      && KindCount(StepEvents(s), KIND_RESOLVED) == Runs.Count(done, Closed)
  {
    hide Plan, EventsFor, KindCount, Runs.Complete;
    assert |KIND_OPENED| != |KIND_RESOLVED|;
    NoEventsCount();
    NoWrites(Memory, map[]);
    if s.Scan? && Runs.Complete(s) {
      var opening, closing := Announced(Runs.FullPlan(s), Opened), Announced(Runs.FullPlan(s), Closed);
      forall kind ensures KindCount(StepEvents(s), kind) ==
        KindCount(EventsFor(s.m.id, KIND_OPENED, opening), kind)
          + KindCount(EventsFor(s.m.id, KIND_RESOLVED, closing), kind)
      {
        KindCountConcat(EventsFor(s.m.id, KIND_OPENED, opening), EventsFor(s.m.id, KIND_RESOLVED, closing), kind);
      }
      KindCountFor(s.m.id, KIND_OPENED, opening, KIND_OPENED);
      KindCountFor(s.m.id, KIND_OPENED, opening, KIND_RESOLVED);
      KindCountFor(s.m.id, KIND_RESOLVED, closing, KIND_OPENED);
      KindCountFor(s.m.id, KIND_RESOLVED, closing, KIND_RESOLVED);
    }
  }

  lemma NoEventsCount()
    ensures forall kind :: KindCount([], kind) == 0
  {
  }

  lemma StepEventsDistinct(owner: Owner, thresholds: string -> int, rows: Table, s: Runs.Step)
    requires Runs.StepOk(owner, thresholds, rows, s) && Owned(owner, rows)
    ensures DistinctKeys(StepEvents(s))
  {
    hide Plan, EventsFor, EventKey, Runs.Complete, IsListing, CollectorOk, Owned;
    if s.Scan? && Runs.Complete(s) {
      var plan := Runs.FullPlan(s);
      var res := ReconcileResult(Announced(plan, Opened), Announced(plan, Closed), []);
      ScanEventsDistinct(owner, rows, s.m, s.target, s.now, s.existing, s.reports, s.ids, res);
      assert StepEvents(s) == ResultEvents(s.m.id, res);
    }
  }

  lemma {:induction false} AllPass(c: Config, events: seq<Event>)
    requires forall e :: e in events ==> SevereEnough(c, e)
    ensures Passing(c, events) == events
  {
    hide SevereEnough;
    if events != [] {
      AllPass(c, events[..|events| - 1]);
      assert events[|events| - 1] in events;
    }
  }

  /** With a flush after every scan, every event of every completed scan ends up in a batch. */
  lemma {:induction false} SpacedCounts(owner: Owner, thresholds: string -> int, c: Config, run: seq<Runs.Step>,
                                        at: nat -> nat -> Time, flushAt: nat -> Time)
    requires Runs.RunOk(owner, thresholds, run) && AllSevere(c, run)
    ensures var s := SpacedRun(c, run, at, flushAt);
      && !s.closed && s.window == []
      && KindCount(EventsOf(s.flushed), KIND_OPENED) == Runs.Count(Runs.Delivered(run, true), Opened)
      && KindCount(EventsOf(s.flushed), KIND_RESOLVED) == Runs.Count(Runs.Delivered(run, true), Closed)
  {
    hide Announced, KindCount, StepEvents, EnqueueAll, Runs.StepOk, Runs.After, Runs.Complete, Runs.Executed,
      SevereEnough, EventsOf, DistinctKeys, EventKey, Passing, AfterFlush;
    NoEventsCount();
    NoWrites(Memory, map[]);
    NoBatches();
    if run != [] {
      var n := |run| - 1;
      var init, last := run[..n], run[n];
      SpacedCounts(owner, thresholds, c, init, at, flushAt);
      var s := SpacedRun(c, init, at, flushAt);
      Runs.StateOwned(owner, thresholds, init);
      StepEventsDistinct(owner, thresholds, Runs.State(Memory, init), last);
      assert last in run;
      AllPass(c, StepEvents(last));
      DistinctEventsAreAccepted(c, s, StepEvents(last), at(n));
      SpacedStep(c, s, StepEvents(last), at(n), flushAt(n));
      DeliveredStep(run);
      StepCounts(last);
      forall kind ensures KindCount(EventsOf(s.flushed) + StepEvents(last), kind)
        == KindCount(EventsOf(s.flushed), kind) + KindCount(StepEvents(last), kind)
      {
        KindCountConcat(EventsOf(s.flushed), StepEvents(last), kind);
      }
    }
  }

  lemma NoBatches()
    ensures EventsOf([]) == []
  {
  }

  lemma SpacedStep(c: Config, s: State, events: seq<Event>, at: nat -> Time, flushAt: Time)
    requires !s.closed && s.window == []
    requires AllEvents(EnqueueAll(c, s, events, at)) == AllEvents(s) + events
    ensures var t := AfterFlush(EnqueueAll(c, s, events, at), flushAt);
      !t.closed && t.window == [] && EventsOf(t.flushed) == EventsOf(s.flushed) + events
  {
    hide EnqueueAll, EventsOf;
    WindowMeanwhile(c, s, events, at);
    FlushMovesWindow(EnqueueAll(c, s, events, at), flushAt);
    var t := AfterFlush(EnqueueAll(c, s, events, at), flushAt);
    assert EventsOf(t.flushed) + [] == EventsOf(t.flushed) && EventsOf(s.flushed) + [] == EventsOf(s.flushed);
  }

  lemma DeliveredStep(run: seq<Runs.Step>)
    requires run != [] && Runs.Cut(run)
    ensures var n := |run| - 1; var last := run[n];
      var done := if last.Scan? && Runs.Complete(last) then Runs.FullPlan(last) else [];
      && Runs.Count(Runs.Delivered(run, true), Opened) == Runs.Count(Runs.Delivered(run[..n], true), Opened)
        + Runs.Count(done, Opened)
      && Runs.Count(Runs.Delivered(run, true), Closed) == Runs.Count(Runs.Delivered(run[..n], true), Closed)
        + Runs.Count(done, Closed)
  {
    hide Plan, Announced;
    var n := |run| - 1;
    var last := run[n];
    var done := if last.Scan? && Runs.Complete(last) then Runs.FullPlan(last) else [];
    assert last in run;
    AnnouncedConcat(Runs.Delivered(run[..n], true), done, Opened);
    AnnouncedConcat(Runs.Delivered(run[..n], true), done, Closed);
    assert Runs.Delivered(run, true) == Runs.Delivered(run[..n], true) + done;
  }

  // ---- what the digests list ----

  function ListOf(dg: Digest, kind: string): seq<Finding> {
    if kind == KIND_OPENED then dg.opening else if kind == KIND_RESOLVED then dg.resolved else []
  }

  /** How many findings the digests of some modules list, and those of all batches. */
  ghost function ListedBy(b: Batch, ms: set<string>, kind: string): nat {
    if ms == {} then 0
    else
      var m :| m in ms;
      |ListOf(DigestOf(m, OfModule(b.events, m), b.at), kind)| + ListedBy(b, ms - {m}, kind)
  }

  ghost function ListedInAll(batches: seq<Batch>, kind: string): nat {
    if batches == [] then 0
    else
      var b := batches[|batches| - 1];
      ListedInAll(batches[..|batches| - 1], kind) + ListedBy(b, Modules(b.events), kind)
  }

  function CountIn(events: seq<Event>, ms: set<string>, kind: string): nat {
    if events == [] then 0
    else
      var e := events[|events| - 1];
      CountIn(events[..|events| - 1], ms, kind) + if e.moduleId in ms && e.kind == kind then 1 else 0
  }

  lemma {:induction false} CountInGrows(events: seq<Event>, ms: set<string>, m: string, kind: string)
    requires m !in ms
    ensures CountIn(events, ms + {m}, kind) == CountIn(events, ms, kind) + |Matching(events, m, kind)|
  {
    hide Matching;
    if events == [] {
      NothingMatches([], m, kind);
    } else {
      CountInGrows(events[..|events| - 1], ms, m, kind);
      MatchingGrows(events, m, kind);
    }
  }

  lemma {:induction false} CountInAll(events: seq<Event>, ms: set<string>, kind: string)
    requires Modules(events) <= ms
    ensures CountIn(events, ms, kind) == KindCount(events, kind)
  {
    if events != [] {
      CountInAll(events[..|events| - 1], ms, kind);
    }
  }

  lemma {:induction false} CountInNone(events: seq<Event>, kind: string)
    ensures CountIn(events, {}, kind) == 0
  {
    if events != [] {
      CountInNone(events[..|events| - 1], kind);
    }
  }

  lemma DigestSize(b: Batch, m: string, kind: string)
    requires kind == KIND_OPENED || kind == KIND_RESOLVED
    ensures |ListOf(DigestOf(m, OfModule(b.events, m), b.at), kind)| == |Matching(b.events, m, kind)|
  {
    hide WorstFirst, OfModule, FindingsOf;
    assert |KIND_OPENED| != |KIND_RESOLVED|;
    var opening := FindingsOf(OfModule(b.events, m), KIND_OPENED);
    WorstFirstIsStableSort(opening);
    assert |multiset(WorstFirst(opening))| == |multiset(opening)|;
  }

  lemma {:induction false} ListedByCounts(b: Batch, ms: set<string>, kind: string)
    requires kind == KIND_OPENED || kind == KIND_RESOLVED
    ensures ListedBy(b, ms, kind) == CountIn(b.events, ms, kind)
  {
    hide DigestOf, Matching, ListOf, CountIn;
    if ms == {} {
      CountInNone(b.events, kind);
    } else {
      var m :| m in ms && ListedBy(b, ms, kind)
        == |ListOf(DigestOf(m, OfModule(b.events, m), b.at), kind)| + ListedBy(b, ms - {m}, kind);
      ListedByCounts(b, ms - {m}, kind);
      CountInGrows(b.events, ms - {m}, m, kind);
      assert ms - {m} + {m} == ms;
      DigestSize(b, m, kind);
    }
  }

  lemma {:induction false} ListedInAllCounts(batches: seq<Batch>, kind: string)
    requires kind == KIND_OPENED || kind == KIND_RESOLVED
    ensures ListedInAll(batches, kind) == KindCount(EventsOf(batches), kind)
  {
    hide ListedBy, KindCount, CountIn, Modules;
    NoEventsCount();
    if batches != [] {
      var b := batches[|batches| - 1];
      ListedInAllCounts(batches[..|batches| - 1], kind);
      ListedByCounts(b, Modules(b.events), kind);
      CountInAll(b.events, Modules(b.events), kind);
      KindCountConcat(EventsOf(batches[..|batches| - 1]), b.events, kind);
    }
  }

  /** Engine, dispatcher and digests together: with a flush after every scan, no finding below the minimum severity and
      nothing dropped by failed scans, over every run the openings listed in all digests minus the closures listed are
      the number of unresolved records. */
  lemma DigestsAddUp(owner: Owner, thresholds: string -> int, c: Config, run: seq<Runs.Step>,
                     at: nat -> nat -> Time, flushAt: nat -> Time)
    requires Runs.RunOk(owner, thresholds, run) && AllSevere(c, run) && forall k :: Dropped.NothingDropped(run, k)
    ensures var flushed := SpacedRun(c, run, at, flushAt).flushed;
      ListedInAll(flushed, KIND_OPENED) - ListedInAll(flushed, KIND_RESOLVED) == |Runs.OpenSet(Runs.State(Memory, run))|
  {
    hide SpacedRun, ListedInAll, KindCount, EventsOf, Runs.RunOk, Runs.State, Runs.OpenSet, Runs.Count, Runs.Delivered,
      AllSevere, Dropped.NothingDropped;
    SpacedCounts(owner, thresholds, c, run, at, flushAt);
    Dropped.HeardConserves(owner, thresholds, run);
    var flushed := SpacedRun(c, run, at, flushAt).flushed;
    ListedInAllCounts(flushed, KIND_OPENED);
    ListedInAllCounts(flushed, KIND_RESOLVED);
  }
}
