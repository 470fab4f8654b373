/** From scan results to dispatcher events. */
module Bridge {
  import opened Core
  import opened Delimited
  import opened Stores
  import opened Reconcile
  import opened Meaning
  import opened Dispatch
  import opened DispatchRuns
  import Consequences

  function EventsFor(moduleId: string, kind: string, fs: seq<Finding>): seq<Event> {
    seq(|fs|, i requires 0 <= i < |fs| => Event(kind, moduleId, fs[i]))
  }

  function ResultEvents(moduleId: string, res: ReconcileResult): seq<Event> {
    EventsFor(moduleId, KIND_OPENED, res.newlyOpen) + EventsFor(moduleId, KIND_RESOLVED, res.resolved)
  }

  function EnqueueAll(c: Config, s: State, events: seq<Event>, at: nat -> Time): State {
    if events == [] then s
    else
      var n := |events| - 1;
      AfterEnqueue(c, EnqueueAll(c, s, events[..n], at), events[n], at(n))
  }

  /** The callback installed on the scheduler: openings first, then closures, each enqueued in turn. */
  method OnResult(d: Dispatcher, moduleId: string, res: ReconcileResult, at: nat -> Time)
    requires d.Valid()
    modifies d
    ensures d.Valid() && d.state == EnqueueAll(d.cfg, old(d.state), ResultEvents(moduleId, res), at)
  {
    hide AfterEnqueue, EnqueueAll, Dispatcher.Valid;
    ghost var events := ResultEvents(moduleId, res);
    ghost var s := d.state;
    var n := |res.newlyOpen|;
    NoEvents(d.cfg, s, at);
    assert events[..0] == [];
    for i := 0 to n
      invariant d.Valid() && d.state == EnqueueAll(d.cfg, s, events[..i], at)
    {
      EnqueueOneMore(d.cfg, s, events, at, i);
      d.Enqueue(Event(KIND_OPENED, moduleId, res.newlyOpen[i]), at(i));
    }
    for i := 0 to |res.resolved|
      invariant d.Valid() && d.state == EnqueueAll(d.cfg, s, events[..n + i], at)
    {
      EnqueueOneMore(d.cfg, s, events, at, n + i);
      d.Enqueue(Event(KIND_RESOLVED, moduleId, res.resolved[i]), at(n + i));
    }
    assert events[..|events|] == events;
  }

  // ---- the chain of callbacks ----

  /** What is installed on the scheduler: nothing, or a dispatcher bound over what was there before. */
  datatype Callback = Unbound | Bound(prev: Callback, d: Dispatcher) {
    function Depth(): nat {
      match this case Unbound => 0 case Bound(prev, _) => prev.Depth() + 1
    }

    ghost function Dispatchers(): set<Dispatcher> {
      match this case Unbound => {} case Bound(prev, d) => prev.Dispatchers() + {d}
    }

    /** What a dispatcher goes through when the callback runs: one round for every time it is bound. */
    ghost function Told(d: Dispatcher, s: State, events: seq<Event>, at: nat -> nat -> Time): State {
      match this
      case Unbound => s
      case Bound(prev, e) =>
        var s' := prev.Told(d, s, events, at);
        if e == d then EnqueueAll(d.cfg, s', events, at(Depth())) else s'
    }

    lemma {:induction false} OthersAreNotTold(d: Dispatcher, s: State, events: seq<Event>, at: nat -> nat -> Time)
      requires d !in Dispatchers()
      ensures Told(d, s, events, at) == s
    {
      if Bound? {
        prev.OthersAreNotTold(d, s, events, at);
      }
    }

    /** The earlier callback first, then this dispatcher. */
    method Invoke(moduleId: string, res: ReconcileResult, at: nat -> nat -> Time, ghost ds: set<Dispatcher>)
      requires ds == Dispatchers() && forall d :: d in ds ==> d.Valid()
      modifies ds
      ensures forall d :: d in ds ==>
        d.Valid() && d.state == Told(d, old(d.state), ResultEvents(moduleId, res), at)
    {
      hide EnqueueAll, Dispatcher.Valid, ResultEvents;
      match this
      case Unbound =>
      case Bound(prev, e) =>
        ghost var s := e.state;
        if e !in prev.Dispatchers() {
          prev.OthersAreNotTold(e, s, ResultEvents(moduleId, res), at);
        }
        prev.Invoke(moduleId, res, at, prev.Dispatchers());
        OnResult(e, moduleId, res, at(Depth()));
    }
  }

  /** The dispatcher bound at a depth of a chain. */
  ghost function BoundAt(cb: Callback, depth: nat): Option<Dispatcher> {
    match cb
    case Unbound => None
    case Bound(prev, d) => if depth == cb.Depth() then Some(d) else BoundAt(prev, depth)
  }

  lemma {:induction false} BoundBelow(cb: Callback, depth: nat)
    ensures BoundAt(cb, depth).Some? ==> 1 <= depth <= cb.Depth()
  {
    if cb.Bound? {
      BoundBelow(cb.prev, depth);
    }
  }

  lemma BoundBefore(prev: Callback, d: Dispatcher, n: nat)
    ensures n <= prev.Depth() ==> BoundAt(Bound(prev, d), n) == BoundAt(prev, n)
    ensures BoundAt(Bound(prev, d), prev.Depth() + 1) == Some(d)
    ensures BoundAt(prev, n).Some? ==> n <= prev.Depth()
  {
    BoundBelow(prev, n);
  }

  /** A dispatcher bound nowhere in the chain goes through nothing. */
  lemma {:induction false} ToldNever(cb: Callback, d: Dispatcher, s: State, events: seq<Event>, at: nat -> nat -> Time)
    requires forall n: nat :: BoundAt(cb, n) != Some(d)
    ensures cb.Told(d, s, events, at) == s
  {
    hide EnqueueAll, BoundAt;
    if cb.Bound? {
      forall n: nat ensures BoundAt(cb.prev, n) != Some(d) {
        BoundBefore(cb.prev, cb.d, n);
      }
      BoundBefore(cb.prev, cb.d, 0);
      assert BoundAt(cb, cb.prev.Depth() + 1) == Some(cb.d);
      ToldNever(cb.prev, d, s, events, at);
    }
  }

  /** One bound once, anywhere in the chain, goes through all the events once. */
  lemma {:induction false} ToldOnce(cb: Callback, d: Dispatcher, s: State, events: seq<Event>, at: nat -> nat -> Time,
                                    n: nat)
    requires BoundAt(cb, n) == Some(d) && forall n': nat :: BoundAt(cb, n') == Some(d) ==> n' == n
    ensures cb.Told(d, s, events, at) == EnqueueAll(d.cfg, s, events, at(n))
  {
    hide EnqueueAll, BoundAt;
    BoundBelow(cb, n);
    BoundBefore(cb.prev, cb.d, n);
    forall n': nat | BoundAt(cb.prev, n') == Some(d) ensures n' == n && n' <= cb.prev.Depth() {
      BoundBefore(cb.prev, cb.d, n');
    }
    if n == cb.prev.Depth() + 1 {
      ToldNever(cb.prev, d, s, events, at);
    } else {
      ToldOnce(cb.prev, d, s, events, at, n);
    }
  }

  /** The events of a result: all its openings in order, then all its closures in order. */
  lemma ResultOrder(moduleId: string, res: ReconcileResult)
    ensures var events := ResultEvents(moduleId, res); var n := |res.newlyOpen|;
      && |events| == n + |res.resolved|
      && (forall i :: 0 <= i < n ==> events[i] == Event("opened", moduleId, res.newlyOpen[i]))
      && (forall i :: 0 <= i < |res.resolved| ==> events[n + i] == Event("resolved", moduleId, res.resolved[i]))
  {
  }

  lemma NoEvents(c: Config, s: State, at: nat -> Time)
    ensures EnqueueAll(c, s, [], at) == s
  {
  }

  lemma EnqueueOneMore(c: Config, s: State, events: seq<Event>, at: nat -> Time, i: nat)
    requires i < |events|
    ensures EnqueueAll(c, s, events[..i + 1], at)
        == AfterEnqueue(c, EnqueueAll(c, s, events[..i], at), events[i], at(i))
  {
    assert events[..i + 1][..i] == events[..i];
  }

  // ---- nothing is lost between engine and dispatcher ----

  /** Everything ever accepted: the flushed batches and the window. */
  function AllEvents(s: State): seq<Event> {
    EventsOf(s.flushed) + s.window
  }

  function Passing(c: Config, events: seq<Event>): seq<Event> {
    if events == [] then []
    else
      var n := |events| - 1;
      var e := events[n];
      Passing(c, events[..n]) + if SevereEnough(c, e) then [e] else []
  }

  lemma StillIn(window: seq<Event>, e: Event)
    ensures forall key :: InWindow(window, key) ==> InWindow(window + [e], key)
  {
    hide EventKey;
    forall key | InWindow(window, key) ensures InWindow(window + [e], key) {
      var i :| 0 <= i < |window| && EventKey(window[i]) == key;
      assert EventKey((window + [e])[i]) == key;
    }
  }

  lemma EnqueueEffect(c: Config, s: State, e: Event, at: Time)
    ensures var s' := AfterEnqueue(c, s, e, at);
      && s'.closed == s.closed
      && AllEvents(s') == AllEvents(s) + (if Accepts(c, s, e) then [e] else [])
      && (forall key :: InWindow(s'.window, key) ==> InWindow(s.window, key) || key == EventKey(e))
      && (if |s'.flushed| == |s.flushed| then forall key :: InWindow(s.window, key) ==> InWindow(s'.window, key)
          else |s'.flushed| == |s.flushed| + 1 && s'.window == [])
  {
    hide EventKey;
    StillIn(s.window, e);
    FlushMovesWindow(s.(window := s.window + [e]), at);
    assert EventsOf(s.flushed) + (s.window + [e]) == AllEvents(s) + [e];
  }

  predicate SevereEnough(c: Config, e: Event) {
    e.kind == KIND_OPENED ==> PassesSeverity(c, e.finding.severity)
  }

  /** The events that are accepted when all are enqueued in order. */
  function Taken(c: Config, s: State, events: seq<Event>, at: nat -> Time): seq<Event> {
    if events == [] then []
    else
      var n := |events| - 1;
      Taken(c, s, events[..n], at)
      + if Accepts(c, EnqueueAll(c, s, events[..n], at), events[n]) then [events[n]] else []
  }

  /** A window that was not flushed meanwhile still holds what it held; otherwise it holds new events only. */
  lemma {:induction false} WindowMeanwhile(c: Config, s: State, events: seq<Event>, at: nat -> Time)
    ensures var t := EnqueueAll(c, s, events, at);
      && t.closed == s.closed && |t.flushed| >= |s.flushed|
      && (|t.flushed| == |s.flushed| ==> forall key :: InWindow(s.window, key) ==> InWindow(t.window, key))
      && (forall key :: InWindow(t.window, key) ==>
            InWindow(events, key) || (InWindow(s.window, key) && |t.flushed| == |s.flushed|))
      && AllEvents(t) == AllEvents(s) + Taken(c, s, events, at)
  {
    hide AfterEnqueue, AllEvents, EventKey, Accepts, InWindow;
    NothingIn();
    if events != [] {
      var n := |events| - 1;
      var t := EnqueueAll(c, s, events[..n], at);
      WindowMeanwhile(c, s, events[..n], at);
      EnqueueEffect(c, t, events[n], at(n));
      forall key ensures InWindow(events, key) <==> InWindow(events[..n], key) || key == EventKey(events[n]) {
        OneMoreIn(events, key);
      }
      assert AllEvents(s) + Taken(c, s, events[..n], at) + [] == AllEvents(s) + Taken(c, s, events[..n], at);
    }
  }

  lemma NothingIn()
    ensures forall key :: !InWindow([], key)
  {
  }

  lemma OneMoreIn(events: seq<Event>, key: string)
    requires events != []
    ensures InWindow(events, key) <==> InWindow(events[..|events| - 1], key) || key == EventKey(events[|events| - 1])
  {
    var n := |events| - 1;
    if InWindow(events[..n], key) {
      var i :| 0 <= i < n && EventKey(events[..n][i]) == key;
      assert EventKey(events[i]) == key;
    }
    if i :| 0 <= i < |events| && EventKey(events[i]) == key {
      if i < n {
        assert EventKey(events[..n][i]) == key;
      }
    }
  }

  /** Which of several events with different keys are accepted, whatever is pending: those severe enough that are not
      pending already, or were, but have been flushed before their turn. */
  lemma TakenExactly(c: Config, s: State, events: seq<Event>, at: nat -> Time, i: nat)
    requires DistinctKeys(events) && i < |events|
    ensures var t := EnqueueAll(c, s, events[..i], at); var e := events[i];
      Accepts(c, t, e) <==>
        !s.closed && SevereEnough(c, e) && (InWindow(s.window, EventKey(e)) ==> |t.flushed| > |s.flushed|)
  {
    hide AfterEnqueue, EventKey, PassesSeverity;
    WindowMeanwhile(c, s, events[..i], at);
    NotAmongEarlier(events, i);
  }

  lemma NotAmongEarlier(events: seq<Event>, i: nat)
    requires DistinctKeys(events) && i < |events|
    ensures !InWindow(events[..i], EventKey(events[i]))
  {
    hide EventKey;
    forall j | 0 <= j < i ensures EventKey(events[..i][j]) != EventKey(events[i]) {
      assert events[..i][j] == events[j];
    }
  }

  /** If none of them is pending, all that are severe enough are. */
  lemma {:induction false} DistinctEventsAreAccepted(c: Config, s: State, events: seq<Event>, at: nat -> Time)
    requires !s.closed && DistinctKeys(events)
    requires forall e :: e in events ==> !InWindow(s.window, EventKey(e))
    ensures Taken(c, s, events, at) == Passing(c, events)
    ensures AllEvents(EnqueueAll(c, s, events, at)) == AllEvents(s) + Passing(c, events)
  {
    hide AllEvents, EventKey, SevereEnough, InWindow, Accepts, EnqueueAll;
    WindowMeanwhile(c, s, events, at);
    if events != [] {
      var n := |events| - 1;
      DistinctPrefix(events);
      DistinctEventsAreAccepted(c, s, events[..n], at);
      TakenExactly(c, s, events, at, n);
    }
  }

  lemma DistinctPrefix(events: seq<Event>)
    requires events != [] && DistinctKeys(events)
    ensures DistinctKeys(events[..|events| - 1])
  {
    hide EventKey;
    var n := |events| - 1;
    forall i, j | 0 <= i < j < n ensures EventKey(events[..n][i]) != EventKey(events[..n][j]) {
      assert events[..n][i] == events[i] && events[..n][j] == events[j];
    }
  }

  lemma PlanFindingsOfModule(owner: Owner, rows: Table, m: ModuleInfo, target: string, now: Time,
                             existing: seq<Record>, reports: seq<Finding>, ids: Ids, note: Note, f: Finding)
    requires IsListing(existing, rows, m.id, target) && CollectorOk(owner, m, target, reports)
    requires f in Announced(Plan(m, now, existing, reports, ids), note)
    ensures f.moduleId == m.id
  {
    hide Plan, Announced;
    var plan := Plan(m, now, existing, reports, ids);
    Consequences.AnnouncedMembers(plan, note, f);
    var w :| w in plan && w.note == note && w.rec.f == f;
    PlanKeys(owner, rows, m, target, now, existing, reports, ids, w);
  }

  /** One scan never produces two events with the same key. */
  lemma ScanEventsDistinct(owner: Owner, rows: Table, m: ModuleInfo, target: string, now: Time,
                           existing: seq<Record>, reports: seq<Finding>, ids: Ids, res: ReconcileResult)
    requires IsListing(existing, rows, m.id, target) && CollectorOk(owner, m, target, reports) && Owned(owner, rows)
    requires var plan := Plan(m, now, existing, reports, ids);
      res.newlyOpen == Announced(plan, Opened) && res.resolved == Announced(plan, Closed)
    ensures DistinctKeys(ResultEvents(m.id, res))
  {
    hide Plan, Announced, EventKey;
    var events := ResultEvents(m.id, res);
    Consequences.AnnouncementsAreTheDifference(owner, rows, m, target, now, existing, reports, ids, Opened);
    Consequences.AnnouncementsAreTheDifference(owner, rows, m, target, now, existing, reports, ids, Closed);
    forall i | 0 <= i < |events| ensures events[i].finding.moduleId == m.id {
      if i < |res.newlyOpen| {
        PlanFindingsOfModule(owner, rows, m, target, now, existing, reports, ids, Opened, res.newlyOpen[i]);
      } else {
        PlanFindingsOfModule(owner, rows, m, target, now, existing, reports, ids, Closed,
          res.resolved[i - |res.newlyOpen|]);
      }
    }
    forall i, j | 0 <= i < j < |events| ensures EventKey(events[i]) != EventKey(events[j]) {
      KeyWithinModule(events[i], events[j]);
      if i < |res.newlyOpen| && j < |res.newlyOpen| {
        assert Consequences.FindingKey(res.newlyOpen[i]) != Consequences.FindingKey(res.newlyOpen[j]);
      } else if |res.newlyOpen| <= i {
        var i', j' := i - |res.newlyOpen|, j - |res.newlyOpen|;
        assert Consequences.FindingKey(res.resolved[i']) != Consequences.FindingKey(res.resolved[j']);
      }
    }
  }

  /** End to end, whatever the dispatcher is doing: a completed scan offers exactly the records that became unresolved
      and those that became resolved, each once. An offered event is accepted exactly when it is severe enough, the
      dispatcher is open, and it is not pending, or what was pending has been flushed before its turn. */
  lemma ScanReachesDispatcher(owner: Owner, rows: Table, m: ModuleInfo, target: string, now: Time,
                              existing: seq<Record>, reports: seq<Finding>, ids: Ids, res: ReconcileResult,
                              c: Config, s: State, at: nat -> Time)
    requires IsListing(existing, rows, m.id, target) && CollectorOk(owner, m, target, reports) && Owned(owner, rows)
    requires var plan := Plan(m, now, existing, reports, ids);
      res.newlyOpen == Announced(plan, Opened) && res.resolved == Announced(plan, Closed)
    ensures var events := ResultEvents(m.id, res);
      && DistinctKeys(events)
      && AllEvents(EnqueueAll(c, s, events, at)) == AllEvents(s) + Taken(c, s, events, at)
      && (forall i :: 0 <= i < |events| ==>
            var t := EnqueueAll(c, s, events[..i], at); var e := events[i];
            Accepts(c, t, e) <==>
              !s.closed && SevereEnough(c, e) && (InWindow(s.window, EventKey(e)) ==> |t.flushed| > |s.flushed|))
    ensures var rows' := ApplyAll(Memory, rows, Plan(m, now, existing, reports, ids));
      && (forall f :: Event(KIND_OPENED, m.id, f) in ResultEvents(m.id, res) <==>
            exists k :: k in rows' && Transition(Lookup(rows, k), Lookup(rows', k)) == Opened && rows'[k].f == f)
      && (forall f :: Event(KIND_RESOLVED, m.id, f) in ResultEvents(m.id, res) <==>
            exists k :: k in rows' && Transition(Lookup(rows, k), Lookup(rows', k)) == Closed && rows'[k].f == f)
  {
    hide Plan, Announced, EventKey, ApplyAll, Transition, AllEvents, Taken, EnqueueAll, Accepts, InWindow, SevereEnough,
      ResultEvents, DistinctKeys, Owned, CollectorOk, IsListing;
    var events := ResultEvents(m.id, res);
    ScanEventsDistinct(owner, rows, m, target, now, existing, reports, ids, res);
    WindowMeanwhile(c, s, events, at);
    forall i | 0 <= i < |events|
      ensures var t := EnqueueAll(c, s, events[..i], at); var e := events[i];
        Accepts(c, t, e) <==>
          !s.closed && SevereEnough(c, e) && (InWindow(s.window, EventKey(e)) ==> |t.flushed| > |s.flushed|)
    {
      TakenExactly(c, s, events, at, i);
    }
    Consequences.AnnouncementsAreTheDifference(owner, rows, m, target, now, existing, reports, ids, Opened);
    Consequences.AnnouncementsAreTheDifference(owner, rows, m, target, now, existing, reports, ids, Closed);
    forall f
      ensures Event(KIND_OPENED, m.id, f) in ResultEvents(m.id, res) <==> f in res.newlyOpen
      ensures Event(KIND_RESOLVED, m.id, f) in ResultEvents(m.id, res) <==> f in res.resolved
    {
      ResultMembers(m.id, res, f);
    }
  }

  lemma ResultMembers(moduleId: string, res: ReconcileResult, f: Finding)
    ensures Event(KIND_OPENED, moduleId, f) in ResultEvents(moduleId, res) <==> f in res.newlyOpen
    ensures Event(KIND_RESOLVED, moduleId, f) in ResultEvents(moduleId, res) <==> f in res.resolved
  {
    var events, n := ResultEvents(moduleId, res), |res.newlyOpen|;
    assert |KIND_OPENED| != |KIND_RESOLVED|;
    if f in res.newlyOpen {
      var i :| 0 <= i < n && res.newlyOpen[i] == f;
      assert events[i] == Event(KIND_OPENED, moduleId, f);
    }
    if f in res.resolved {
      var i :| 0 <= i < |res.resolved| && res.resolved[i] == f;
      assert events[n + i] == Event(KIND_RESOLVED, moduleId, f);
    }
  }
}
