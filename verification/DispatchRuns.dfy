/** Whole runs of the dispatcher: every accepted event reaches exactly one digest. */
module DispatchRuns {
  import opened Core
  import opened Delimited
  import opened Sorting
  import opened Dispatch

  /** A timer firing, stale or not, is a flush. */
  datatype Op = DoEnqueue(e: Event, at: Time) | DoFlush(at: Time) | DoClose(at: Time)

  function After(c: Config, s: State, op: Op): State {
    match op
    case DoEnqueue(e, at) => AfterEnqueue(c, s, e, at)
    case DoFlush(at) => AfterFlush(s, at)
    case DoClose(at) => AfterClose(s, at)
  }

  function Run(c: Config, ops: seq<Op>): State {
    if ops == [] then INITIAL else After(c, Run(c, ops[..|ops| - 1]), ops[|ops| - 1])
  }

  /** The events the dispatcher accepts during a run, in order. */
  function AcceptedEvents(c: Config, ops: seq<Op>): seq<Event> {
    if ops == [] then []
    else
      var n := |ops| - 1;
      var op := ops[n];
      AcceptedEvents(c, ops[..n])
      + if op.DoEnqueue? && Accepts(c, Run(c, ops[..n]), op.e) then [op.e] else []
  }

  function EventsOf(batches: seq<Batch>): seq<Event> {
    if batches == [] then [] else EventsOf(batches[..|batches| - 1]) + batches[|batches| - 1].events
  }

  /** What every state of a run satisfies. */
  ghost predicate Inv(c: Config, s: State) {
    && DistinctKeys(s.window)
    && |s.window| < c.maxBatch
    && (s.closed ==> s.window == [])
    && (forall i :: 0 <= i < |s.flushed| ==>
          s.flushed[i].events != [] && DistinctKeys(s.flushed[i].events) && |s.flushed[i].events| <= c.maxBatch)
  }

  lemma AfterKeepsInv(c: Config, s: State, op: Op)
    requires c.maxBatch > 0 && Inv(c, s)
    ensures Inv(c, After(c, s, op))
  {
    hide EventKey;
    if op.DoEnqueue? && Accepts(c, s, op.e) {
      KeysStayDistinct(s.window, op.e);
    }
  }

  /** Batches are never empty, never exceed the limit, and never hold two events with the same key. */
  lemma {:induction false} RunKeepsInv(c: Config, ops: seq<Op>)
    requires c.maxBatch > 0
    ensures Inv(c, Run(c, ops))
  {
    hide After, Inv;
    if ops == [] {
      InitialInv(c);
    } else {
      RunKeepsInv(c, ops[..|ops| - 1]);
      AfterKeepsInv(c, Run(c, ops[..|ops| - 1]), ops[|ops| - 1]);
    }
  }

  lemma InitialInv(c: Config)
    requires c.maxBatch > 0
    ensures Inv(c, INITIAL)
  {
  }

  /** The accepted events are exactly those of the flushed batches, one batch after the other, and the window. */
  lemma {:induction false} EveryAcceptedEventIsInOneBatch(c: Config, ops: seq<Op>)
    ensures AcceptedEvents(c, ops) == EventsOf(Run(c, ops).flushed) + Run(c, ops).window
  {
    hide Accepts, After, EventsOf;
    if ops == [] {
      NothingAccepted();
    } else {
      var n := |ops| - 1;
      EveryAcceptedEventIsInOneBatch(c, ops[..n]);
      StepMovesEvents(c, Run(c, ops[..n]), ops[n]);
    }
  }

  lemma NothingAccepted()
    ensures EventsOf(INITIAL.flushed) + INITIAL.window == []
  {
  }

  lemma StepMovesEvents(c: Config, s: State, op: Op)
    ensures var s' := After(c, s, op);
      EventsOf(s'.flushed) + s'.window == EventsOf(s.flushed) + s.window
        + if op.DoEnqueue? && Accepts(c, s, op.e) then [op.e] else []
  {
    hide Accepts, EventsOf, AfterFlush;
    FlushMovesWindow(s, op.at);
    if op.DoEnqueue? {
      FlushMovesWindow(s.(window := s.window + [op.e]), op.at);
      assert EventsOf(s.flushed) + (s.window + [op.e]) == EventsOf(s.flushed) + s.window + [op.e];
    }
  }

  lemma FlushMovesWindow(s: State, at: Time)
    ensures EventsOf(AfterFlush(s, at).flushed) + AfterFlush(s, at).window == EventsOf(s.flushed) + s.window
  {
    assert (s.flushed + [Batch(s.window, at)])[..|s.flushed|] == s.flushed;
  }

  /** Once closed, everything accepted has been flushed and nothing is ever accepted again. */
  lemma {:induction false} NothingPendingAfterClose(c: Config, ops: seq<Op>, more: seq<Op>, at: Time)
    ensures var closed := ops + [DoClose(at)] + more;
      && Run(c, closed).closed && Run(c, closed).window == []
      && AcceptedEvents(c, closed) == AcceptedEvents(c, ops) == EventsOf(Run(c, closed).flushed)
  {
    var closed := ops + [DoClose(at)] + more;
    EveryAcceptedEventIsInOneBatch(c, closed);
    if more == [] {
      assert closed[..|closed| - 1] == ops;
    } else {
      NothingPendingAfterClose(c, ops, more[..|more| - 1], at);
      assert closed[..|closed| - 1] == ops + [DoClose(at)] + more[..|more| - 1];
    }
  }

  // ---- what a batch's digests contain ----

  function Matching(events: seq<Event>, m: string, kind: string): seq<Finding> {
    FindingsOf(OfModule(events, m), kind)
  }

  /** For every module with events in the batch there is exactly one digest. It carries that module's opened
      findings, each as often as it occurs in the batch, worst first, and the resolved ones in enqueue order. */
  lemma DigestContents(b: Batch, m: string)
    requires m in Modules(b.events)
    ensures var d := DigestOf(m, OfModule(b.events, m), b.at);
      && (forall d' :: IsDigestOf(b, d') && d'.moduleId == m <==> d' == d)
      && multiset(d.opening) == multiset(Matching(b.events, m, KIND_OPENED))
      && (forall i, j :: 0 <= i < j < |d.opening| ==> RankOf(d.opening[i]) >= RankOf(d.opening[j]))
      && (forall rank: nat :: Bucket(d.opening, rank) == Bucket(Matching(b.events, m, KIND_OPENED), rank))
      && d.resolved == Matching(b.events, m, KIND_RESOLVED)
  {
    hide WorstFirst, Bucket, RankOf;
    WorstFirstIsStableSort(Matching(b.events, m, KIND_OPENED));
  }

  /** How often an event occurs. */
  function Occurrences(events: seq<Event>, e: Event): nat {
    multiset(events)[e]
  }

  lemma MatchingGrows(events: seq<Event>, m: string, kind: string)
    requires events != []
    ensures var n := |events| - 1; var e := events[n];
      Matching(events, m, kind) == Matching(events[..n], m, kind)
        + if e.moduleId == m && e.kind == kind then [e.finding] else []
  {
    var init := OfModule(events[..|events| - 1], m);
    if events[|events| - 1].moduleId == m {
      assert OfModule(events, m)[..|init|] == init;
      assert FindingsOf(init, kind) + [] == FindingsOf(init, kind);
    } else {
      assert OfModule(events, m) == init;
    }
  }

  lemma {:induction false} MatchingCounts(events: seq<Event>, m: string, kind: string, f: Finding)
    ensures multiset(Matching(events, m, kind))[f] == Occurrences(events, Event(kind, m, f))
  {
    hide Matching;
    if events == [] {
      NothingMatches([], m, kind);
    } else {
      var n := |events| - 1;
      MatchingCounts(events[..n], m, kind, f);
      MatchingGrows(events, m, kind);
      assert events == events[..n] + [events[n]];
    }
  }

  /** How often finding `f` is listed, over all digests of all batches, as `kind` for module `m`. */
  function Listed(batches: seq<Batch>, m: string, kind: string, f: Finding): nat {
    if batches == [] then 0
    else
      var b := batches[|batches| - 1];
      Listed(batches[..|batches| - 1], m, kind, f)
      + if m !in Modules(b.events) then 0
        else
          var d := DigestOf(m, OfModule(b.events, m), b.at);
          if kind == KIND_OPENED then multiset(d.opening)[f]
          else if kind == KIND_RESOLVED then multiset(d.resolved)[f]
          else 0
  }

  lemma {:induction false} ListedCounts(batches: seq<Batch>, m: string, kind: string, f: Finding)
    requires kind == KIND_OPENED || kind == KIND_RESOLVED
    ensures Listed(batches, m, kind, f) == Occurrences(EventsOf(batches), Event(kind, m, f))
  {
    hide DigestOf, WorstFirst, Matching, Modules;
    if batches != [] {
      var b := batches[|batches| - 1];
      ListedCounts(batches[..|batches| - 1], m, kind, f);
      ModulesHaveEvents(b.events, m);
      MatchingCounts(b.events, m, kind, f);
      if m in Modules(b.events) {
        DigestContents(b, m);
      } else {
        NothingMatches(b.events, m, kind);
      }
    }
  }

  lemma NothingMatches(events: seq<Event>, m: string, kind: string)
    requires OfModule(events, m) == []
    ensures Matching(events, m, kind) == []
  {
  }

  lemma {:induction false} MatchingExists(events: seq<Event>, m: string, kind: string)
    ensures Matching(events, m, kind) != [] <==>
      exists i :: 0 <= i < |events| && events[i].moduleId == m && events[i].kind == kind
  {
    hide Matching;
    if events == [] {
      NothingMatches([], m, kind);
    } else {
      var n := |events| - 1;
      MatchingExists(events[..n], m, kind);
      MatchingGrows(events, m, kind);
      if i :| 0 <= i < n && events[i].moduleId == m && events[i].kind == kind {
        assert events[..n][i] == events[i];
      }
      if i :| 0 <= i < n && events[..n][i].moduleId == m && events[..n][i].kind == kind {
        assert events[..n][i] == events[i];
      }
    }
  }

  /** Only a Close closes the dispatcher, and it stays closed. */
  lemma {:induction false} ClosedExactly(c: Config, ops: seq<Op>)
    ensures Run(c, ops).closed <==> exists i :: 0 <= i < |ops| && ops[i].DoClose?
  {
    hide Accepts;
    if ops != [] {
      var n := |ops| - 1;
      ClosedExactly(c, ops[..n]);
      assert forall i :: 0 <= i < n ==> ops[..n][i] == ops[i];
    }
  }

  /** A batch bears the time of the very step of the run that flushed it. */
  lemma {:induction false} BatchesBearTheirTime(c: Config, ops: seq<Op>, i: nat)
    requires i < |Run(c, ops).flushed|
    ensures exists j :: FlushesAs(c, ops, i, j)
  {
    hide After;
    var n := |ops| - 1;
    AddsOneBatch(c, Run(c, ops[..n]), ops[n]);
    if i < |Run(c, ops[..n]).flushed| {
      BatchesBearTheirTime(c, ops[..n], i);
      var j :| FlushesAs(c, ops[..n], i, j);
      assert ops[..n][..j] == ops[..j] && ops[..n][..j + 1] == ops[..j + 1];
      assert FlushesAs(c, ops, i, j);
    } else {
      assert ops[..n + 1] == ops;
      assert FlushesAs(c, ops, i, n);
    }
  }

  /** Step `j` of the run flushes batch `i`. */
  ghost predicate FlushesAs(c: Config, ops: seq<Op>, i: nat, j: int) {
    && 0 <= j < |ops|
    && |Run(c, ops[..j]).flushed| == i && |Run(c, ops[..j + 1]).flushed| == i + 1
    && Run(c, ops[..j + 1]).flushed <= Run(c, ops).flushed
    && Run(c, ops).flushed[i].at == ops[j].at
  }

  lemma AddsOneBatch(c: Config, s: State, op: Op)
    ensures var t := After(c, s, op);
      t.flushed == s.flushed
      || (|t.flushed| == |s.flushed| + 1 && s.flushed <= t.flushed && t.flushed[|s.flushed|].at == op.at)
  {
  }

  /** What a flushed batch makes due: for a module with an opening or a closure in it, one delivery of its digest to
      each channel, and for any other module none. */
  lemma DueForBatch(channels: nat, flushed: seq<Batch>, b: Batch, m: string, channel: nat)
    requires m in Modules(b.events)
    ensures var send := Send(channel, DigestOf(m, OfModule(b.events, m), b.at));
      DueCount(channels, flushed + [b], send) == DueCount(channels, flushed, send)
        + if channel < channels
             && exists e :: e in b.events && e.moduleId == m && (e.kind == "opened" || e.kind == "resolved") then 1
          else 0
  {
    hide DueCount, WorstFirst, FindingsOf, OfModule, Modules;
    var d := DigestOf(m, OfModule(b.events, m), b.at);
    DueGrows(channels, flushed, b, Send(channel, d));
    MatchingExists(b.events, m, KIND_OPENED);
    MatchingExists(b.events, m, KIND_RESOLVED);
    WorstFirstIsStableSort(Matching(b.events, m, KIND_OPENED));
    assert d.opening == [] <==> Matching(b.events, m, KIND_OPENED) == [] by {
      assert |multiset(d.opening)| == |multiset(Matching(b.events, m, KIND_OPENED))|;
    }
  }

  /** Conservation: over any run that ends closed, a finding is listed for a module as opened (or resolved) exactly
      as often as such an event was accepted. Events of any other kind are accepted and listed nowhere. */
  lemma DispatcherConservation(c: Config, ops: seq<Op>, at: Time, m: string, kind: string, f: Finding)
    ensures kind == KIND_OPENED || kind == KIND_RESOLVED ==>
      Listed(Run(c, ops + [DoClose(at)]).flushed, m, kind, f) == Occurrences(AcceptedEvents(c, ops), Event(kind, m, f))
    ensures kind != KIND_OPENED && kind != KIND_RESOLVED ==>
      Listed(Run(c, ops + [DoClose(at)]).flushed, m, kind, f) == 0
  {
    NothingPendingAfterClose(c, ops, [], at);
    assert ops + [DoClose(at)] + [] == ops + [DoClose(at)];
    if kind == KIND_OPENED || kind == KIND_RESOLVED {
      ListedCounts(Run(c, ops + [DoClose(at)]).flushed, m, kind, f);
    } else {
      OtherKindsAreListedNowhere(Run(c, ops + [DoClose(at)]).flushed, m, kind, f);
    }
  }

  lemma {:induction false} OtherKindsAreListedNowhere(batches: seq<Batch>, m: string, kind: string, f: Finding)
    requires kind != KIND_OPENED && kind != KIND_RESOLVED
    ensures Listed(batches, m, kind, f) == 0
  {
    if batches != [] {
      OtherKindsAreListedNowhere(batches[..|batches| - 1], m, kind, f);
    }
  }

  // ---- deduplication ----

  predicate PlainKind(kind: string) {
    kind == KIND_OPENED || kind == KIND_RESOLVED
  }

  /** For module names without '|', the joined key deduplicates exactly by kind, module and fingerprint. */
  lemma KeyIsExact(e: Event, e': Event)
    requires PlainKind(e.kind) && PlainKind(e'.kind) && '|' !in e.moduleId && '|' !in e'.moduleId
    ensures EventKey(e) == EventKey(e') <==>
      e.kind == e'.kind && e.moduleId == e'.moduleId && e.finding.fingerprint == e'.finding.fingerprint
  {
    if EventKey(e) == EventKey(e') {
      JoinInjective(e.kind, e'.kind, '|', Join(e.moduleId, '|', e.finding.fingerprint),
        Join(e'.moduleId, '|', e'.finding.fingerprint));
      JoinInjective(e.moduleId, e'.moduleId, '|', e.finding.fingerprint, e'.finding.fingerprint);
    }
  }

  /** Events of one module, whatever its name, have equal keys exactly when kind and fingerprint are equal. */
  lemma KeyWithinModule(e: Event, e': Event)
    requires PlainKind(e.kind) && PlainKind(e'.kind) && e.moduleId == e'.moduleId
    ensures EventKey(e) == EventKey(e') <==> e.kind == e'.kind && e.finding.fingerprint == e'.finding.fingerprint
  {
    if EventKey(e) == EventKey(e') {
      var s, s' := Join(e.moduleId, '|', e.finding.fingerprint), Join(e'.moduleId, '|', e'.finding.fingerprint);
      JoinInjective(e.kind, e'.kind, '|', s, s');
      assert s[|e.moduleId| + 1..] == e.finding.fingerprint && s'[|e.moduleId| + 1..] == e'.finding.fingerprint;
    }
  }

  /** For arbitrary module names, two modules can have events mistaken for each other exactly when one name is the
      other or continues it with a '|'. */
  lemma ModulesCollideExactly(m: string, m': string, kind: string)
    requires PlainKind(kind)
    ensures (exists fp: string, fp': string :: Join(kind, '|', Join(m, '|', fp)) == Join(kind, '|', Join(m', '|', fp')))
       <==> (m == m' || m + ['|'] <= m' || m' + ['|'] <= m)
  {
    CollisionsExactly(m, m', '|');
    if fp: string, fp': string :| Join(kind, '|', Join(m, '|', fp)) == Join(kind, '|', Join(m', '|', fp')) {
      JoinInjective(kind, kind, '|', Join(m, '|', fp), Join(m', '|', fp'));
    }
    if tail: string, tail': string :| Join(m, '|', tail) == Join(m', '|', tail') {
      assert Join(kind, '|', Join(m, '|', tail)) == Join(kind, '|', Join(m', '|', tail'));
    }
  }
}
