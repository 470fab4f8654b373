/** The notification dispatcher: batching, deduplication within a window, and one digest per module and flush. */
module Dispatch {
  import opened Core
  import opened Delimited
  import opened Sorting

  const KIND_OPENED := "opened"
  const KIND_RESOLVED := "resolved"

  datatype Event = Event(kind: string, moduleId: string, finding: Finding)

  datatype Digest = Digest(moduleId: string, opening: seq<Finding>, resolved: seq<Finding>, at: Time) {
    predicate Empty() {
      opening == [] && resolved == []
    }
  }

  /** One delivery in progress: a digest handed to the retry loop of one channel. */
  datatype Send = Send(channel: nat, digest: Digest)

  datatype Config = Config(maxBatch: int, minSeverity: Severity, retries: int)

  const NO_MINIMUM: Severity := Unlisted("")

  function WithDefaults(c: Config): Config {
    Config(if c.maxBatch <= 0 then 100 else c.maxBatch, c.minSeverity, if c.retries <= 0 then 3 else c.retries)
  }

  function EventKey(e: Event): string {
    Join(e.kind, '|', Join(e.moduleId, '|', e.finding.fingerprint))
  }

  // ---- specification ----

  /** Events handed over in one flush. */
  datatype Batch = Batch(events: seq<Event>, at: Time)

  /** The events accepted since the last flush, whether closed, and the batches flushed so far. */
  datatype State = State(window: seq<Event>, closed: bool, flushed: seq<Batch>)

  const INITIAL := State([], false, [])

  predicate PassesSeverity(c: Config, s: Severity) {
    c.minSeverity == NO_MINIMUM || SeverityRank(s) >= SeverityRank(c.minSeverity)
  }

  predicate InWindow(window: seq<Event>, key: string) {
    exists i :: 0 <= i < |window| && EventKey(window[i]) == key
  }

  predicate Accepts(c: Config, s: State, e: Event) {
    && !s.closed
    && (e.kind == KIND_OPENED ==> PassesSeverity(c, e.finding.severity))
    && !InWindow(s.window, EventKey(e))
  }

  function AfterFlush(s: State, at: Time): State {
    if s.window == [] then s else s.(window := [], flushed := s.flushed + [Batch(s.window, at)])
  }

  function AfterEnqueue(c: Config, s: State, e: Event, at: Time): State {
    if !Accepts(c, s, e) then s
    else
      var grown := s.(window := s.window + [e]);
      if |grown.window| >= c.maxBatch then AfterFlush(grown, at) else grown
  }

  function AfterClose(s: State, at: Time): State {
    AfterFlush(s, at).(closed := true)
  }

  function OfModule(events: seq<Event>, m: string): seq<Event> {
    if events == [] then []
    else
      var n := |events| - 1;
      OfModule(events[..n], m) + if events[n].moduleId == m then [events[n]] else []
  }

  function FindingsOf(events: seq<Event>, kind: string): seq<Finding> {
    if events == [] then []
    else
      var n := |events| - 1;
      FindingsOf(events[..n], kind) + if events[n].kind == kind then [events[n].finding] else []
  }

  function Modules(events: seq<Event>): set<string> {
    if events == [] then {} else Modules(events[..|events| - 1]) + {events[|events| - 1].moduleId}
  }

  function KeysOf(events: seq<Event>): set<string> {
    if events == [] then {} else KeysOf(events[..|events| - 1]) + {EventKey(events[|events| - 1])}
  }

  function DigestOf(m: string, events: seq<Event>, at: Time): Digest {
    Digest(m, WorstFirst(FindingsOf(events, KIND_OPENED)), FindingsOf(events, KIND_RESOLVED), at)
  }

  /** The digests a batch produces: one per module with events in it. */
  predicate IsDigestOf(b: Batch, d: Digest) {
    d.moduleId in Modules(b.events) && d == DigestOf(d.moduleId, OfModule(b.events, d.moduleId), b.at)
  }

  /** How many times a delivery is due: once for every batch that produces its digest, if that is not empty. */
  function DueCount(channels: nat, flushed: seq<Batch>, s: Send): nat {
    if flushed == [] then 0
    else
      DueCount(channels, flushed[..|flushed| - 1], s)
      + if s.channel < channels && !s.digest.Empty() && IsDigestOf(flushed[|flushed| - 1], s.digest) then 1 else 0
  }

  ghost predicate DistinctKeys(window: seq<Event>) {
    forall i, j :: 0 <= i < j < |window| ==> EventKey(window[i]) != EventKey(window[j])
  }

  // ---- facts about the specification functions ----

  lemma {:induction false} KeysAreInWindow(events: seq<Event>, key: string)
    ensures key in KeysOf(events) <==> InWindow(events, key)
  {
    hide EventKey;
    if events != [] {
      var n := |events| - 1;
      KeysAreInWindow(events[..n], key);
      if InWindow(events[..n], key) {
        var i :| 0 <= i < n && EventKey(events[..n][i]) == key;
        assert EventKey(events[i]) == key;
      }
    }
  }

  lemma {:induction false} ModulesHaveEvents(events: seq<Event>, m: string)
    ensures m in Modules(events) <==> OfModule(events, m) != []
  {
    if events != [] {
      ModulesHaveEvents(events[..|events| - 1], m);
    }
  }

  function SizeIn(events: seq<Event>, ms: set<string>): nat {
    if events == [] then 0
    else
      SizeIn(events[..|events| - 1], ms) + if events[|events| - 1].moduleId in ms then 1 else 0
  }

  lemma {:induction false} SizeGrows(events: seq<Event>, ms: set<string>, m: string)
    requires m !in ms
    ensures SizeIn(events, ms + {m}) == SizeIn(events, ms) + |OfModule(events, m)|
  {
    if events != [] {
      SizeGrows(events[..|events| - 1], ms, m);
    }
  }

  lemma {:induction false} SizeOfAll(events: seq<Event>, ms: set<string>)
    requires Modules(events) <= ms
    ensures SizeIn(events, ms) == |events|
  {
    if events != [] {
      SizeOfAll(events[..|events| - 1], ms);
    }
  }

  lemma {:induction false} SizeOfNone(events: seq<Event>)
    ensures SizeIn(events, {}) == 0
  {
    if events != [] {
      SizeOfNone(events[..|events| - 1]);
    }
  }

  lemma WindowGrows(window: seq<Event>, e: Event)
    ensures KeysOf(window + [e]) == KeysOf(window) + {EventKey(e)}
    ensures Modules(window + [e]) == Modules(window) + {e.moduleId}
    ensures forall m :: OfModule(window + [e], m) == OfModule(window, m) + if m == e.moduleId then [e] else []
  {
    assert (window + [e])[..|window|] == window;
  }

  // ---- the dispatcher ----

  class Dispatcher {
    const cfg: Config
    const channels: nat

    var pending: map<string, seq<Event>>
    var seen: set<string>
    var timerArmed: bool
    var closed: bool
    var outbox: seq<Send>
    ghost var state: State

    ghost predicate Valid()
      reads this
    {
      && cfg.maxBatch > 0
      && closed == state.closed
      && pending.Keys == Modules(state.window)
      && (forall m :: m in pending ==> pending[m] == OfModule(state.window, m))
      && seen == KeysOf(state.window)
      && DistinctKeys(state.window)
      && |state.window| < cfg.maxBatch
      && (timerArmed <==> state.window != [])
      && (state.closed ==> state.window == [])
      && (forall s: Send :: multiset(outbox)[s] == DueCount(channels, state.flushed, s))
    }

    constructor (c: Config, channels: nat)
      ensures Valid() && state == INITIAL && outbox == []
      ensures this.channels == channels && cfg.minSeverity == c.minSeverity
      ensures cfg.maxBatch == (if c.maxBatch > 0 then c.maxBatch else 100)
      ensures cfg.retries == if c.retries > 0 then c.retries else 3
    {
      cfg := WithDefaults(c);
      this.channels := channels;
      pending := map[];
      seen := {};
      timerArmed := false;
      closed := false;
      outbox := [];
      state := INITIAL;
    }

    /** `at` is the time of a flush, should this event fill the batch. */
    method Enqueue(e: Event, at: Time)
      requires Valid()
      modifies this
      ensures Valid() && state == AfterEnqueue(cfg, old(state), e, at)
    {
      hide Modules, KeysOf, OfModule, DueCount, EventKey, PassesSeverity, DistinctKeys;
      if e.kind == KIND_OPENED && !Passes(e.finding.severity) {
        return;
      }
      if closed {
        return;
      }
      var key := EventKey(e);
      KeysAreInWindow(state.window, key);
      if key in seen {
        return;
      }
      WindowGrows(state.window, e);
      KeysStayDistinct(state.window, e);
      ModulesHaveEvents(state.window, e.moduleId);
      seen := seen + {key};
      pending := pending[e.moduleId := (if e.moduleId in pending then pending[e.moduleId] else []) + [e]];
      state := state.(window := state.window + [e]);
      var total := Total(state.window);
      if total >= cfg.maxBatch {
        FlushLocked(at);
        return;
      }
      if !timerArmed {
        timerArmed := true;
      }
    }

    /** Called by the window timer, also by one that fired after it was stopped, and by anyone else. */
    method Flush(at: Time)
      requires Valid()
      modifies this
      ensures Valid() && state == AfterFlush(old(state), at) && !timerArmed && pending == map[]
    {
      FlushLocked(at);
    }

    method Close(at: Time)
      requires Valid()
      modifies this
      ensures Valid() && state == AfterClose(old(state), at) && !timerArmed && pending == map[]
    {
      FlushLocked(at);
      closed := true;
      state := state.(closed := true);
    }

    predicate Passes(s: Severity)
      ensures Passes(s) == PassesSeverity(cfg, s)
    {
      if cfg.minSeverity == NO_MINIMUM then true else SeverityRank(s) >= SeverityRank(cfg.minSeverity)
    }

    method Total(ghost window: seq<Event>) returns (total: nat)
      requires pending.Keys == Modules(window)
      requires forall m :: m in pending ==> pending[m] == OfModule(window, m)
      ensures total == |window|
    {
      hide Modules, OfModule, SizeIn;
      total := 0;
      var todo := pending.Keys;
      SizeOfNone(window);
      assert pending.Keys - todo == {};
      while todo != {}
        invariant todo <= pending.Keys
        invariant total == SizeIn(window, pending.Keys - todo)
        decreases todo
      {
        var m :| m in todo;
        SizeGrows(window, pending.Keys - todo, m);
        assert pending.Keys - todo + {m} == pending.Keys - (todo - {m});
        total := total + |pending[m]|;
        todo := todo - {m};
      }
      SizeOfAll(window, pending.Keys);
      assert pending.Keys - todo == pending.Keys;
    }

    /** Everything of `Valid` except that the batch may just have become full and the timer may be in any state. */
    ghost predicate ReadyToFlush()
      reads this
    {
      && cfg.maxBatch > 0
      && closed == state.closed
      && pending.Keys == Modules(state.window)
      && (forall m :: m in pending ==> pending[m] == OfModule(state.window, m))
      && seen == KeysOf(state.window)
      && (forall s: Send :: multiset(outbox)[s] == DueCount(channels, state.flushed, s))
    }

    method FlushLocked(at: Time)
      requires ReadyToFlush()
      modifies this
      ensures Valid() && state == AfterFlush(old(state), at) && !timerArmed && pending == map[]
    {
      hide DueCount, OfModule, IsDigestOf, Modules, KeysOf, DistinctKeys;
      timerArmed := false;
      if |pending| == 0 {
        assert pending == map[];
        NoModules(state.window);
        return;
      }
      NoModules(state.window);
      NoModules([]);
      ghost var batch := Batch(state.window, at);
      var digests := BuildDigests(batch.events, at);
      pending := map[];
      seen := {};
      ghost var was := outbox;
      outbox := Deliveries(outbox, digests, channels);
      state := AfterFlush(state, at);
      forall s: Send ensures multiset(outbox)[s] == DueCount(channels, state.flushed, s) {
        DueGrows(channels, old(state).flushed, batch, s);
      }
    }

    method BuildDigests(ghost window: seq<Event>, at: Time) returns (digests: seq<Digest>)
      requires pending.Keys == Modules(window)
      requires forall m :: m in pending ==> pending[m] == OfModule(window, m)
      ensures forall d: Digest :: multiset(digests)[d] == if IsDigestOf(Batch(window, at), d) then 1 else 0
    {
      hide Modules, OfModule, DigestOf;
      digests := [];
      var todo := pending.Keys;
      while todo != {}
        invariant todo <= pending.Keys
        invariant forall d: Digest ::
          multiset(digests)[d] ==
            if d.moduleId in pending.Keys - todo && d == DigestOf(d.moduleId, OfModule(window, d.moduleId), at) then 1
            else 0
        decreases todo
      {
        var m :| m in todo;
        var d := BuildDigest(m, pending[m], at);
        OneModule(m, pending[m], at);
        digests := digests + [d];
        todo := todo - {m};
      }
    }
  }

  lemma OneModule(m: string, events: seq<Event>, at: Time)
    ensures DigestOf(m, events, at).moduleId == m
  {
  }

  lemma {:induction false} NoModules(events: seq<Event>)
    ensures Modules(events) == {} <==> events == []
    ensures events == [] ==> KeysOf(events) == {} && DistinctKeys(events)
  {
  }

  lemma KeysStayDistinct(window: seq<Event>, e: Event)
    requires DistinctKeys(window) && !InWindow(window, EventKey(e))
    ensures DistinctKeys(window + [e])
  {
    hide EventKey;
  }

  lemma DueGrows(channels: nat, flushed: seq<Batch>, b: Batch, s: Send)
    ensures DueCount(channels, flushed + [b], s) == DueCount(channels, flushed, s)
      + if s.channel < channels && !s.digest.Empty() && IsDigestOf(b, s.digest) then 1 else 0
  {
    assert (flushed + [b])[..|flushed|] == flushed;
  }

  method BuildDigest(m: string, events: seq<Event>, at: Time) returns (d: Digest)
    ensures d == DigestOf(m, events, at)
  {
    var opening, resolved := [], [];
    for i := 0 to |events|
      invariant opening == FindingsOf(events[..i], KIND_OPENED)
      invariant resolved == FindingsOf(events[..i], KIND_RESOLVED)
    {
      assert events[..i + 1][..i] == events[..i];
      if events[i].kind == KIND_OPENED {
        opening := opening + [events[i].finding];
      } else if events[i].kind == KIND_RESOLVED {
        resolved := resolved + [events[i].finding];
      }
    }
    assert events[..|events|] == events;
    var sorted := new Finding[|opening|](i requires 0 <= i < |opening| => opening[i]);
    assert sorted[..] == opening;
    SortBySeverity(sorted);
    d := Digest(m, sorted[..], resolved, at);
  }

  /** Every digest that is not empty is handed to every channel once. */
  method Deliveries(outbox: seq<Send>, digests: seq<Digest>, channels: nat) returns (sends: seq<Send>)
    ensures forall s: Send ::
      multiset(sends)[s] == multiset(outbox)[s]
        + if s.channel < channels && !s.digest.Empty() then multiset(digests)[s.digest] else 0
  {
    sends := outbox;
    for i := 0 to |digests|
      invariant forall s: Send ::
        multiset(sends)[s] == multiset(outbox)[s]
          + if s.channel < channels && !s.digest.Empty() then multiset(digests[..i])[s.digest] else 0
    {
      var d := digests[i];
      assert digests[..i + 1] == digests[..i] + [d];
      if d.Empty() {
        continue;
      }
      ghost var before := sends;
      for c := 0 to channels
        invariant forall s: Send ::
          multiset(sends)[s] == multiset(before)[s] + if s.digest == d && s.channel < c then 1 else 0
      {
        sends := sends + [Send(c, d)];
      }
    }
    assert digests[..|digests|] == digests;
  }

  /** The retry loop of one channel: `outcome(n)` is the channel's answer to attempt `n`, None for success.
      It stops at the first success, makes at most `retries` attempts, and reports the last error iff all failed. */
  method SendWithRetry(retries: nat, outcome: nat -> Option<string>) returns (attempts: nat, reported: Option<string>)
    requires retries > 0
    ensures 0 < attempts <= retries
    ensures forall n :: 0 <= n < attempts - 1 ==> outcome(n).Some?
    ensures reported == (if forall n :: 0 <= n < retries ==> outcome(n).Some? then outcome(retries - 1) else None)
    ensures reported.Some? ==> attempts == retries
    ensures reported == None ==> outcome(attempts - 1) == None
  {
    attempts := 0;
    var err: Option<string> := None;
    while attempts < retries
      invariant attempts <= retries
      invariant forall n :: 0 <= n < attempts ==> outcome(n).Some?
      invariant attempts > 0 ==> err == outcome(attempts - 1)
    {
      err := outcome(attempts);
      attempts := attempts + 1;
      if err == None {
        return attempts, None;
      }
    }
    reported := err;
  }
}
