/** What a digest tells about a finding, against what the store holds at that moment. */
module Windows {
  import opened Core
  import opened Stores
  import opened Reconcile
  import opened Meaning
  import opened Alternation
  import opened Dispatch
  import opened DispatchRuns
  import opened Bridge
  import Dropped
  import Interleaving
  import Runs

  /** Engine and dispatcher together: the scans and user changes so far, the events their results still have to
      enqueue, the dispatcher, and the events offered to it before and since its last flush. */
  datatype Joint = Joint(run: seq<Runs.Step>, waiting: seq<Event>, d: State, past: seq<Event>, recent: seq<Event>)

  /** A flush comes from the timer at any moment, also between two events of one result. */
  datatype Move = EngineStep(s: Runs.Step) | Offer(at: Time) | TimerFlush(at: Time)

  const START := Joint([], [], INITIAL, [], [])

  /** The events of a step's result; a scan that failed has none. */
  ghost function StepEvents(s: Runs.Step): seq<Event> {
    if s.Scan? && Runs.Complete(s) then
      var plan := Runs.FullPlan(s);
      EventsFor(s.m.id, KIND_OPENED, Announced(plan, Opened))
        + EventsFor(s.m.id, KIND_RESOLVED, Announced(plan, Closed))
    else []
  }

  ghost function Moved(c: Config, j: Joint, mv: Move): Joint {
    match mv
    case EngineStep(s) => j.(run := j.run + [s], waiting := j.waiting + StepEvents(s))
    case Offer(at) =>
      if j.waiting == [] then j
      else
        var d := AfterEnqueue(c, j.d, j.waiting[0], at);
        var offered := j.(waiting := j.waiting[1..], d := d, recent := j.recent + [j.waiting[0]]);
        if |d.flushed| > |j.d.flushed| then Renewed(offered) else offered
    case TimerFlush(at) => Renewed(j.(d := AfterFlush(j.d, at)))
  }

  ghost function Renewed(j: Joint): Joint {
    j.(past := j.past + j.recent, recent := [])
  }

  ghost function Reached(c: Config, moves: seq<Move>): Joint {
    if moves == [] then START else Moved(c, Reached(c, moves[..|moves| - 1]), moves[|moves| - 1])
  }

  // ---- events as notes ----

  predicate OfKey(e: Event, k: Key) {
    e.moduleId == k.moduleId && e.finding.fingerprint == k.fingerprint
  }

  function NoteOf(e: Event): Note {
    if e.kind == KIND_OPENED then Opened else if e.kind == KIND_RESOLVED then Closed else Silent
  }

  /** What events say about one key, in order. */
  function Notes(events: seq<Event>, k: Key): seq<Note> {
    if events == [] then []
    else
      var n := |events| - 1;
      Notes(events[..n], k) + if OfKey(events[n], k) then [NoteOf(events[n])] else []
  }

  lemma {:induction false} NotesConcat(a: seq<Event>, b: seq<Event>, k: Key)
    ensures Notes(a + b, k) == Notes(a, k) + Notes(b, k)
  {
    hide OfKey, NoteOf;
    if b == [] {
      assert a + b == a;
    } else {
      var n := |b| - 1;
      NotesConcat(a, b[..n], k);
      assert (a + b)[..|a + b| - 1] == a + b[..n];
    }
  }

  lemma NotesOne(events: seq<Event>, e: Event, k: Key)
    ensures Notes(events + [e], k) == Notes(events, k) + if OfKey(e, k) then [NoteOf(e)] else []
  {
    assert (events + [e])[..|events|] == events;
  }

  /** The notes of one kind. */
  function Only(notes: seq<Note>, note: Note): seq<Note> {
    if notes == [] then []
    else Only(notes[..|notes| - 1], note) + if notes[|notes| - 1] == note then [note] else []
  }

  lemma {:induction false} AnnouncedNotes(ws: seq<Write>, m: string, kind: string, note: Note, k: Key)
    requires forall w :: w in ws ==> KeyOf(w.rec).moduleId == m
    requires (kind == KIND_OPENED && note == Opened) || (kind == KIND_RESOLVED && note == Closed)
    ensures Notes(EventsFor(m, kind, Announced(ws, note)), k) == Only(Trace(ws, k), note)
  {
    hide EventsFor, Trace, Notes, Only, Announced, OfKey, NoteOf;
    if ws == [] {
      NothingNoted(m, kind, note, k);
    } else {
      var n := |ws| - 1;
      var w := ws[n];
      assert ws == ws[..n] + [w] && w in ws;
      AnnouncedNotes(ws[..n], m, kind, note, k);
      AnnouncedOne(ws[..n], w, note);
      TraceOne(ws, k);
      OnlyOne(Trace(ws[..n], k), w.note, note);
      EventsForOne(m, kind, Announced(ws[..n], note), w.rec.f);
      NotesOne(EventsFor(m, kind, Announced(ws[..n], note)), Event(kind, m, w.rec.f), k);
      EventOfWrite(m, kind, note, w, k);
      assert Announced(ws[..n], note) + [] == Announced(ws[..n], note);
    }
  }

  lemma NothingNoted(m: string, kind: string, note: Note, k: Key)
    ensures Notes(EventsFor(m, kind, Announced([], note)), k) == [] && Only(Trace([], k), note) == []
  {
  }

  lemma EventOfWrite(m: string, kind: string, note: Note, w: Write, k: Key)
    requires KeyOf(w.rec).moduleId == m
    requires (kind == KIND_OPENED && note == Opened) || (kind == KIND_RESOLVED && note == Closed)
    ensures NoteOf(Event(kind, m, w.rec.f)) == note
    ensures OfKey(Event(kind, m, w.rec.f), k) <==> KeyOf(w.rec) == k
  {
    assert |KIND_OPENED| != |KIND_RESOLVED|;
  }

  lemma NoEventsFor(m: string, kind: string, k: Key)
    ensures EventsFor(m, kind, []) == [] && Notes([], k) == []
  {
  }

  lemma EventsForOne(m: string, kind: string, fs: seq<Finding>, f: Finding)
    ensures EventsFor(m, kind, fs + [f]) == EventsFor(m, kind, fs) + [Event(kind, m, f)]
  {
  }

  lemma TraceOne(ws: seq<Write>, k: Key)
    requires ws != []
    ensures var n := |ws| - 1;
      Trace(ws, k) == Trace(ws[..n], k) + if KeyOf(ws[n].rec) == k && ws[n].note != Silent then [ws[n].note] else []
  {
  }

  lemma OnlyOne(notes: seq<Note>, x: Note, note: Note)
    ensures Only(notes + [x], note) == Only(notes, note) + if x == note then [note] else []
    ensures Only(notes + [], note) == Only(notes, note)
  {
    assert (notes + [x])[..|notes|] == notes;
    assert notes + [] == notes;
  }

  lemma OnlyOfOne(x: Note)
    requires x != Silent
    ensures Only([x], Opened) + Only([x], Closed) == [x]
    ensures Only([], Opened) + Only([], Closed) == []
  {
    assert [x][..0] == [];
  }

  lemma ScanOnlyTouchesModule(owner: Owner, thresholds: string -> int, rows: Table, s: Runs.Step)
    requires s.Scan? && Runs.StepOk(owner, thresholds, rows, s)
    ensures forall w :: w in Runs.FullPlan(s) ==> KeyOf(w.rec).moduleId == s.m.id
  {
    hide Plan;
    forall w | w in Runs.FullPlan(s) ensures KeyOf(w.rec).moduleId == s.m.id {
      PlanKeys(owner, rows, s.m, s.target, s.now, s.existing, s.reports, s.ids, w);
    }
  }

  /** A step's events about a key are exactly its notes about it, unless they are dropped. */
  lemma StepNotes(owner: Owner, thresholds: string -> int, rows: Table, s: Runs.Step, k: Key)
    requires Runs.StepOk(owner, thresholds, rows, s) && Owned(owner, rows)
    ensures Notes(StepEvents(s), k) == if Runs.Complete(s) then Trace(Runs.Executed(s), k) else []
  {
    hide Plan, EventsFor, Announced, Transition, Trace, Runs.StepOk, Only;
    NoEventsFor("", "", k);
    UntouchedTrace([], k);
    if s.Scan? && Runs.Complete(s) {
      var plan := Runs.FullPlan(s);
      assert Runs.Executed(s) == plan;
      ScanOnlyTouchesModule(owner, thresholds, rows, s);
      AnnouncedNotes(plan, s.m.id, KIND_OPENED, Opened, k);
      AnnouncedNotes(plan, s.m.id, KIND_RESOLVED, Closed, k);
      NotesConcat(EventsFor(s.m.id, KIND_OPENED, Announced(plan, Opened)),
                  EventsFor(s.m.id, KIND_RESOLVED, Announced(plan, Closed)), k);
      StepTrace(owner, thresholds, rows, s, k);
      if Trace(plan, k) != [] {
        OnlyOfOne(Trace(plan, k)[0]);
      } else {
        OnlyOfOne(Opened);
      }
    }
  }

  // ---- the window, seen from one key ----

  predicate Plain(e: Event) {
    PlainKind(e.kind) && '|' !in e.moduleId
  }

  /** Module names without the delimiter, and nothing about the key below the minimum severity. */
  ghost predicate Known(c: Config, s: Runs.Step, k: Key) {
    && (s.Scan? ==> '|' !in s.m.id)
    && forall e :: e in StepEvents(s) && OfKey(e, k) ==> SevereEnough(c, e)
  }

  /** A window keeps the first opening and the first closure of a key, so the first two of alternating notes. */
  function Firsts(notes: seq<Note>): seq<Note> {
    if |notes| <= 2 then notes else notes[..2]
  }

  ghost predicate Inv(c: Config, j: Joint, k: Key)
    requires Runs.Cut(j.run)
  {
    && !j.d.closed
    && (forall e :: e in j.waiting ==> Plain(e) && (OfKey(e, k) ==> SevereEnough(c, e)))
    && (forall e :: e in j.d.window ==> Plain(e))
    && Notes(j.past, k) + Notes(j.recent, k) + Notes(j.waiting, k) == Trace(Runs.Log(j.run), k)
    && Notes(j.d.window, k) == Firsts(Notes(j.recent, k))
  }

  lemma FirstsStep(p: seq<Note>, r: seq<Note>, n: Note, w: seq<Note>)
    requires Alternates(p + (r + [n]) + w)
    ensures Firsts(r + [n]) == Firsts(r) + if n in Firsts(r) then [] else [n]
  {
    var t := p + (r + [n]) + w;
    assert t[|p| + |r|] == n;
    if |r| >= 1 {
      assert t[|p|] == r[0] && t[|p| + 1] == (r + [n])[1];
    }
  }

  lemma {:induction false} NotesMembers(events: seq<Event>, k: Key, n: Note)
    ensures n in Notes(events, k) <==> exists i :: 0 <= i < |events| && OfKey(events[i], k) && NoteOf(events[i]) == n
  {
    hide OfKey, NoteOf;
    if events != [] {
      var m := |events| - 1;
      NotesMembers(events[..m], k, n);
      if i :| 0 <= i < m && OfKey(events[i], k) && NoteOf(events[i]) == n {
        assert events[..m][i] == events[i];
      }
      if i :| 0 <= i < m && OfKey(events[..m][i], k) && NoteOf(events[..m][i]) == n {
        assert events[..m][i] == events[i];
      }
    }
  }

  lemma InWindowIsNoted(window: seq<Event>, e: Event, k: Key)
    requires Plain(e) && OfKey(e, k) && forall x :: x in window ==> Plain(x)
    ensures InWindow(window, EventKey(e)) <==> NoteOf(e) in Notes(window, k)
  {
    hide EventKey;
    NotesMembers(window, k, NoteOf(e));
    forall i | 0 <= i < |window|
      ensures EventKey(window[i]) == EventKey(e) <==> OfKey(window[i], k) && NoteOf(window[i]) == NoteOf(e)
    {
      assert window[i] in window;
      KeyIsExact(window[i], e);
      assert |KIND_OPENED| != |KIND_RESOLVED|;
    }
  }

  /** The window after an event was offered, before it may be flushed. */
  function Grown(c: Config, s: State, e: Event): seq<Event> {
    s.window + if Accepts(c, s, e) then [e] else []
  }

  lemma OfferedWindow(c: Config, s: State, e: Event, at: Time)
    ensures var s' := AfterEnqueue(c, s, e, at);
      && s'.closed == s.closed
      && (if |s'.flushed| > |s.flushed| then s'.window == [] && s'.flushed == s.flushed + [Batch(Grown(c, s, e), at)]
          else s'.window == Grown(c, s, e) && s'.flushed == s.flushed)
  {
    hide Accepts;
  }

  lemma NotesHead(events: seq<Event>, k: Key)
    requires events != []
    ensures Notes(events, k) == Notes([events[0]], k) + Notes(events[1..], k)
  {
    NotesConcat([events[0]], events[1..], k);
    assert events == [events[0]] + events[1..];
  }

  lemma Regroup(p: seq<Note>, r: seq<Note>, x: seq<Note>, w: seq<Note>)
    ensures p + r + (x + w) == p + (r + x) + w
  {
  }

  lemma OfferedNotes(c: Config, j: Joint, k: Key)
    requires Runs.Cut(j.run) && Inv(c, j, k) && j.waiting != []
    ensures Notes(j.past, k) + Notes(j.recent + [j.waiting[0]], k) + Notes(j.waiting[1..], k)
        == Trace(Runs.Log(j.run), k)
  {
    hide Notes, Trace, Firsts, OfKey, Plain, SevereEnough, Runs.Cut, Runs.Log;
    var e, rest := j.waiting[0], j.waiting[1..];
    NotesHead(j.waiting, k);
    NotesConcat(j.recent, [e], k);
    Regroup(Notes(j.past, k), Notes(j.recent, k), Notes([e], k), Notes(rest, k));
  }

  lemma GrownNotes(c: Config, j: Joint, k: Key)
    requires Runs.Cut(j.run) && Inv(c, j, k) && j.waiting != [] && Alternates(Trace(Runs.Log(j.run), k))
    ensures Notes(Grown(c, j.d, j.waiting[0]), k) == Firsts(Notes(j.recent + [j.waiting[0]], k))
    ensures forall x :: x in Grown(c, j.d, j.waiting[0]) ==> Plain(x)
  {
    hide Notes, EventKey, InWindow, Alternates, Trace, Firsts, OfKey, NoteOf, Plain, SevereEnough, Accepts, Runs.Log;
    var e := j.waiting[0];
    assert e in j.waiting;
    OfferedNotes(c, j, k);
    NotesOne(j.recent, e, k);
    NotesOne(j.d.window, e, k);
    assert j.d.window + [] == j.d.window;
    if OfKey(e, k) {
      FirstsStep(Notes(j.past, k), Notes(j.recent, k), NoteOf(e), Notes(j.waiting[1..], k));
      InWindowIsNoted(j.d.window, e, k);
      AcceptedOfKey(c, j.d, e);
      assert Firsts(Notes(j.recent, k)) + [] == Firsts(Notes(j.recent, k));
    } else {
      assert Notes(j.recent, k) + [] == Notes(j.recent, k);
      assert Notes(j.d.window, k) + [] == Notes(j.d.window, k);
    }
  }

  lemma AcceptedOfKey(c: Config, s: State, e: Event)
    requires !s.closed && SevereEnough(c, e)
    ensures Accepts(c, s, e) <==> !InWindow(s.window, EventKey(e))
  {
    hide EventKey, InWindow;
  }

  // ---- every run of engine and dispatcher ----

  /** The engine's run, as far as one key is concerned: no failed scan dropped anything about it. */
  ghost predicate Followed(owner: Owner, thresholds: string -> int, c: Config, run: seq<Runs.Step>, k: Key) {
    && Runs.RunOk(owner, thresholds, run)
    && Dropped.NothingDropped(run, k)
    && forall s :: s in run ==> Known(c, s, k)
  }

  lemma FollowedBefore(owner: Owner, thresholds: string -> int, c: Config, run: seq<Runs.Step>, s: Runs.Step, k: Key)
    requires Followed(owner, thresholds, c, run + [s], k)
    ensures Followed(owner, thresholds, c, run, k) && Known(c, s, k)
    ensures Runs.StepOk(owner, thresholds, Runs.State(Memory, run), s)
    ensures var rows, rows' := Runs.State(Memory, run), Runs.State(Memory, run + [s]);
      Runs.Complete(s) || Unresolved(Lookup(rows, k)) == Unresolved(Lookup(rows', k))
    ensures Runs.Log(run + [s]) == Runs.Log(run) + Runs.Executed(s)
    ensures Runs.State(Memory, run + [s]) == Runs.After(Memory, Runs.State(Memory, run), s)
  {
    hide Known, Runs.StepOk, Runs.After, Runs.Complete, Runs.Executed;
    assert (run + [s])[..|run|] == run;
    assert forall x :: x in run ==> x in run + [s];
    assert s in run + [s];
  }

  lemma StepEventsPlain(c: Config, s: Runs.Step, k: Key)
    requires Known(c, s, k)
    ensures forall e :: e in StepEvents(s) ==> Plain(e)
  {
    hide Plan, Announced, Runs.Complete;
    if s.Scan? && Runs.Complete(s) {
      var plan := Runs.FullPlan(s);
      EventsForPlain(s.m.id, KIND_OPENED, Announced(plan, Opened));
      EventsForPlain(s.m.id, KIND_RESOLVED, Announced(plan, Closed));
    }
  }

  lemma EventsForPlain(m: string, kind: string, fs: seq<Finding>)
    requires PlainKind(kind) && '|' !in m
    ensures forall e :: e in EventsFor(m, kind, fs) ==> Plain(e)
  {
  }

  lemma EngineKeepsInv(owner: Owner, thresholds: string -> int, c: Config, j: Joint, s: Runs.Step, k: Key)
    requires Followed(owner, thresholds, c, j.run + [s], k) && Runs.RunOk(owner, thresholds, j.run) && Inv(c, j, k)
    ensures Inv(c, Moved(c, j, EngineStep(s)), k)
  {
    hide Known, Notes, Trace, Firsts, Transition, Unresolved, StepEvents, Runs.StepOk, Runs.After, Runs.State,
      Runs.RunOk, Runs.Executed, Runs.Complete, Runs.Log, Plain, SevereEnough, OfKey;
    FollowedBefore(owner, thresholds, c, j.run, s, k);
    var rows := Runs.State(Memory, j.run);
    Runs.StateOwned(owner, thresholds, j.run);
    StepTrace(owner, thresholds, rows, s, k);
    Dropped.TransitionIsChange(Lookup(rows, k), Lookup(Runs.State(Memory, j.run + [s]), k));
    StepNotes(owner, thresholds, rows, s, k);
    TraceConcat(Runs.Log(j.run), Runs.Executed(s), k);
    NotesConcat(j.waiting, StepEvents(s), k);
    StepEventsPlain(c, s, k);
    KnownEvents(c, s, k);
    var p, r, w, x := Notes(j.past, k), Notes(j.recent, k), Notes(j.waiting, k), Notes(StepEvents(s), k);
    assert p + r + (w + x) == p + r + w + x;
  }

  lemma KnownEvents(c: Config, s: Runs.Step, k: Key)
    requires Known(c, s, k)
    ensures forall e :: e in StepEvents(s) ==> OfKey(e, k) ==> SevereEnough(c, e)
  {
  }

  lemma OfferKeepsInv(c: Config, j: Joint, at: Time, k: Key)
    requires Runs.Cut(j.run) && Inv(c, j, k) && Alternates(Trace(Runs.Log(j.run), k))
    ensures Inv(c, Moved(c, j, Offer(at)), k)
  {
    hide Notes, Trace, Firsts, Plain, SevereEnough, OfKey, Accepts, AfterEnqueue, Alternates, Runs.Log, Grown;
    if j.waiting != [] {
      var e := j.waiting[0];
      OfferedNotes(c, j, k);
      GrownNotes(c, j, k);
      OfferedWindow(c, j.d, e, at);
      NotesConcat(j.past, j.recent + [e], k);
      NoNotes(k);
      var ns := Notes(j.past + (j.recent + [e]), k);
      assert ns + [] == ns;
    }
  }

  lemma NoNotes(k: Key)
    ensures Notes([], k) == [] && Firsts([]) == []
  {
  }

  lemma FlushKeepsInv(c: Config, j: Joint, at: Time, k: Key)
    requires Runs.Cut(j.run) && Inv(c, j, k)
    ensures Inv(c, Moved(c, j, TimerFlush(at)), k)
  {
    hide Notes, Trace, Firsts, Plain, SevereEnough, OfKey, Runs.Log;
    NotesConcat(j.past, j.recent, k);
    NoNotes(k);
    assert Notes(j.past + j.recent, k) + [] == Notes(j.past + j.recent, k);
  }

  lemma {:induction false} ReachedInv(owner: Owner, thresholds: string -> int, c: Config, moves: seq<Move>, k: Key)
    requires Followed(owner, thresholds, c, Reached(c, moves).run, k)
    ensures Inv(c, Reached(c, moves), k)
  {
    hide Followed, Inv;
    if moves == [] {
      StartInv(c, k);
    } else {
      var j, mv := Reached(c, moves[..|moves| - 1]), moves[|moves| - 1];
      if mv.EngineStep? {
        FollowedBefore(owner, thresholds, c, j.run, mv.s, k);
      }
      assert Followed(owner, thresholds, c, j.run, k);
      ReachedInv(owner, thresholds, c, moves[..|moves| - 1], k);
      FollowedAlternates(owner, thresholds, c, j.run, k);
      match mv
      case EngineStep(s) => EngineKeepsInv(owner, thresholds, c, j, s, k);
      case Offer(at) => OfferKeepsInv(c, j, at, k);
      case TimerFlush(at) => FlushKeepsInv(c, j, at, k);
    }
  }

  lemma StartInv(c: Config, k: Key)
    ensures Inv(c, START, k)
  {
  }

  lemma FollowedAlternates(owner: Owner, thresholds: string -> int, c: Config, run: seq<Runs.Step>, k: Key)
    requires Followed(owner, thresholds, c, run, k)
    ensures Runs.RunOk(owner, thresholds, run) && Alternates(Trace(Runs.Log(run), k))
    ensures Unresolved(Lookup(Runs.State(Memory, run), k)) <==> |Trace(Runs.Log(run), k)| % 2 == 1
  {
    hide Runs.RunOk, Runs.State, Runs.Log, Trace;
    NotificationsAlternate(owner, thresholds, run, k);
  }

  // ---- what the digest says ----

  /** The digest that a batch produces for the module of a key, and whether it lists the key's finding. */
  function DigestFor(b: Batch, k: Key): Digest {
    DigestOf(k.moduleId, OfModule(b.events, k.moduleId), b.at)
  }

  predicate Lists(fs: seq<Finding>, k: Key) {
    exists i :: 0 <= i < |fs| && fs[i].fingerprint == k.fingerprint
  }

  lemma {:induction false} MatchingNoted(events: seq<Event>, k: Key, kind: string, note: Note)
    requires (kind == KIND_OPENED && note == Opened) || (kind == KIND_RESOLVED && note == Closed)
    ensures Lists(Matching(events, k.moduleId, kind), k) <==> note in Notes(events, k)
  {
    hide Matching;
    if events == [] {
      NothingMatches([], k.moduleId, kind);
    } else {
      var n := |events| - 1;
      var e := events[n];
      MatchingNoted(events[..n], k, kind, note);
      MatchingGrows(events, k.moduleId, kind);
      assert |KIND_OPENED| != |KIND_RESOLVED|;
      ListsOne(Matching(events[..n], k.moduleId, kind), e.finding, k);
      assert Matching(events[..n], k.moduleId, kind) + [] == Matching(events[..n], k.moduleId, kind);
    }
  }

  lemma ListsOne(fs: seq<Finding>, f: Finding, k: Key)
    ensures Lists(fs + [f], k) <==> Lists(fs, k) || f.fingerprint == k.fingerprint
  {
    if i :| 0 <= i < |fs| && fs[i].fingerprint == k.fingerprint {
      assert (fs + [f])[i].fingerprint == k.fingerprint;
    }
    if f.fingerprint == k.fingerprint {
      assert (fs + [f])[|fs|].fingerprint == k.fingerprint;
    }
  }

  lemma ListsPermuted(fs: seq<Finding>, gs: seq<Finding>, k: Key)
    requires multiset(fs) == multiset(gs)
    ensures Lists(fs, k) <==> Lists(gs, k)
  {
    if i :| 0 <= i < |fs| && fs[i].fingerprint == k.fingerprint {
      assert fs[i] in multiset(gs);
      var j :| 0 <= j < |gs| && gs[j] == fs[i];
    }
    if i :| 0 <= i < |gs| && gs[i].fingerprint == k.fingerprint {
      assert gs[i] in multiset(fs);
      var j :| 0 <= j < |fs| && fs[j] == gs[i];
    }
  }

  lemma {:induction false} NotedModule(events: seq<Event>, k: Key)
    requires Notes(events, k) != []
    ensures k.moduleId in Modules(events)
  {
    var n := |events| - 1;
    if !OfKey(events[n], k) {
      NotedModule(events[..n], k);
    }
  }

  /** The digest lists a finding as opened iff an opening of it is in the batch, and as resolved iff a closure is. */
  lemma ListedIffNoted(b: Batch, k: Key)
    requires Notes(b.events, k) != []
    ensures IsDigestOf(b, DigestFor(b, k))
    ensures Lists(DigestFor(b, k).opening, k) <==> Opened in Notes(b.events, k)
    ensures Lists(DigestFor(b, k).resolved, k) <==> Closed in Notes(b.events, k)
  {
    hide DigestOf, Matching, Notes, Lists, Modules, OfModule;
    NotedModule(b.events, k);
    DigestContents(b, k.moduleId);
    MatchingNoted(b.events, k, KIND_OPENED, Opened);
    MatchingNoted(b.events, k, KIND_RESOLVED, Closed);
    ListsPermuted(DigestFor(b, k).opening, Matching(b.events, k.moduleId, KIND_OPENED), k);
  }

  ghost predicate Flushes(c: Config, j: Joint, mv: Move) {
    |Moved(c, j, mv).d.flushed| > |j.d.flushed|
  }

  function LastBatch(s: State): Batch
    requires s.flushed != []
  {
    s.flushed[|s.flushed| - 1]
  }

  predicate OneKind(notes: seq<Note>) {
    forall i, j :: 0 <= i < |notes| && 0 <= j < |notes| ==> notes[i] == notes[j]
  }

  /** The notes of a batch are the first ones of what was offered in its window, which stands between what was offered
      before and what still waits. */
  lemma BatchNotes(c: Config, j: Joint, mv: Move, k: Key) returns (p: seq<Note>, r: seq<Note>)
    requires Runs.Cut(j.run) && Inv(c, j, k) && Alternates(Trace(Runs.Log(j.run), k)) && Flushes(c, j, mv)
    ensures Moved(c, j, mv).run == j.run
    ensures p + r + Notes(Moved(c, j, mv).waiting, k) == Trace(Runs.Log(j.run), k)
    ensures Notes(LastBatch(Moved(c, j, mv).d).events, k) == Firsts(r)
  {
    hide Notes, Trace, Firsts, Plain, SevereEnough, OfKey, Accepts, AfterEnqueue, Alternates, Runs.Log, Grown;
    p := Notes(j.past, k);
    match mv
    case Offer(at) =>
      OfferedNotes(c, j, k);
      GrownNotes(c, j, k);
      OfferedWindow(c, j.d, j.waiting[0], at);
      r := Notes(j.recent + [j.waiting[0]], k);
    case TimerFlush(at) =>
      r := Notes(j.recent, k);
    case EngineStep(s) =>
  }

  /** Position and parity: a batch tells the truth about the end of an alternating sequence. */
  lemma FirstsTell(p: seq<Note>, r: seq<Note>, w: seq<Note>)
    requires Alternates(p + r + w) && r != []
    ensures var ns := Firsts(r); var now := |p + r + w| % 2 == 1;
      ((Opened in ns) != (Closed in ns) && (Opened in ns <==> now)) <==> OneKind(ns) && |w| % 2 == 0
  {
    var t := p + r + w;
    assert t[|p|] == r[0] == Firsts(r)[0];
    if |r| >= 2 {
      assert t[|p| + 1] == r[1] == Firsts(r)[1];
    }
  }

  /** For every run of scans, user changes, enqueued events and flushes, and every batch with something about a key in
      it: the digest lists the finding in exactly one of its two lists, and in the right one for the table at that
      moment, exactly when the events about it in that window are of one kind and those still waiting to be enqueued
      cancel out (between results, when nothing waits, exactly when they are of one kind). */
  lemma DigestIsRightExactly(owner: Owner, thresholds: string -> int, c: Config, moves: seq<Move>, mv: Move, k: Key)
    requires Followed(owner, thresholds, c, Reached(c, moves).run, k) && Flushes(c, Reached(c, moves), mv)
    requires Notes(LastBatch(Moved(c, Reached(c, moves), mv).d).events, k) != []
    ensures var j' := Moved(c, Reached(c, moves), mv); var b := LastBatch(j'.d); var dg := DigestFor(b, k);
      && IsDigestOf(b, dg)
      && (Lists(dg.opening, k) != Lists(dg.resolved, k)
          && (Lists(dg.opening, k) <==> Unresolved(Lookup(Runs.State(Memory, j'.run), k)))
          <==> OneKind(Notes(b.events, k)) && |Notes(j'.waiting, k)| % 2 == 0)
  {
    hide Followed, Inv, Lists, DigestOf, IsDigestOf, Trace, Runs.Log, Runs.State, Notes, Alternates, Firsts, OneKind,
      Unresolved, Moved;
    var j := Reached(c, moves);
    ReachedInv(owner, thresholds, c, moves, k);
    FollowedAlternates(owner, thresholds, c, j.run, k);
    var p, r := BatchNotes(c, j, mv, k);
    var j' := Moved(c, j, mv);
    ListedIffNoted(LastBatch(j'.d), k);
    FirstsOfNothing();
    FirstsTell(p, r, Notes(j'.waiting, k));
  }

  lemma FirstsOfNothing()
    ensures Firsts([]) == []
  {
  }

  // ---- a failing run ----

  /** A finding that is reported, gone, and reported again. */
  datatype Flap = Flap(m: ModuleInfo, target: string, f: Finding, t1: Time, t2: Time, t3: Time, ids: Ids) {
    function Subject(): Key {
      Key(m.id, f.fingerprint)
    }

    function First(): Write {
      Write(Inserted(m.id, t1, f, IdAt(ids, 0)), Opened)
    }

    function Gone(): Write {
      AbsentWrite(1, t2, First().rec)
    }

    function Back(): Write {
      FreshWrite(m.id, t3, Some(Gone().rec), f, IdAt(ids, 0))
    }

    ghost function Scan1(): Runs.Step {
      Runs.Scan(m, target, t1, [], [f], ids, 1)
    }

    ghost function Scan2(): Runs.Step {
      Runs.Scan(m, target, t2, [First().rec], [], ids, 1)
    }

    ghost function Scan3(): Runs.Step {
      Runs.Scan(m, target, t3, [Gone().rec], [f], ids, 1)
    }
  }

  lemma GonePlan(m: ModuleInfo, now: Time, r: Record, ids: Ids)
    requires !LeftAlone(r.f.status)
    ensures Plan(m, now, [r], [], ids) == [AbsentWrite(ResolveAfterOrDefault(m.resolveAfter), now, r)]
  {
    var k := ResolveAfterOrDefault(m.resolveAfter);
    assert [r][..0] == [];
    assert PlanAbsent(k, now, [], Seen([])) == [];
    assert PlanFresh(m.id, now, ByFingerprint([r]), [], ids) == [];
  }

  lemma BackPlan(m: ModuleInfo, now: Time, r: Record, f: Finding, ids: Ids)
    requires Accepted(f) && r.f.fingerprint == f.fingerprint
    ensures Plan(m, now, [r], [f], ids) == [FreshWrite(m.id, now, Some(r), f, IdAt(ids, 0))]
  {
    hide FreshWrite;
    assert [r][..0] == [] && [f][..0] == [];
    assert ByFingerprint([r]) == map[f.fingerprint := r];
    assert Seen([f]) == {f.fingerprint};
    assert PlanAbsent(ResolveAfterOrDefault(m.resolveAfter), now, [], Seen([f])) == [];
    assert PlanFresh(m.id, now, ByFingerprint([r]), [], ids) == [];
  }

  /** The engine's side of a complete scan that makes one write, and announces it. */
  lemma OneWriteScan(owner: Owner, thresholds: string -> int, run: seq<Runs.Step>, s: Runs.Step, w: Write)
    requires Runs.RunOk(owner, thresholds, run) && s.Scan? && s.done == 1 && Runs.FullPlan(s) == [w] && w.note != Silent
    requires Runs.StepOk(owner, thresholds, Runs.State(Memory, run), s)
    ensures Runs.RunOk(owner, thresholds, run + [s])
    ensures Runs.State(Memory, run + [s]) == Runs.State(Memory, run)[KeyOf(w.rec) := w.rec]
    ensures StepEvents(s) == [Event(if w.note == Opened then KIND_OPENED else KIND_RESOLVED, s.m.id, w.rec.f)]
  {
    hide Runs.StepOk, Plan;
    assert (run + [s])[..|run|] == run;
    assert Runs.Executed(s) == [w] == [] + [w];
    ApplyOne(Memory, Runs.State(Memory, run), [], w);
    NoWrites(Memory, Runs.State(Memory, run));
    AnnouncedOne([], w, Opened);
    AnnouncedOne([], w, Closed);
  }

  lemma FlapStepsOk(owner: Owner, thresholds: string -> int, x: Flap)
    requires x.m.resolveAfter == thresholds(x.m.id) == 1 && Accepted(x.f) && CollectorOk(owner, x.m, x.target, [x.f])
    ensures Runs.StepOk(owner, thresholds, map[], x.Scan1())
    ensures Runs.StepOk(owner, thresholds, map[x.Subject() := x.First().rec], x.Scan2())
    ensures Runs.StepOk(owner, thresholds, map[x.Subject() := x.Gone().rec], x.Scan3())
    ensures Runs.FullPlan(x.Scan1()) == [x.First()]
    ensures Runs.FullPlan(x.Scan2()) == [x.Gone()]
    ensures Runs.FullPlan(x.Scan3()) == [x.Back()]
  {
    hide Plan;
    Interleaving.FirstReportPlan(x.m, x.t1, x.f, x.ids);
    GonePlan(x.m, x.t2, x.First().rec, x.ids);
    BackPlan(x.m, x.t3, x.Gone().rec, x.f, x.ids);
    assert x.f in [x.f];
    assert CollectorOk(owner, x.m, x.target, []);
  }

  lemma FlapWrites(x: Flap)
    ensures KeyOf(x.First().rec) == KeyOf(x.Gone().rec) == KeyOf(x.Back().rec) == x.Subject()
    ensures x.First().note == x.Back().note == Opened && x.Gone().note == Closed
    ensures Unresolved(Some(x.Back().rec))
  {
  }

  lemma FlapShape(x: Flap)
    ensures x.Scan1().Scan? && x.Scan1().done == 1 && x.Scan1().m == x.m
    ensures x.Scan2().Scan? && x.Scan2().done == 1 && x.Scan2().m == x.m
    ensures x.Scan3().Scan? && x.Scan3().done == 1 && x.Scan3().m == x.m
  {
  }

  lemma EmptyRun(owner: Owner, thresholds: string -> int)
    ensures Runs.RunOk(owner, thresholds, []) && Runs.State(Memory, []) == map[]
  {
  }

  lemma FlapScans(owner: Owner, thresholds: string -> int, x: Flap)
    requires x.m.resolveAfter == thresholds(x.m.id) == 1 && Accepted(x.f) && CollectorOk(owner, x.m, x.target, [x.f])
    ensures var run := [x.Scan1(), x.Scan2(), x.Scan3()];
      && Runs.RunOk(owner, thresholds, run)
      && Runs.State(Memory, run) == map[x.Subject() := x.Back().rec] && Unresolved(Some(x.Back().rec))
    ensures StepEvents(x.Scan1()) == [Event(KIND_OPENED, x.m.id, x.First().rec.f)]
    ensures StepEvents(x.Scan2()) == [Event(KIND_RESOLVED, x.m.id, x.Gone().rec.f)]
    ensures StepEvents(x.Scan3()) == [Event(KIND_OPENED, x.m.id, x.Back().rec.f)]
  {
    hide Plan, Accepted, StepEvents, CollectorOk, Runs.StepOk, Runs.FullPlan, Flap.First, Flap.Gone, Flap.Back,
      Unresolved, Flap.Subject, Flap.Scan1, Flap.Scan2, Flap.Scan3, Runs.State, Runs.RunOk;
    var s1, s2, s3 := x.Scan1(), x.Scan2(), x.Scan3();
    FlapWrites(x);
    FlapStepsOk(owner, thresholds, x);
    FlapShape(x);
    EmptyRun(owner, thresholds);
    OneWriteScan(owner, thresholds, [], s1, x.First());
    assert [] + [s1] == [s1] && map[][x.Subject() := x.First().rec] == map[x.Subject() := x.First().rec];
    OneWriteScan(owner, thresholds, [s1], s2, x.Gone());
    assert [s1] + [s2] == [s1, s2];
    assert map[x.Subject() := x.First().rec][x.Subject() := x.Gone().rec] == map[x.Subject() := x.Gone().rec];
    OneWriteScan(owner, thresholds, [s1, s2], s3, x.Back());
    assert [s1, s2] + [s3] == [s1, s2, s3];
    assert map[x.Subject() := x.Gone().rec][x.Subject() := x.Back().rec] == map[x.Subject() := x.Back().rec];
  }

  lemma ScanAndOffer(c: Config, moves: seq<Move>, s: Runs.Step, e: Event, at: Time, j: Joint)
    requires Reached(c, moves) == j && j.waiting == [] && StepEvents(s) == [e] && |j.d.window| + 1 < c.maxBatch
    ensures Reached(c, moves + [EngineStep(s), Offer(at)]) ==
      j.(run := j.run + [s], d := j.d.(window := Grown(c, j.d, e)), recent := j.recent + [e])
  {
    hide Accepts, StepEvents;
    var m1, m2 := moves + [EngineStep(s)], moves + [EngineStep(s), Offer(at)];
    assert m1[..|moves|] == moves && m2[..|m1|] == m1;
    assert Reached(c, m1) == j.(run := j.run + [s], waiting := [e]);
    assert [e][1..] == [];
    assert j.d.window + [] == j.d.window;
  }

  lemma FlushAfter(c: Config, moves: seq<Move>, at: Time, j: Joint)
    requires Reached(c, moves) == j && j.d.window != []
    ensures Reached(c, moves + [TimerFlush(at)]) == Renewed(j.(d := AfterFlush(j.d, at)))
  {
    assert (moves + [TimerFlush(at)])[..|moves|] == moves;
  }

  /** Opened, resolved and opened again: the window keeps the first opening and the closure. */
  lemma FlapWindow(c: Config, o: Event, r: Event, o': Event)
    requires o.moduleId == r.moduleId == o'.moduleId
    requires o.finding.fingerprint == r.finding.fingerprint == o'.finding.fingerprint
    requires o.kind == o'.kind == KIND_OPENED && r.kind == KIND_RESOLVED && SevereEnough(c, o)
    ensures Grown(c, INITIAL, o) == [o]
    ensures Grown(c, INITIAL.(window := [o]), r) == [o, r]
    ensures Grown(c, INITIAL.(window := [o, r]), o') == [o, r]
  {
    hide EventKey, PassesSeverity;
    KeyWithinModule(o, r);
    KeyWithinModule(o, o');
    assert |KIND_OPENED| != |KIND_RESOLVED|;
    assert EventKey([o, r][0]) == EventKey(o');
    assert [o] + [r] == [o, r] && [o, r] + [] == [o, r] && [] + [o] == [o];
  }

  /** The failing input: a problem that opens, resolves and opens again within one window. Nothing is waiting, every
      scan succeeded, the problem is open in the store, and the digest lists it both as opened and as resolved. */
  lemma FlapConfuses(owner: Owner, thresholds: string -> int, c: Config, x: Flap, at: Time)
    returns (moves: seq<Move>, b: Batch)
    requires x.m.resolveAfter == thresholds(x.m.id) == 1 && Accepted(x.f) && CollectorOk(owner, x.m, x.target, [x.f])
    requires c.maxBatch > 3 && PassesSeverity(c, x.f.severity)
    ensures var j := Reached(c, moves);
      && Runs.RunOk(owner, thresholds, j.run) && (forall s :: s in j.run ==> Runs.Complete(s))
      && j.waiting == [] && j.d.flushed == [b]
      && IsDigestOf(b, DigestFor(b, x.Subject()))
      && Lists(DigestFor(b, x.Subject()).opening, x.Subject())
      && Lists(DigestFor(b, x.Subject()).resolved, x.Subject())
      && Unresolved(Lookup(Runs.State(Memory, j.run), x.Subject()))
  {
    hide StepEvents, Accepted, CollectorOk, PassesSeverity, Grown, Runs.RunOk, Runs.State, Unresolved, DigestFor, Lists,
      IsDigestOf, Runs.FullPlan, Reached, Moved, Notes;
    var s1, s2, s3 := x.Scan1(), x.Scan2(), x.Scan3();
    var o := Event(KIND_OPENED, x.m.id, x.First().rec.f);
    var r := Event(KIND_RESOLVED, x.m.id, x.Gone().rec.f);
    var o' := Event(KIND_OPENED, x.m.id, x.Back().rec.f);
    FlapScans(owner, thresholds, x);
    FlapComplete(owner, thresholds, x);
    FlapWindow(c, o, r, o');
    var two, four := [EngineStep(s1), Offer(at)], [EngineStep(s1), Offer(at)] + [EngineStep(s2), Offer(at)];
    var six := four + [EngineStep(s3), Offer(at)];
    assert Reached(c, []) == START by { NothingReached(c); }
    ScanAndOffer(c, [], s1, o, at, START);
    assert [] + two == two && [] + [s1] == [s1] && [] + [o] == [o];
    ScanAndOffer(c, two, s2, r, at, Joint([s1], [], INITIAL.(window := [o]), [], [o]));
    assert [s1] + [s2] == [s1, s2] && [o] + [r] == [o, r];
    ScanAndOffer(c, four, s3, o', at, Joint([s1, s2], [], INITIAL.(window := [o, r]), [], [o, r]));
    assert [s1, s2] + [s3] == [s1, s2, s3];
    moves := six + [TimerFlush(at)];
    FlushAfter(c, six, at, Joint([s1, s2, s3], [], INITIAL.(window := [o, r]), [], [o, r] + [o']));
    b := Batch([o, r], at);
    assert [] + [b] == [b];
    FlapNotes(x, o, r);
    ListedIffNoted(b, x.Subject());
  }

  lemma NothingReached(c: Config)
    ensures Reached(c, []) == START
  {
  }

  lemma FlapComplete(owner: Owner, thresholds: string -> int, x: Flap)
    requires x.m.resolveAfter == thresholds(x.m.id) == 1 && Accepted(x.f) && CollectorOk(owner, x.m, x.target, [x.f])
    ensures Runs.Complete(x.Scan1()) && Runs.Complete(x.Scan2()) && Runs.Complete(x.Scan3())
  {
    hide Plan, Accepted, CollectorOk;
    FlapStepsOk(owner, thresholds, x);
  }

  lemma FlapNotes(x: Flap, o: Event, r: Event)
    requires o == Event(KIND_OPENED, x.m.id, x.First().rec.f) && r == Event(KIND_RESOLVED, x.m.id, x.Gone().rec.f)
    ensures Notes([o, r], x.Subject()) == [Opened, Closed]
  {
    assert |KIND_OPENED| != |KIND_RESOLVED|;
    NotesOne([], o, x.Subject());
    NotesOne([o], r, x.Subject());
    assert [] + [o] == [o] && [o] + [r] == [o, r];
  }
}
