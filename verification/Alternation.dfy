/** For each fingerprint, what a run announces alternates: opened, resolved, opened, and so on. */
module Alternation {
  import opened Core
  import opened Stores
  import opened Reconcile
  import opened Meaning
  import opened Runs

  /** The notes about one key, in order. */
  ghost function Trace(ws: seq<Write>, k: Key): seq<Note> {
    if ws == [] then []
    else
      var w := ws[|ws| - 1];
      Trace(ws[..|ws| - 1], k) + if KeyOf(w.rec) == k && w.note != Silent then [w.note] else []
  }

  ghost predicate Alternates(notes: seq<Note>) {
    forall i :: 0 <= i < |notes| ==> notes[i] == if i % 2 == 0 then Opened else Closed
  }

  lemma {:induction false} TraceConcat(ws: seq<Write>, vs: seq<Write>, k: Key)
    ensures Trace(ws + vs, k) == Trace(ws, k) + Trace(vs, k)
  {
    if vs == [] {
      assert ws + vs == ws;
    } else {
      var n := |vs| - 1;
      TraceConcat(ws, vs[..n], k);
      assert (ws + vs)[..|ws + vs| - 1] == ws + vs[..n];
    }
  }

  lemma {:induction false} UntouchedTrace(ws: seq<Write>, k: Key)
    requires forall w :: w in ws ==> KeyOf(w.rec) != k
    ensures Trace(ws, k) == []
  {
    if ws != [] {
      UntouchedTrace(ws[..|ws| - 1], k);
      assert ws[|ws| - 1] in ws;
    }
  }

  lemma {:induction false} WrittenTrace(ws: seq<Write>, k: Key, w: Write)
    requires UniqueKeys(ws) && w in ws && KeyOf(w.rec) == k
    ensures Trace(ws, k) == if w.note == Silent then [] else [w.note]
  {
    var n := |ws| - 1;
    if ws[n] == w {
      UntouchedTrace(ws[..n], k);
    } else {
      WrittenTrace(ws[..n], k, w);
    }
  }

  /** Within one scan a key is announced at most once, and the announcement is its change. */
  lemma ScanTrace(rows: Table, ws: seq<Write>, k: Key)
    requires UniqueKeys(ws) && Honest(rows, ws)
    ensures var change := Transition(Lookup(rows, k), Lookup(ApplyAll(Memory, rows, ws), k));
      Trace(ws, k) == if change == Silent then [] else [change]
  {
    hide Transition, ApplyAll, Lookup;
    TransitionSilent(Lookup(rows, k));
    ApplyUnique(rows, ws);
    if forall w :: w in ws ==> KeyOf(w.rec) != k {
      UntouchedTrace(ws, k);
    } else {
      var w :| w in ws && KeyOf(w.rec) == k;
      WrittenTrace(ws, k, w);
    }
  }

  lemma TransitionSilent(o: Option<Record>)
    ensures Transition(o, o) == Silent
  {
  }

  lemma StepTrace(owner: Owner, thresholds: string -> int, rows: Table, s: Step, k: Key)
    requires StepOk(owner, thresholds, rows, s) && Owned(owner, rows)
    ensures var change := Transition(Lookup(rows, k), Lookup(After(Memory, rows, s), k));
      Trace(Executed(s), k) == if change == Silent then [] else [change]
  {
    if s.Scan? {
      hide FullPlan, Transition;
      ScanWritesOk(owner, thresholds, rows, s);
      ScanTrace(rows, Executed(s), k);
    }
  }

  /** The notes about a key alternate, starting with opened, and the last one tells whether it is unresolved now.
      This holds for every run, with users acting in between and with scans cut short by errors. */
  lemma {:induction false} NotificationsAlternate(owner: Owner, thresholds: string -> int, run: seq<Step>, k: Key)
    requires RunOk(owner, thresholds, run)
    ensures Alternates(Trace(Log(run), k))
    ensures Unresolved(Lookup(State(Memory, run), k)) <==> |Trace(Log(run), k)| % 2 == 1
  {
    hide StepOk, After, Executed, Trace, Alternates, Transition, Unresolved;
    UntouchedTrace([], k);
    NothingAlternates();
    if run != [] {
      var n := |run| - 1;
      NotificationsAlternate(owner, thresholds, run[..n], k);
      StateOwned(owner, thresholds, run[..n]);
      StepTrace(owner, thresholds, State(Memory, run[..n]), run[n], k);
      TraceConcat(Log(run[..n]), Executed(run[n]), k);
      AlternationStep(Trace(Log(run[..n]), k), Lookup(State(Memory, run[..n]), k), Lookup(State(Memory, run), k));
    }
  }

  lemma AlternationStep(trace: seq<Note>, before: Option<Record>, after: Option<Record>)
    requires Alternates(trace) && (Unresolved(before) <==> |trace| % 2 == 1)
    ensures var change := Transition(before, after);
      var trace' := trace + if change == Silent then [] else [change];
      Alternates(trace') && (Unresolved(after) <==> |trace'| % 2 == 1)
  {
  }

  lemma NothingAlternates()
    ensures Alternates([]) && !Unresolved(None)
  {
  }

  /** A user status change stays silent, as it should, exactly when the record was not resolved. On a resolved
      record it reopens the problem without anybody being told. */
  lemma UserChangeIsSilentExactly(rows: Table, k: Key, next: Status)
    requires k in rows && UserStatus(next) && Keyed(rows)
    ensures var rows' := After(Memory, rows, SetStatus(k, next));
      && (Transition(Lookup(rows, k), Lookup(rows', k)) == Silent <==> rows[k].f.status != Resolved)
      && (rows[k].f.status == Resolved ==> Transition(Lookup(rows, k), Lookup(rows', k)) == Opened)
      && |OpenSet(rows')| - |OpenSet(rows)| == if rows[k].f.status == Resolved then 1 else 0
  {
    PutChangesOpenSet(rows, k, WithStatus(rows[k], next));
  }
}
