/** A scan that fails half way returns an error, and nobody hears of the writes it made. */
module Dropped {
  import opened Core
  import opened Stores
  import opened Reconcile
  import opened Meaning
  import opened Runs
  import opened Alternation
  import Interleaving

  /** What is handed on about a key, scan by scan. */
  ghost function Heard(run: seq<Step>, k: Key): seq<Note>
    requires Cut(run)
  {
    Trace(Delivered(run, true), k)
  }

  lemma {:induction false} TracesSplit(run: seq<Step>, k: Key)
    requires Cut(run)
    ensures |Trace(Log(run), k)| == |Heard(run, k)| + |Trace(Delivered(run, false), k)|
  {
    hide Executed, Complete, Trace;
    UntouchedTrace([], k);
    if run != [] {
      var n := |run| - 1;
      TracesSplit(run[..n], k);
      TraceConcat(Log(run[..n]), Executed(run[n]), k);
      TraceConcat(Delivered(run[..n], true), Executed(run[n]), k);
      TraceConcat(Delivered(run[..n], false), Executed(run[n]), k);
      assert Delivered(run[..n], true) + [] == Delivered(run[..n], true);
      assert Delivered(run[..n], false) + [] == Delivered(run[..n], false);
    }
  }

  /** No failed scan changed whether the record is unresolved: it neither inserted, nor reopened, nor resolved it. */
  ghost predicate NothingDropped(run: seq<Step>, k: Key)
    requires Cut(run)
  {
    run == [] ||
    (var n := |run| - 1;
     && NothingDropped(run[..n], k)
     && (Complete(run[n]) ||
         Unresolved(Lookup(State(Memory, run[..n]), k)) == Unresolved(Lookup(State(Memory, run), k))))
  }

  lemma TransitionIsChange(before: Option<Record>, after: Option<Record>)
    ensures Transition(before, after) == Silent <==> Unresolved(before) == Unresolved(after)
  {
  }

  /** For each key of each run: everything that happened to it is heard, in order, exactly when no failed scan changed
      whether it is unresolved. */
  lemma {:induction false} HeardExactly(owner: Owner, thresholds: string -> int, run: seq<Step>, k: Key)
    requires RunOk(owner, thresholds, run)
    ensures Heard(run, k) == Trace(Log(run), k) <==> NothingDropped(run, k)
  {
    hide StepOk, After, Executed, Complete, Trace, Transition, Unresolved;
    UntouchedTrace([], k);
    if run != [] {
      var n := |run| - 1;
      var init, s := run[..n], run[n];
      HeardExactly(owner, thresholds, init, k);
      StateOwned(owner, thresholds, init);
      StepTrace(owner, thresholds, State(Memory, init), s, k);
      TransitionIsChange(Lookup(State(Memory, init), k), Lookup(State(Memory, run), k));
      TraceConcat(Log(init), Executed(s), k);
      TraceConcat(Delivered(init, true), Executed(s), k);
      assert Delivered(init, true) + [] == Delivered(init, true);
      TracesSplit(init, k);
      Extended(Heard(init, k), Trace(Log(init), k), Trace(Executed(s), k));
    }
  }

  lemma Extended(a: seq<Note>, b: seq<Note>, x: seq<Note>)
    requires |a| <= |b|
    ensures a + x == b + x <==> a == b
    ensures a == b + x <==> a == b && x == []
  {
    if a + x == b + x {
      assert a == (a + x)[..|a|] == (b + x)[..|b|] == b;
    }
    if x == [] {
      assert b + x == b;
    }
  }

  /** If that holds of every key, what was handed on adds up to the number of unresolved records. */
  lemma HeardConserves(owner: Owner, thresholds: string -> int, run: seq<Step>)
    requires RunOk(owner, thresholds, run) && forall k :: NothingDropped(run, k)
    ensures Count(Delivered(run, true), Opened) - Count(Delivered(run, true), Closed) == |OpenSet(State(Memory, run))|
  {
    hide State, RunOk, OpenSet, NothingDropped, Log, Delivered, Announced;
    NotificationConservation(owner, thresholds, run);
    LogSplits(run);
    forall k ensures Trace(Delivered(run, false), k) == [] {
      HeardExactly(owner, thresholds, run, k);
      TracesSplit(run, k);
    }
    SilentBalance(Delivered(run, false));
  }

  lemma {:induction false} SilentBalance(ws: seq<Write>)
    requires forall k :: Trace(ws, k) == []
    ensures Balance(ws) == 0
  {
    if ws != [] {
      var n := |ws| - 1;
      forall k ensures Trace(ws[..n], k) == [] {
        assert Trace(ws, k) == [];
      }
      assert Trace(ws, KeyOf(ws[n].rec)) == [];
      SilentBalance(ws[..n]);
    }
  }

  // ---- a lost opening ----

  lemma TwoReportsPlan(m: ModuleInfo, now: Time, f: Finding, g: Finding, ids: Ids)
    requires Accepted(f) && Accepted(g)
    ensures Plan(m, now, [], [f, g], ids) ==
      [Write(Inserted(m.id, now, f, IdAt(ids, 0)), Opened), Write(Inserted(m.id, now, g, IdAt(ids, 1)), Opened)]
  {
    assert [f, g][..1] == [f];
    Interleaving.FirstReportPlan(m, now, f, ids);
    assert PlanAbsent(ResolveAfterOrDefault(m.resolveAfter), now, [], Seen([f, g])) == [];
  }

  /** The failing input: a first scan with two findings, whose second write fails. One record is open, and nothing has
      been handed on about it; by `HeardExactly` no continuation of the run makes up for that. */
  lemma OpeningIsLost(owner: Owner, thresholds: string -> int, m: ModuleInfo, target: string, now: Time,
                      f: Finding, g: Finding, ids: Ids)
    returns (run: seq<Step>)
    requires m.resolveAfter == thresholds(m.id) && Accepted(f) && Accepted(g) && CollectorOk(owner, m, target, [f, g])
    ensures RunOk(owner, thresholds, run) && |run| == 1 && !Complete(run[0])
    ensures OpenSet(State(Memory, run)) == {Key(m.id, f.fingerprint)}
    ensures Delivered(run, true) == []
    ensures !NothingDropped(run, Key(m.id, f.fingerprint))
  {
    hide CollectorOk, Plan, Accepted;
    var s := Scan(m, target, now, [], [f, g], ids, 1);
    run := [s];
    TwoReportsPlan(m, now, f, g, ids);
    assert run[..0] == [];
    assert IsListing([], State(Memory, []), m.id, target);
    assert StepOk(owner, thresholds, State(Memory, []), s);
    var w := Write(Inserted(m.id, now, f, IdAt(ids, 0)), Opened);
    assert Executed(s) == [w];
    ApplyOne(Memory, map[], [], w);
    assert [] + [w] == [w];
    NoWrites(Memory, map[]);
    assert State(Memory, run) == map[Key(m.id, f.fingerprint) := w.rec];
  }
}
