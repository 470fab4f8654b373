/** What a scan does to a record, in plain terms, and what that means for a user's decision to suppress it. */
module Lifecycle {
  import opened Core
  import opened Stores
  import opened Reconcile
  import opened Meaning
  import opened Runs
  import opened Alternation
  import opened Clock

  /** The scan looks at this record: it is of the scanned module and target. */
  ghost predicate LooksAt(s: Step, rows: Table, k: Key)
    requires s.Scan?
  {
    k.moduleId == s.m.id && k in rows && rows[k].f.target == s.target
  }

  /** An acceptable finding of the scan about this key. */
  ghost predicate IsReport(s: Step, k: Key, f: Finding)
    requires s.Scan?
  {
    k.moduleId == s.m.id && f in s.reports && Accepted(f) && f.fingerprint == k.fingerprint
  }

  lemma ReportIsFound(owner: Owner, s: Step, k: Key)
    requires s.Scan? && CollectorOk(owner, s.m, s.target, s.reports) && k.moduleId == s.m.id
    ensures Reported(s.reports, k.fingerprint) <==> exists f :: IsReport(s, k, f)
    ensures forall f :: IsReport(s, k, f) ==> f == s.reports[Position(s.reports, k.fingerprint)]
  {
    hide Accepted;
    var p := Position(s.reports, k.fingerprint);
    if p >= 0 {
      assert IsReport(s, k, s.reports[p]);
    }
    forall f | IsReport(s, k, f) ensures p >= 0 && f == s.reports[p] {
      var i :| 0 <= i < |s.reports| && s.reports[i] == f;
      PositionUnique(s.reports, i);
    }
  }

  /** A reported record takes the report's texts and is seen now; a new one is open, a resolved one is open again, any
      other keeps the status its user gave it. */
  lemma ReportedExactly(owner: Owner, thresholds: string -> int, rows: Table, s: Step, k: Key, f: Finding)
    requires s.Scan? && StepOk(owner, thresholds, rows, s) && Owned(owner, rows) && Complete(s) && IsReport(s, k, f)
    ensures k in After(Memory, rows, s)
    ensures var r := After(Memory, rows, s)[k];
      && r.f.title == f.title && r.f.severity == f.severity && r.f.remediation == f.remediation
      && r.f.evidence == CapEvidence(f.evidence) && r.f.lastSeen == s.now && r.streak == 0
      && r.f.target == s.target && KeyOf(r) == k
      && (k !in rows ==>
            && r.f.status == Open && r.f.resolvedAt == None && r.f.groupId == None
            && r.f.check == f.check && r.f.firstSeen == s.now
            && forall i: nat :: i < |s.reports| && s.reports[i] == f && s.ids(i).Some? ==> r.f.id == s.ids(i).value)
      && (k in rows ==>
            var was := rows[k].f;
            && r.f.id == was.id && r.f.check == was.check
            && r.f.groupId == was.groupId && r.f.firstSeen == was.firstSeen
            && (if was.status == Resolved then r.f.status == Open && r.f.resolvedAt == None
                else r.f.status == was.status && r.f.resolvedAt == was.resolvedAt))
  {
    hide Plan, ApplyAll, Accepted, Position;
    assert Executed(s) == FullPlan(s);
    ReportIsFound(owner, s, k);
    ReconcileMeans(owner, rows, s.m, s.target, s.now, s.existing, s.reports, s.ids, k);
    forall i: nat | i < |s.reports| && s.reports[i] == f ensures i == Position(s.reports, k.fingerprint) {
      PositionUnique(s.reports, i);
    }
  }

  /** A record the scan looks at and does not report: resolved and suppressed ones stay as they are; an open or
      acknowledged one has been absent once more, and otherwise stays as it is, unless that reaches the module's
      threshold, when it is resolved now. */
  lemma UnreportedExactly(owner: Owner, thresholds: string -> int, rows: Table, s: Step, k: Key)
    requires s.Scan? && StepOk(owner, thresholds, rows, s) && Owned(owner, rows) && Complete(s)
    requires LooksAt(s, rows, k) && !exists f :: IsReport(s, k, f)
    ensures k in After(Memory, rows, s)
    ensures var r, r' := rows[k], After(Memory, rows, s)[k];
      && (r' == r <==> r.f.status == Resolved || r.f.status == Suppressed)
      && (r' != r ==>
            && r'.streak == r.streak + 1
            && r'.f == if r.streak + 1 < s.m.resolveAfter then r.f
                       else r.f.(status := Resolved, resolvedAt := Some(s.now)))
  {
    hide Plan, ApplyAll, Accepted, Position;
    assert Executed(s) == FullPlan(s);
    ReportIsFound(owner, s, k);
    ReconcileMeans(owner, rows, s.m, s.target, s.now, s.existing, s.reports, s.ids, k);
  }

  /** Nothing else changes, also if the scan is cut short. */
  lemma OthersExactly(owner: Owner, thresholds: string -> int, rows: Table, s: Step, k: Key)
    requires s.Scan? && StepOk(owner, thresholds, rows, s) && Owned(owner, rows)
    requires !LooksAt(s, rows, k) && !exists f :: IsReport(s, k, f)
    ensures Lookup(After(Memory, rows, s), k) == Lookup(rows, k)
  {
    hide After, CollectorOk, Accepted, Position, FreshWrite, Aged, Owned;
    CutScanMeans(owner, thresholds, rows, s, k);
    if k.moduleId == s.m.id {
      ReportIsFound(owner, s, k);
    }
  }

  // ---- suppression ----

  ghost predicate IsSuppressed(rows: Table, k: Key) {
    k in rows && rows[k].f.status == Suppressed
  }

  /** A scan, complete or cut short, keeps a suppressed record suppressed and says nothing about it; if it does not
      report it, it does not touch it at all. */
  lemma SuppressedIsLeftAlone(owner: Owner, thresholds: string -> int, rows: Table, s: Step, k: Key)
    requires s.Scan? && StepOk(owner, thresholds, rows, s) && Owned(owner, rows) && IsSuppressed(rows, k)
    ensures IsSuppressed(After(Memory, rows, s), k)
    ensures Trace(Executed(s), k) == []
    ensures (!exists f :: IsReport(s, k, f)) ==> Lookup(After(Memory, rows, s), k) == Lookup(rows, k)
  {
    hide After, CollectorOk, Accepted, Position, Owned, Executed, Trace;
    CutScanMeans(owner, thresholds, rows, s, k);
    StepTrace(owner, thresholds, rows, s, k);
    if k.moduleId == s.m.id {
      ReportIsFound(owner, s, k);
    }
  }

  /** From the moment a user suppresses a record until a user changes it again, it is suppressed in every table, and
      nothing is announced about it, whatever the scans report. */
  lemma {:induction false} SuppressionHolds(owner: Owner, thresholds: string -> int, run: seq<Step>, i: nat, k: Key)
    requires RunOk(owner, thresholds, run) && i < |run| && run[i] == SetStatus(k, Suppressed)
    requires k in State(Memory, run[..i])
    requires forall j :: i < j < |run| && run[j].SetStatus? ==> run[j].k != k
    ensures IsSuppressed(State(Memory, run), k)
    ensures RunOk(owner, thresholds, run[..i + 1]) && Trace(Log(run), k) == Trace(Log(run[..i + 1]), k)
  {
    hide StepOk, After, Executed, Trace;
    var n := |run| - 1;
    StateOwned(owner, thresholds, run[..n]);
    if i == n {
      assert run[..i + 1] == run;
      JustSuppressed(State(Memory, run[..n]), k);
    } else {
      assert run[..n][..i] == run[..i] && run[..n][..i + 1] == run[..i + 1];
      SuppressionHolds(owner, thresholds, run[..n], i, k);
      StaysSuppressed(owner, thresholds, State(Memory, run[..n]), run[n], k);
      TraceConcat(Log(run[..n]), Executed(run[n]), k);
    }
  }

  lemma JustSuppressed(rows: Table, k: Key)
    requires k in rows && Keyed(rows)
    ensures IsSuppressed(After(Memory, rows, SetStatus(k, Suppressed)), k)
  {
  }

  lemma StaysSuppressed(owner: Owner, thresholds: string -> int, rows: Table, s: Step, k: Key)
    requires StepOk(owner, thresholds, rows, s) && Owned(owner, rows) && IsSuppressed(rows, k)
    requires s.SetStatus? ==> s.k != k
    ensures IsSuppressed(After(Memory, rows, s), k) && Trace(Executed(s), k) == []
  {
    if s.Scan? {
      hide StepOk, After, Executed, Trace;
      SuppressedIsLeftAlone(owner, thresholds, rows, s, k);
    }
  }
}
