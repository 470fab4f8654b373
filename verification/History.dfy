/** The store is a function of the scan history: each record in closed form. */
module History {
  import opened Core
  import opened Stores
  import opened Reconcile
  import opened Meaning
  import opened Runs

  /** Scans only, none of them failed. */
  ghost predicate ErrorFreeScans(run: seq<Step>) {
    Cut(run) && forall s :: s in run ==> s.Scan? && Complete(s)
  }

  /** The scan validly reports the key. */
  ghost predicate Reports(s: Step, k: Key) {
    s.Scan? && s.m.id == k.moduleId && Reported(s.reports, k.fingerprint)
  }

  /** The scan looks at the module and target of the key. */
  ghost predicate Concerns(owner: Owner, s: Step, k: Key) {
    s.Scan? && s.m.id == k.moduleId && s.target == owner(k)
  }

  /** Index of the first and of the last scan reporting the key, -1 if there is none. */
  ghost function FirstReport(run: seq<Step>, k: Key): (i: int)
    ensures -1 <= i < |run|
    ensures i >= 0 ==> Reports(run[i], k)
    ensures forall j :: 0 <= j < |run| && (j < i || i < 0) ==> !Reports(run[j], k)
  {
    if run == [] then -1
    else
      var n := |run| - 1;
      var i := FirstReport(run[..n], k);
      if i >= 0 then i else if Reports(run[n], k) then n else -1
  }

  ghost function LastReport(run: seq<Step>, k: Key): (i: int)
    ensures -1 <= i < |run|
    ensures i >= 0 ==> Reports(run[i], k)
    ensures forall j :: i < j < |run| ==> !Reports(run[j], k)
  {
    if run == [] then -1
    else
      var n := |run| - 1;
      if Reports(run[n], k) then n else LastReport(run[..n], k)
  }

  /** How many scans of the key's target there are from index `from` on. */
  ghost function ScansSince(owner: Owner, run: seq<Step>, from: nat, k: Key): nat {
    if |run| <= from then 0
    else
      var n := |run| - 1;
      ScansSince(owner, run[..n], from, k) + if Concerns(owner, run[n], k) then 1 else 0
  }

  /** Trailing scans of the target that did not validly report the key. */
  ghost function Absences(owner: Owner, run: seq<Step>, k: Key): nat {
    ScansSince(owner, run, LastReport(run, k) + 1, k)
  }

  /** Time of the `nth` scan of the key's target after its last report. */
  ghost function AbsenceTime(owner: Owner, run: seq<Step>, nth: nat, k: Key): Time {
    if run == [] then 0
    else
      var n := |run| - 1;
      if Concerns(owner, run[n], k) && Absences(owner, run, k) == nth then run[n].now
      else AbsenceTime(owner, run[..n], nth, k)
  }

  ghost function LastFinding(run: seq<Step>, k: Key): Finding
    requires LastReport(run, k) >= 0
  {
    var s := run[LastReport(run, k)];
    s.reports[Position(s.reports, k.fingerprint)]
  }

  ghost function FirstFinding(run: seq<Step>, k: Key): Finding
    requires FirstReport(run, k) >= 0
  {
    var s := run[FirstReport(run, k)];
    s.reports[Position(s.reports, k.fingerprint)]
  }

  ghost function FirstId(run: seq<Step>, k: Key): string
    requires FirstReport(run, k) >= 0
  {
    var s := run[FirstReport(run, k)];
    IdAt(s.ids, Position(s.reports, k.fingerprint))
  }

  /** The record of a key as the history determines it. */
  ghost function Remembered(owner: Owner, thresholds: string -> int, run: seq<Step>, k: Key): Option<Record> {
    if LastReport(run, k) < 0 then None
    else
      var threshold := ResolveAfterOrDefault(thresholds(k.moduleId));
      var absences := Absences(owner, run, k);
      var gone := absences >= threshold;
      var first, last := FirstFinding(run, k), LastFinding(run, k);
      Some(Record(
        Finding(
          k.fingerprint, owner(k), first.check, last.title, last.severity, last.remediation, CapEvidence(last.evidence),
          FirstId(run, k), k.moduleId, if gone then Resolved else Open, None,
          run[FirstReport(run, k)].now, run[LastReport(run, k)].now,
          if gone then Some(AbsenceTime(owner, run, threshold, k)) else None),
        if gone then threshold else absences))
  }

  /** How the history of a key grows by one scan. */
  lemma HistoryStep(owner: Owner, run: seq<Step>, k: Key)
    requires run != []
    ensures var n := |run| - 1; var init, s := run[..n], run[n];
      && FirstReport(run, k)
        == (if FirstReport(init, k) >= 0 then FirstReport(init, k) else if Reports(s, k) then n else -1)
      && LastReport(run, k) == (if Reports(s, k) then n else LastReport(init, k))
      && Absences(owner, run, k) ==
           (if Reports(s, k) then 0 else Absences(owner, init, k) + if Concerns(owner, s, k) then 1 else 0)
      && (forall nth: nat :: AbsenceTime(owner, run, nth, k) ==
           if Concerns(owner, s, k) && Absences(owner, run, k) == nth then s.now else AbsenceTime(owner, init, nth, k))
  {
    hide Reports, Concerns;
  }

  /** After any error-free scans of any modules and targets, the table is exactly what the history says: a record
      exists iff its key was ever validly reported, its streak counts the trailing scans of its target without a
      report up to the threshold, and it is resolved iff the threshold was reached. */
  lemma {:induction false} StateIsRemembered(owner: Owner, thresholds: string -> int, run: seq<Step>, k: Key)
    requires RunOk(owner, thresholds, run) && ErrorFreeScans(run)
    ensures Lookup(State(Memory, run), k) == Remembered(owner, thresholds, run, k)
  {
    hide StepOk, FirstReport, LastReport, Absences, AbsenceTime, Plan;
    if run == [] {
      assert LastReport(run, k) < 0;
    } else {
      var n := |run| - 1;
      StateIsRemembered(owner, thresholds, run[..n], k);
      StateOwned(owner, thresholds, run[..n]);
      HistoryStep(owner, run, k);
      assert run[n] in run;
      RememberedStep(owner, thresholds, run, k);
    }
  }

  /** The last step of an error-free run, seen from one key. */
  lemma LastScan(owner: Owner, thresholds: string -> int, run: seq<Step>, k: Key)
    requires run != [] && RunOk(owner, thresholds, run) && ErrorFreeScans(run)
    requires Owned(owner, State(Memory, run[..|run| - 1]))
    ensures var s := run[|run| - 1];
      && s.Scan?
      && s.m.resolveAfter == thresholds(s.m.id)
      && Lookup(State(Memory, run), k)
        == Expected(s.m, s.target, s.now, State(Memory, run[..|run| - 1]), s.reports, s.ids, k)
      && (Reports(s, k) ==>
            var f := s.reports[Position(s.reports, k.fingerprint)];
            Concerns(owner, s, k) && f.target == s.target && f.fingerprint == k.fingerprint && CoreFieldsZero(f))
  {
    hide Plan, ApplyAll, Expected, CoreFieldsZero;
    var s := run[|run| - 1];
    assert s in run;
    assert Executed(s) == FullPlan(s);
    ReconcileMeans(owner, State(Memory, run[..|run| - 1]), s.m, s.target, s.now, s.existing, s.reports, s.ids, k);
    assert Reports(s, k) ==> s.reports[Position(s.reports, k.fingerprint)] in s.reports;
  }

  /** One scan takes the remembered record to the next remembered record. */
  lemma RememberedStep(owner: Owner, thresholds: string -> int, run: seq<Step>, k: Key)
    requires run != [] && RunOk(owner, thresholds, run) && ErrorFreeScans(run)
    requires var rows := State(Memory, run[..|run| - 1]);
      Owned(owner, rows) && Lookup(rows, k) == Remembered(owner, thresholds, run[..|run| - 1], k)
    ensures Lookup(State(Memory, run), k) == Remembered(owner, thresholds, run, k)
  {
    hide State, RunOk, ErrorFreeScans, Remembered, Expected, CoreFieldsZero;
    var rows := State(Memory, run[..|run| - 1]);
    LastScan(owner, thresholds, run, k);
    RememberedFromExpected(owner, thresholds, run, rows, k);
  }

  lemma RememberedFromExpected(owner: Owner, thresholds: string -> int, run: seq<Step>, rows: Table, k: Key)
    requires run != [] && Owned(owner, rows) && Lookup(rows, k) == Remembered(owner, thresholds, run[..|run| - 1], k)
    requires var s := run[|run| - 1];
      && s.Scan? && s.m.resolveAfter == thresholds(s.m.id)
      && (Reports(s, k) ==>
            var f := s.reports[Position(s.reports, k.fingerprint)];
            Concerns(owner, s, k) && f.target == s.target && f.fingerprint == k.fingerprint && CoreFieldsZero(f))
    ensures var s := run[|run| - 1];
      Expected(s.m, s.target, s.now, rows, s.reports, s.ids, k) == Remembered(owner, thresholds, run, k)
  {
    hide FirstReport, LastReport, Absences, AbsenceTime, Position;
    HistoryStep(owner, run, k);
  }
}
