/** One certificate on its way to its end, through the collector, the engine and the notifications. */
module Countdown {
  import opened Core
  import opened Stores
  import opened Reconcile
  import opened Meaning
  import opened Runs
  import opened Alternation
  import opened History
  import opened Collector

  ghost predicate OnTarget(s: Step, t: Target) {
    s.Scan? && s.m.id == MODULE_ID && s.target == t.canonical
  }

  /** The scan reports what the collector finds on a connection that presents a certificate ending at `notAfter`. */
  ghost predicate Grades(s: Step, t: Target, notAfter: Time)
    requires s.Scan?
  {
    exists facts: Facts, probe: bool, details: Details ::
      facts.notAfter == notAfter && s.reports == Collected(t, facts, probe, s.now, details)
  }

  /** Any error-free scans of any modules and targets, in which the scans of `t` see one certificate at increasing
      times. */
  ghost predicate CertificateRun(run: seq<Step>, t: Target, notAfter: Time) {
    && ErrorFreeScans(run)
    && (forall i :: 0 <= i < |run| && OnTarget(run[i], t) ==> Grades(run[i], t, notAfter))
    && (forall i, j :: 0 <= i < j < |run| && OnTarget(run[i], t) && OnTarget(run[j], t) ==> run[i].now <= run[j].now)
  }

  ghost predicate TargetOk(t: Target) {
    t.canonical != ""
  }

  // ---- what a scan reports ----

  /** A scan of the certificate reports the countdown while it runs, the expiry after it, and never both. */
  lemma GradesReportsPhase(s: Step, t: Target, notAfter: Time)
    requires s.Scan? && Grades(s, t, notAfter) && TargetOk(t)
    ensures Reported(s.reports, ExpiryKey(t).fingerprint) <==> PhaseAt(notAfter, s.now) == Counting
    ensures Reported(s.reports, ExpiredKey(t).fingerprint) <==> PhaseAt(notAfter, s.now) == Over
  {
    hide Collected, CheckExpiry, Fingerprint, PhaseAt;
    var facts: Facts, probe: bool, details: Details :|
      facts.notAfter == notAfter && s.reports == Collected(t, facts, probe, s.now, details);
    CertificateChecksAreValid();
    assert '|' !in MODULE_ID && EXPIRED != EXPIRY;
    FingerprintIdentifiesAnyTarget(MODULE_ID, t.canonical, EXPIRY, "", MODULE_ID, t.canonical, EXPIRED, "");
    CollectedReports(t, facts, probe, s.now, details, EXPIRY);
    CollectedReports(t, facts, probe, s.now, details, EXPIRED);
    ExpiryLadder(t, notAfter, s.now, details);
    var found := CheckExpiry(t, notAfter, s.now, details);
    assert found != [] ==> found[0] in found;
  }

  lemma CollectedReports(t: Target, facts: Facts, probe: bool, now: Time, details: Details, check: string)
    requires TargetOk(t) && ValidCheck(check, 0)
    ensures var fp := Fingerprint(MODULE_ID, t.canonical, check, "");
      Reported(Collected(t, facts, probe, now, details), fp) <==>
        (exists f :: f in CheckExpiry(t, facts.notAfter, now, details) && f.fingerprint == fp)
  {
    hide Collected, CheckExpiry, Fingerprint, SectionOf, Accepted, WellFormed, CollectorOk;
    var fs := Collected(t, facts, probe, now, details);
    var fp := Fingerprint(MODULE_ID, t.canonical, check, "");
    CollectMeetsContract(t, facts, probe, now, details);
    CollectedIsGood(t, facts, probe, now, details);
    if Reported(fs, fp) {
      var f := fs[Position(fs, fp)];
      CheckOfFingerprint(t, f, check);
      assert f in CheckExpiry(t, facts.notAfter, now, details);
    }
    if f :| f in CheckExpiry(t, facts.notAfter, now, details) && f.fingerprint == fp {
      assert f in fs;
      var i :| 0 <= i < |fs| && fs[i] == f;
      DistinctReports(fs);
      PositionUnique(fs, i);
    }
  }

  lemma DistinctReports(fs: seq<Finding>)
    requires DistinctFingerprints(fs)
    ensures forall j, j' :: 0 <= j < j' < |fs| && Accepted(fs[j]) && Accepted(fs[j']) ==>
      fs[j].fingerprint != fs[j'].fingerprint
  {
    hide Accepted;
  }

  lemma CheckOfFingerprint(t: Target, f: Finding, check: string)
    requires WellFormed(t, f) && ValidCheck(check, 0) && f.fingerprint == Fingerprint(MODULE_ID, t.canonical, check, "")
    ensures f.check == check
  {
    hide Fingerprint, SectionOf;
    var d: Name :| f.fingerprint == Fingerprint(MODULE_ID, t.canonical, f.check, d);
    assert '|' !in MODULE_ID;
    FingerprintIdentifiesAnyTarget(MODULE_ID, t.canonical, check, "", MODULE_ID, t.canonical, f.check, d);
  }

  // ---- one key through one scan ----

  ghost function StatusOf(o: Option<Record>): Option<Status> {
    match o case None => None case Some(r) => Some(r.f.status)
  }

  /** The life of a status under a threshold of one. */
  ghost function NextStatus(before: Option<Status>, reported: bool): Option<Status> {
    if reported then
      if before == None || before == Some(Resolved) then Some(Open) else before
    else
      if before.Some? && !LeftAlone(before.value) then Some(Resolved) else before
  }

  lemma StatusStep(run: seq<Step>, thresholds: string -> int, t: Target, k: Key)
    requires run != [] && RunOk(OwnerOf, thresholds, run) && ErrorFreeScans(run) && thresholds(MODULE_ID) == 1
    requires k.moduleId == MODULE_ID && OwnerOf(k) == t.canonical
    ensures run[|run| - 1].Scan?
    ensures var s := run[|run| - 1]; var before := StatusOf(Lookup(State(Memory, run[..|run| - 1]), k));
      StatusOf(Lookup(State(Memory, run), k)) ==
        if OnTarget(s, t) then NextStatus(before, Reported(s.reports, k.fingerprint)) else before
  {
    hide TargetOf, State, RunOk, ErrorFreeScans, Expected, StatusOf, NextStatus, CoreFieldsZero, Owned;
    var n := |run| - 1;
    assert RunOk(OwnerOf, thresholds, run[..n]) by { RunPrefix(OwnerOf, thresholds, run); }
    StateOwned(OwnerOf, thresholds, run[..n]);
    LastScan(OwnerOf, thresholds, run, k);
    var s := run[n];
    ExpectedStatus(State(Memory, run[..n]), s.m, s.target, s.now, s.reports, s.ids, t, k);
  }

  lemma ExpectedStatus(rows: Table, m: ModuleInfo, target: string, now: Time, reports: seq<Finding>, ids: Ids,
                       t: Target, k: Key)
    requires Owned(OwnerOf, rows) && OwnerOf(k) == t.canonical
    requires m.id == k.moduleId ==> m.resolveAfter == 1
    requires m.id == k.moduleId && Reported(reports, k.fingerprint) ==> target == t.canonical
    ensures var before := StatusOf(Lookup(rows, k));
      StatusOf(Expected(m, target, now, rows, reports, ids, k)) ==
        if m.id == k.moduleId && target == t.canonical then NextStatus(before, Reported(reports, k.fingerprint))
        else before
  {
    hide TargetOf, Position;
  }

  lemma RunPrefix(owner: Owner, thresholds: string -> int, run: seq<Step>)
    requires run != [] && RunOk(owner, thresholds, run)
    ensures RunOk(owner, thresholds, run[..|run| - 1])
  {
  }

  // ---- the collector and the engine fit together ----

  lemma {:induction false} ListingExists(rows: Table, moduleId: string, target: string,
                                         keys: set<Key>) returns (listing: seq<Record>)
    requires Keyed(rows) && keys <= rows.Keys
    ensures forall r :: r in listing <==>
      KeyOf(r) in keys && rows[KeyOf(r)] == r && r.f.moduleId == moduleId && r.f.target == target
    ensures forall i, j :: 0 <= i < j < |listing| ==> KeyOf(listing[i]) != KeyOf(listing[j])
  {
    if keys == {} {
      return [];
    }
    var k :| k in keys;
    var rest := ListingExists(rows, moduleId, target, keys - {k});
    listing := if rows[k].f.moduleId == moduleId && rows[k].f.target == target then rest + [rows[k]] else rest;
  }

  /** Whatever happened before and whatever the TLS library answers, the next scan of a target can be reconciled:
      every precondition of the engine is met by what the collector hands over. */
  lemma ScanExtendsRun(run: seq<Step>, thresholds: string -> int, t: Target, facts: Facts, probe: bool, now: Time,
                       details: Details, ids: Ids) returns (s: Step)
    requires RunOk(OwnerOf, thresholds, run) && TargetOk(t) && thresholds(MODULE_ID) == 1
    ensures RunOk(OwnerOf, thresholds, run + [s])
    ensures OnTarget(s, t) && s.now == now && Complete(s) && Grades(s, t, facts.notAfter)
  {
    hide StepOk, State, RunOk, Owned, OwnerOf, CollectorOk, Collected, Plan, Accepted;
    var rows := State(Memory, run);
    StateOwned(OwnerOf, thresholds, run);
    assert Keyed(rows) by { OwnedIsKeyed(rows); }
    var listing := ListingExists(rows, MODULE_ID, t.canonical, rows.Keys);
    var reports := Collected(t, facts, probe, now, details);
    CollectMeetsContract(t, facts, probe, now, details);
    s := Scan(INFO, t.canonical, now, listing, reports, ids, |Plan(INFO, now, listing, reports, ids)|);
    assert StepOk(OwnerOf, thresholds, rows, s) by { NextStepOk(thresholds, rows, s); }
    RunGrows(thresholds, run, s);
  }

  lemma OwnedIsKeyed(rows: Table)
    requires Owned(OwnerOf, rows)
    ensures Keyed(rows)
  {
  }

  lemma NextStepOk(thresholds: string -> int, rows: Table, s: Step)
    requires s.Scan? && s.m == INFO && thresholds(MODULE_ID) == 1 && s.done == |FullPlan(s)|
    requires forall r :: r in s.existing <==>
      KeyOf(r) in rows.Keys && rows[KeyOf(r)] == r && r.f.moduleId == MODULE_ID && r.f.target == s.target
    requires forall i, j :: 0 <= i < j < |s.existing| ==> KeyOf(s.existing[i]) != KeyOf(s.existing[j])
    requires Keyed(rows) && CollectorOk(OwnerOf, INFO, s.target, s.reports)
    ensures StepOk(OwnerOf, thresholds, rows, s)
  {
    hide CollectorOk, Plan, OwnerOf;
    assert forall r :: r in s.existing ==> KeyOf(r) == Key(MODULE_ID, r.f.fingerprint);
  }

  lemma RunGrows(thresholds: string -> int, run: seq<Step>, s: Step)
    requires RunOk(OwnerOf, thresholds, run) && StepOk(OwnerOf, thresholds, State(Memory, run), s)
    ensures RunOk(OwnerOf, thresholds, run + [s])
  {
    hide OwnerOf, IsListing, CollectorOk, FullPlan;
    assert (run + [s])[..|run|] == run;
    assert RunOk(OwnerOf, thresholds, run);
  }

  // ---- the phases of a run ----

  /** Phase of the latest scan of the target, Quiet before the first. */
  ghost function LatestPhase(run: seq<Step>, t: Target, notAfter: Time): Phase {
    if run == [] then Quiet
    else
      var s := run[|run| - 1];
      if OnTarget(s, t) then PhaseAt(notAfter, s.now) else LatestPhase(run[..|run| - 1], t, notAfter)
  }

  /** Some scan of the target fell into the countdown. */
  ghost predicate EverCounting(run: seq<Step>, t: Target, notAfter: Time) {
    exists i :: 0 <= i < |run| && OnTarget(run[i], t) && PhaseAt(notAfter, run[i].now) == Counting
  }

  lemma {:induction false} LatestPhaseIsSeen(run: seq<Step>, t: Target, notAfter: Time)
    ensures LatestPhase(run, t, notAfter) == Quiet
      || exists i ::
           0 <= i < |run| && OnTarget(run[i], t) && PhaseAt(notAfter, run[i].now) == LatestPhase(run, t, notAfter)
  {
    hide OnTarget, PhaseAt;
    if run != [] {
      LatestPhaseIsSeen(run[..|run| - 1], t, notAfter);
    }
  }

  lemma {:induction false} PhasesOnlyAdvance(run: seq<Step>, t: Target, notAfter: Time)
    requires CertificateRun(run, t, notAfter)
    ensures forall i :: 0 <= i < |run| && OnTarget(run[i], t) ==>
      PhaseRank(PhaseAt(notAfter, run[i].now)) <= PhaseRank(LatestPhase(run, t, notAfter))
  {
    hide OnTarget, Grades;
    if run != [] {
      var n := |run| - 1;
      PrefixIsCertificateRun(run, t, notAfter);
      PhasesOnlyAdvance(run[..n], t, notAfter);
      forall i | 0 <= i < |run| && OnTarget(run[i], t)
        ensures PhaseRank(PhaseAt(notAfter, run[i].now)) <= PhaseRank(LatestPhase(run, t, notAfter))
      {
        if i < n {
          assert run[..n][i] == run[i];
        }
      }
    }
  }

  lemma PrefixIsCertificateRun(run: seq<Step>, t: Target, notAfter: Time)
    requires run != [] && CertificateRun(run, t, notAfter)
    ensures CertificateRun(run[..|run| - 1], t, notAfter)
  {
    hide OnTarget, Grades, FullPlan, Complete;
    var init := run[..|run| - 1];
    forall s | s in init ensures s in run {}
  }

  /** How phase and history move with one more scan. */
  lemma PhaseStep(run: seq<Step>, t: Target, notAfter: Time)
    requires run != [] && CertificateRun(run, t, notAfter)
    ensures var init, s := run[..|run| - 1], run[|run| - 1];
      var p, q := LatestPhase(init, t, notAfter), LatestPhase(run, t, notAfter);
      && PhaseRank(p) <= PhaseRank(q)
      && (if OnTarget(s, t) then q == PhaseAt(notAfter, s.now) else q == p)
      && (EverCounting(run, t, notAfter) <==> EverCounting(init, t, notAfter) || (OnTarget(s, t) && q == Counting))
      && (EverCounting(run, t, notAfter) ==> q != Quiet)
  {
    hide PhaseAt, CertificateRun;
    var n := |run| - 1;
    var init := run[..n];
    PhasesOnlyAdvance(run, t, notAfter);
    LatestPhaseIsSeen(init, t, notAfter);
    if i :| 0 <= i < n && OnTarget(init[i], t) && PhaseAt(notAfter, init[i].now) == LatestPhase(init, t, notAfter) {
      assert run[i] == init[i];
    }
    if EverCounting(init, t, notAfter) {
      var i :| 0 <= i < n && OnTarget(init[i], t) && PhaseAt(notAfter, init[i].now) == Counting;
      assert run[i] == init[i];
    }
    if EverCounting(run, t, notAfter) {
      var i :| 0 <= i < |run| && OnTarget(run[i], t) && PhaseAt(notAfter, run[i].now) == Counting;
      assert i < n ==> init[i] == run[i];
    }
  }

  // ---- what is stored and what is told ----

  /** The status of the countdown finding: unknown before the countdown, open during it, resolved after it. */
  ghost function ExpiryStatus(run: seq<Step>, t: Target, notAfter: Time): Option<Status> {
    if !EverCounting(run, t, notAfter) then None
    else if LatestPhase(run, t, notAfter) == Over then Some(Resolved) else Some(Open)
  }

  ghost function ExpiredStatus(run: seq<Step>, t: Target, notAfter: Time): Option<Status> {
    if LatestPhase(run, t, notAfter) == Over then Some(Open) else None
  }

  ghost predicate StoredAsExpected(run: seq<Step>, t: Target, notAfter: Time)
    requires Cut(run)
  {
    && StatusOf(Lookup(State(Memory, run), ExpiryKey(t))) == ExpiryStatus(run, t, notAfter)
    && StatusOf(Lookup(State(Memory, run), ExpiredKey(t))) == ExpiredStatus(run, t, notAfter)
  }

  lemma KeysBelongToTarget(t: Target)
    requires TargetOk(t)
    ensures OwnerOf(ExpiryKey(t)) == t.canonical && OwnerOf(ExpiredKey(t)) == t.canonical
  {
    assert '|' !in MODULE_ID;
    CertificateChecksAreValid();
    TargetOfFingerprint(MODULE_ID, t.canonical, EXPIRY, "");
    TargetOfFingerprint(MODULE_ID, t.canonical, EXPIRED, "");
  }

  lemma StoredStep(run: seq<Step>, thresholds: string -> int, t: Target, notAfter: Time)
    requires RunOk(OwnerOf, thresholds, run) && CertificateRun(run, t, notAfter) && TargetOk(t)
        && thresholds(MODULE_ID) == 1
    requires run != [] && StoredAsExpected(run[..|run| - 1], t, notAfter)
    ensures StoredAsExpected(run, t, notAfter)
  {
    hide OnTarget, Grades, State, RunOk, OwnerOf, EverCounting, LatestPhase, PhaseAt, Fingerprint, Reported, FullPlan,
      Complete;
    var s := run[|run| - 1];
    KeysBelongToTarget(t);
    StatusStep(run, thresholds, t, ExpiryKey(t));
    StatusStep(run, thresholds, t, ExpiredKey(t));
    PhaseStep(run, t, notAfter);
    if OnTarget(s, t) {
      GradesReportsPhase(s, t, notAfter);
    }
  }

  lemma {:induction false} CountdownIsStored(run: seq<Step>, thresholds: string -> int, t: Target, notAfter: Time)
    requires RunOk(OwnerOf, thresholds, run) && CertificateRun(run, t, notAfter) && TargetOk(t)
        && thresholds(MODULE_ID) == 1
    ensures StoredAsExpected(run, t, notAfter)
  {
    hide CertificateRun, OwnerOf, PhaseAt, StepOk;
    if run != [] {
      RunPrefix(OwnerOf, thresholds, run);
      PrefixIsCertificateRun(run, t, notAfter);
      CountdownIsStored(run[..|run| - 1], thresholds, t, notAfter);
      StoredStep(run, thresholds, t, notAfter);
    }
  }

  /** The notes about the countdown and about the expiry over a whole run: the countdown is announced at most once
      and closed only by the expiry, the expiry is announced once. */
  lemma {:induction false} CountdownIsAnnounced(run: seq<Step>, thresholds: string -> int, t: Target, notAfter: Time)
    requires RunOk(OwnerOf, thresholds, run) && CertificateRun(run, t, notAfter) && TargetOk(t)
        && thresholds(MODULE_ID) == 1
    ensures Trace(Log(run), ExpiryKey(t)) ==
      if !EverCounting(run, t, notAfter) then []
      else if LatestPhase(run, t, notAfter) == Over then [Opened, Closed]
      else [Opened]
    ensures Trace(Log(run), ExpiredKey(t)) == if LatestPhase(run, t, notAfter) == Over then [Opened] else []
  {
    hide CertificateRun, OwnerOf, PhaseAt, StepOk, Trace, LatestPhase, EverCounting, Fingerprint, FullPlan, Complete,
      Executed;
    if run == [] {
      UntouchedTrace([], ExpiryKey(t));
      UntouchedTrace([], ExpiredKey(t));
      NoScanYet(t, notAfter);
    } else {
      var init, s := run[..|run| - 1], run[|run| - 1];
      RunPrefix(OwnerOf, thresholds, run);
      PrefixIsCertificateRun(run, t, notAfter);
      CountdownIsAnnounced(init, thresholds, t, notAfter);
      TraceConcat(Log(init), Executed(s), ExpiryKey(t));
      TraceConcat(Log(init), Executed(s), ExpiredKey(t));
      CrossingIsOneScan(run, thresholds, t, notAfter);
      PhaseStep(run, t, notAfter);
    }
  }

  lemma NoScanYet(t: Target, notAfter: Time)
    ensures LatestPhase([], t, notAfter) == Quiet && !EverCounting([], t, notAfter)
  {
  }

  /** The last scan of a run, told in notes: the scan that first sees the certificate past its end closes the
      countdown (if there was one) and opens the expiry, both at once. */
  lemma CrossingIsOneScan(run: seq<Step>, thresholds: string -> int, t: Target, notAfter: Time)
    requires RunOk(OwnerOf, thresholds, run) && CertificateRun(run, t, notAfter) && TargetOk(t)
        && thresholds(MODULE_ID) == 1
    requires run != []
    ensures Cut(run[..|run| - 1])
    ensures var init, s := run[..|run| - 1], run[|run| - 1];
      var crossing := LatestPhase(init, t, notAfter) != Over && LatestPhase(run, t, notAfter) == Over;
      var counted := EverCounting(init, t, notAfter);
      && Trace(Executed(s), ExpiryKey(t)) ==
           (if crossing && counted then [Closed]
            else if EverCounting(run, t, notAfter) && !counted then [Opened]
            else [])
      && Trace(Executed(s), ExpiredKey(t)) == if crossing then [Opened] else []
  {
    hide CertificateRun, OwnerOf, PhaseAt, StepOk, Trace, LatestPhase, EverCounting, Fingerprint, FullPlan;
    var init, s := run[..|run| - 1], run[|run| - 1];
    RunPrefix(OwnerOf, thresholds, run);
    PrefixIsCertificateRun(run, t, notAfter);
    CountdownIsStored(init, thresholds, t, notAfter);
    CountdownIsStored(run, thresholds, t, notAfter);
    StateOwned(OwnerOf, thresholds, init);
    StepTrace(OwnerOf, thresholds, State(Memory, init), s, ExpiryKey(t));
    StepTrace(OwnerOf, thresholds, State(Memory, init), s, ExpiredKey(t));
    PhaseStep(run, t, notAfter);
  }

  /** Along the run the finding about the certificate's end only becomes more urgent. */
  lemma UrgencyNeverDrops(t: Target, notAfter: Time, now: Time, now': Time, details: Details, details': Details)
    requires now <= now'
    ensures var fs, fs' := CheckExpiry(t, notAfter, now, details), CheckExpiry(t, notAfter, now', details');
      && |fs| <= |fs'| <= 1
      && (fs != [] ==> Rank(fs[0].severity) <= Rank(fs'[0].severity))
      && (fs != [] && fs[0].check == EXPIRED ==> fs'[0].check == EXPIRED)
  {
    hide CheckExpiry;
    ExpiryLadder(t, notAfter, now, details);
    ExpiryLadder(t, notAfter, now', details');
    assert EXPIRED != EXPIRY;
  }
}
