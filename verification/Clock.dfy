/** The times of a record stay in order over every run, with users acting and with scans cut short. */
module Clock {
  import opened Core
  import opened Stores
  import opened Reconcile
  import opened Meaning
  import opened Consequences
  import opened Runs

  /** A scan cut short anywhere leaves each record either as it was or as the complete scan would have made it. */
  lemma CutScanMeans(owner: Owner, thresholds: string -> int, rows: Table, s: Step, k: Key)
    requires s.Scan? && StepOk(owner, thresholds, rows, s) && Owned(owner, rows)
    ensures var after := Lookup(After(Memory, rows, s), k);
      || after == Lookup(rows, k)
      || after == Expected(s.m, s.target, s.now, rows, s.reports, s.ids, k)
  {
    hide Plan, ApplyAll, Expected, Lookup, Owned, CollectorOk;
    var plan := FullPlan(s);
    PlanUnique(owner, rows, s.m, s.target, s.now, s.existing, s.reports, s.ids);
    ApplyUnique(rows, plan);
    ApplyUnique(rows, plan[..s.done]);
    ReconcileMeans(owner, rows, s.m, s.target, s.now, s.existing, s.reports, s.ids, k);
    if w :| w in plan[..s.done] && KeyOf(w.rec) == k {
      assert w in plan;
    }
  }

  ghost predicate ClockOk(run: seq<Step>, t: Time) {
    && (forall s :: s in run && s.Scan? ==> s.now <= t)
    && (forall i, j :: 0 <= i < j < |run| && run[i].Scan? && run[j].Scan? ==> run[i].now <= run[j].now)
  }

  lemma ExpectedTimes(owner: Owner, m: ModuleInfo, target: string, t: Time, now: Time, rows: Table,
                      reports: seq<Finding>, ids: Ids, k: Key)
    requires CollectorOk(owner, m, target, reports) && t <= now
    requires k in rows ==> RecordTimesOk(rows[k], t)
    ensures var after := Expected(m, target, now, rows, reports, ids, k);
      after.Some? ==> RecordTimesOk(after.value, now)
  {
    var p := Position(reports, k.fingerprint);
    assert p >= 0 ==> reports[p] in reports;
  }

  lemma StepKeepsTimes(owner: Owner, thresholds: string -> int, rows: Table, s: Step, t: Time, now: Time)
    requires StepOk(owner, thresholds, rows, s) && Owned(owner, rows) && TimesOk(rows, t) && t <= now
    requires s.Scan? ==> s.now == now
    ensures TimesOk(After(Memory, rows, s), now)
  {
    var after := After(Memory, rows, s);
    if s.Scan? {
      hide After, Expected, CollectorOk, Owned, FullPlan;
      forall k | k in after ensures RecordTimesOk(after[k], now) {
        CutScanMeans(owner, thresholds, rows, s, k);
        ExpectedTimes(owner, s.m, s.target, t, now, rows, s.reports, s.ids, k);
      }
    }
  }

  /** Under a clock that does not run backwards, in every reachable table first seen <= last seen <= resolved, and
      a resolution time is present exactly on resolved records. */
  lemma {:induction false} TimesStayInOrder(owner: Owner, thresholds: string -> int, run: seq<Step>, t: Time)
    requires RunOk(owner, thresholds, run) && ClockOk(run, t)
    ensures TimesOk(State(Memory, run), t)
  {
    hide StepOk, After, TimesOk;
    if run == [] {
      NoTimes(t);
    } else {
      var n := |run| - 1;
      var s := run[n];
      assert s in run;
      var u := if s.Scan? then s.now else t;
      TimesStayInOrder(owner, thresholds, run[..n], u);
      StateOwned(owner, thresholds, run[..n]);
      StepKeepsTimes(owner, thresholds, State(Memory, run[..n]), s, u, u);
      LaterIsFine(State(Memory, run), u, t);
    }
  }

  lemma NoTimes(t: Time)
    ensures TimesOk(map[], t)
  {
  }

  lemma LaterIsFine(rows: Table, t: Time, u: Time)
    requires TimesOk(rows, t) && t <= u
    ensures TimesOk(rows, u)
  {
  }
}
