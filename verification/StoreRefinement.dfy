/** The two backends: the same table after every serialised run, and twins even when scans overlap. */
module StoreRefinement {
  import opened Core
  import opened Stores
  import opened Reconcile
  import opened Meaning
  import opened Interleaving
  import Runs

  // ---- serialised runs ----

  /** The ids given to inserted records are new. */
  ghost predicate NewIds(rows: Table, ws: seq<Write>) {
    && (forall w, k :: w in ws && KeyOf(w.rec) !in rows && k in rows ==> rows[k].f.id != w.rec.f.id)
    && (forall i, j :: 0 <= i < j < |ws| && KeyOf(ws[i].rec) !in rows && KeyOf(ws[j].rec) !in rows ==>
          ws[i].rec.f.id != ws[j].rec.f.id)
  }

  ghost predicate KeepsFixed(rows: Table, ws: seq<Write>) {
    forall w :: w in ws && KeyOf(w.rec) in rows ==> SameFixedColumns(rows[KeyOf(w.rec)], w.rec)
  }

  lemma MergeIsReplace(row: Record, r: Record)
    ensures SameFixedColumns(row, r) <==> KeyOf(row) == KeyOf(r) && Merge(row, r) == r
  {
  }

  lemma PutAgrees(t: Table, r: Record)
    requires Keyed(t)
    requires if KeyOf(r) in t then SameFixedColumns(t[KeyOf(r)], r) else forall k :: k in t ==> t[k].f.id != r.f.id
    ensures Put(Sqlite, t, r) == Put(Memory, t, r)
  {
    if KeyOf(r) in t {
      MergeIsReplace(t[KeyOf(r)], r);
    }
  }

  lemma {:induction false} WritesAgree(rows: Table, ws: seq<Write>)
    requires Keyed(rows) && UniqueKeys(ws) && KeepsFixed(rows, ws) && NewIds(rows, ws)
    ensures ApplyAll(Sqlite, rows, ws) == ApplyAll(Memory, rows, ws)
    ensures Keyed(ApplyAll(Memory, rows, ws))
  {
    hide Put, KeepsFixed, NewIds, UniqueKeys, SameFixedColumns;
    if ws != [] {
      var n := |ws| - 1;
      PrefixFacts(rows, ws);
      WritesAgree(rows, ws[..n]);
      LastWriteFits(rows, ws);
      PutAgrees(ApplyAll(Memory, rows, ws[..n]), ws[n].rec);
      PutKeyed(ApplyAll(Memory, rows, ws[..n]), ws[n].rec);
    }
  }

  lemma PutKeyed(t: Table, r: Record)
    requires Keyed(t)
    ensures Keyed(Put(Memory, t, r))
  {
  }

  lemma PrefixFacts(rows: Table, ws: seq<Write>)
    requires ws != [] && UniqueKeys(ws) && KeepsFixed(rows, ws) && NewIds(rows, ws)
    ensures var init := ws[..|ws| - 1]; UniqueKeys(init) && KeepsFixed(rows, init) && NewIds(rows, init)
  {
    hide SameFixedColumns;
    assert forall w :: w in ws[..|ws| - 1] ==> w in ws;
  }

  /** The last write meets either the row it was planned for, or no row with its id. */
  lemma LastWriteFits(rows: Table, ws: seq<Write>)
    requires ws != [] && UniqueKeys(ws) && KeepsFixed(rows, ws) && NewIds(rows, ws)
    ensures var t := ApplyAll(Memory, rows, ws[..|ws| - 1]); var r := ws[|ws| - 1].rec;
      if KeyOf(r) in t then SameFixedColumns(t[KeyOf(r)], r) else forall k :: k in t ==> t[k].f.id != r.f.id
  {
    hide ApplyAll;
    var n := |ws| - 1;
    var w, t := ws[n], ApplyAll(Memory, rows, ws[..n]);
    PrefixFacts(rows, ws);
    ApplyUnique(rows, ws[..n]);
    assert w in ws;
    assert Lookup(t, KeyOf(w.rec)) == Lookup(rows, KeyOf(w.rec));
    if KeyOf(w.rec) !in rows {
      forall k | k in t ensures t[k].f.id != w.rec.f.id {
        if i :| 0 <= i < n && KeyOf(ws[i].rec) == k {
          assert ws[..n][i] == ws[i] && ws[i] in ws;
          assert Lookup(t, k) == Some(ws[i].rec);
        } else {
          assert Lookup(t, k) == Lookup(rows, k);
        }
      }
    }
  }

  lemma PlanKeepsFixed(owner: Owner, rows: Table, m: ModuleInfo, target: string, now: Time, existing: seq<Record>,
                       reports: seq<Finding>, ids: Ids)
    requires IsListing(existing, rows, m.id, target) && CollectorOk(owner, m, target, reports) && Owned(owner, rows)
    ensures KeepsFixed(rows, Plan(m, now, existing, reports, ids))
  {
    hide PlanFresh, PlanAbsent, ByFingerprint, Seen, AbsentWrite, FreshWrite, SameFixedColumns, Accepted;
    var k := ResolveAfterOrDefault(m.resolveAfter);
    var index := ByFingerprint(existing);
    ListingIndexOk(rows, m.id, target, existing);
    forall w | w in Plan(m, now, existing, reports, ids) && KeyOf(w.rec) in rows
      ensures SameFixedColumns(rows[KeyOf(w.rec)], w.rec)
    {
      if w in PlanFresh(m.id, now, index, reports, ids) {
        PlanFreshMembers(m.id, now, index, reports, ids, w);
        var i :| 0 <= i < |reports| && Accepted(reports[i])
          && w == FreshWrite(m.id, now, Prev(index, reports[i].fingerprint), reports[i], IdAt(ids, i));
        assert reports[i] in reports;
        IndexIsLookup(owner, rows, m, target, existing, reports[i].fingerprint);
        FreshWriteKey(m.id, now, Prev(index, reports[i].fingerprint), reports[i], IdAt(ids, i));
        RefreshKeepsFixed(m.id, now, rows[KeyOf(w.rec)], reports[i], IdAt(ids, i));
      } else {
        PlanAbsentMembers(k, now, existing, Seen(reports), w);
        var r :| r in existing && r.f.fingerprint !in Seen(reports) && !LeftAlone(r.f.status)
            && w == AbsentWrite(k, now, r);
        AgedKeepsFixed(k, now, r);
      }
    }
  }

  lemma RefreshKeepsFixed(moduleId: string, now: Time, r: Record, f: Finding, id: string)
    ensures SameFixedColumns(r, FreshWrite(moduleId, now, Some(r), f, id).rec)
  {
  }

  lemma AgedKeepsFixed(k: nat, now: Time, r: Record)
    ensures SameFixedColumns(r, AbsentWrite(k, now, r).rec)
  {
  }

  ghost predicate RunIdsNew(run: seq<Runs.Step>)
    requires Runs.Cut(run)
  {
    run == [] ||
    (var n := |run| - 1;
     RunIdsNew(run[..n]) && NewIds(Runs.State(Memory, run[..n]), Runs.Executed(run[n])))
  }

  lemma StepAgrees(owner: Owner, thresholds: string -> int, rows: Table, s: Runs.Step)
    requires Runs.StepOk(owner, thresholds, rows, s) && Owned(owner, rows) && NewIds(rows, Runs.Executed(s))
    ensures Runs.After(Sqlite, rows, s) == Runs.After(Memory, rows, s)
  {
    if s.Scan? {
      hide Plan;
      PlanKeepsFixed(owner, rows, s.m, s.target, s.now, s.existing, s.reports, s.ids);
      Runs.ScanWritesOk(owner, thresholds, rows, s);
      WritesAgree(rows, Runs.Executed(s));
    } else if s.k in rows {
      MergeIsReplace(rows[s.k], Runs.WithStatus(rows[s.k], s.next));
    }
  }

  /** With distinct reports and new ids, a serialised run leaves the same table in memory and in the database.
      What it announces is `Log`, which does not depend on the backend at all. */
  lemma {:induction false} BackendsAgree(owner: Owner, thresholds: string -> int, run: seq<Runs.Step>)
    requires Runs.RunOk(owner, thresholds, run) && RunIdsNew(run)
    ensures Runs.State(Sqlite, run) == Runs.State(Memory, run)
  {
    hide Runs.StepOk, Runs.After, Runs.Executed, NewIds;
    if run != [] {
      var n := |run| - 1;
      BackendsAgree(owner, thresholds, run[..n]);
      Runs.StateOwned(owner, thresholds, run[..n]);
      StepAgrees(owner, thresholds, Runs.State(Memory, run[..n]), run[n]);
    }
  }

  // ---- overlapping runs ----

  /** A record without the columns on which the backends may disagree. */
  function Erase(r: Record): Record {
    r.(f := r.f.(id := "", check := "", firstSeen := 0))
  }

  predicate Twins(r: Record, r': Record) {
    Erase(r) == Erase(r')
  }

  ghost predicate TwinTables(t: Table, t': Table) {
    t.Keys == t'.Keys && forall k :: k in t ==> Twins(t[k], t'[k])
  }

  ghost predicate TwinWrites(ws: seq<Write>, ws': seq<Write>) {
    |ws| == |ws'| && forall i :: 0 <= i < |ws| ==> ws[i].note == ws'[i].note && Twins(ws[i].rec, ws'[i].rec)
  }

  ghost predicate TwinSystems(s: System, s': System) {
    && TwinTables(s.rows, s'.rows)
    && s.pending.Keys == s'.pending.Keys
    && forall pid :: pid in s.pending ==> TwinWrites(s.pending[pid], s'.pending[pid])
  }

  ghost predicate TwinListings(xs: seq<Record>, xs': seq<Record>) {
    |xs| == |xs'| && forall i :: 0 <= i < |xs| ==> Twins(xs[i], xs'[i])
  }

  ghost predicate TwinIndexes(x: map<string, Record>, x': map<string, Record>) {
    x.Keys == x'.Keys && forall fp :: fp in x ==> Twins(x[fp], x'[fp])
  }

  lemma {:induction false} ByFingerprintTwins(xs: seq<Record>, xs': seq<Record>)
    requires TwinListings(xs, xs')
    ensures TwinIndexes(ByFingerprint(xs), ByFingerprint(xs'))
  {
    if xs != [] {
      var n := |xs| - 1;
      ByFingerprintTwins(xs[..n], xs'[..n]);
      assert Twins(xs[n], xs'[n]);
    }
  }

  lemma FreshWriteTwins(moduleId: string, now: Time, prev: Option<Record>, prev': Option<Record>, f: Finding,
                        id: string)
    requires prev.Some? == prev'.Some? && (prev.Some? ==> Twins(prev.value, prev'.value))
    ensures TwinWrites([FreshWrite(moduleId, now, prev, f, id)], [FreshWrite(moduleId, now, prev', f, id)])
  {
  }

  lemma {:induction false} PlanFreshTwins(moduleId: string, now: Time, x: map<string, Record>, x': map<string,
                                          Record>, reports: seq<Finding>, ids: Ids)
    requires TwinIndexes(x, x')
    ensures TwinWrites(PlanFresh(moduleId, now, x, reports, ids), PlanFresh(moduleId, now, x', reports, ids))
  {
    hide FreshWrite, Twins;
    if reports != [] {
      var n := |reports| - 1;
      var fp := reports[n].fingerprint;
      PlanFreshTwins(moduleId, now, x, x', reports[..n], ids);
      FreshWriteTwins(moduleId, now, Prev(x, fp), Prev(x', fp), reports[n], IdAt(ids, n));
    }
  }

  lemma AbsentWriteTwins(k: nat, now: Time, r: Record, r': Record)
    requires Twins(r, r')
    ensures r.f.fingerprint == r'.f.fingerprint && r.f.status == r'.f.status
    ensures TwinWrites([AbsentWrite(k, now, r)], [AbsentWrite(k, now, r')])
  {
  }

  lemma {:induction false} PlanAbsentTwins(k: nat, now: Time, xs: seq<Record>, xs': seq<Record>, seen: set<string>)
    requires TwinListings(xs, xs')
    ensures TwinWrites(PlanAbsent(k, now, xs, seen), PlanAbsent(k, now, xs', seen))
  {
    hide AbsentWrite, Twins;
    if xs != [] {
      var n := |xs| - 1;
      PlanAbsentTwins(k, now, xs[..n], xs'[..n], seen);
      AbsentWriteTwins(k, now, xs[n], xs'[n]);
    }
  }

  lemma PlanTwins(m: ModuleInfo, now: Time, xs: seq<Record>, xs': seq<Record>, reports: seq<Finding>, ids: Ids)
    requires TwinListings(xs, xs')
    ensures TwinWrites(Plan(m, now, xs, reports, ids), Plan(m, now, xs', reports, ids))
  {
    hide PlanFresh, PlanAbsent, Twins, ByFingerprint;
    ByFingerprintTwins(xs, xs');
    PlanFreshTwins(m.id, now, ByFingerprint(xs), ByFingerprint(xs'), reports, ids);
    PlanAbsentTwins(ResolveAfterOrDefault(m.resolveAfter), now, xs, xs', Seen(reports));
  }

  /** Every record, stored or about to be written, lies on the target that owns its key. */
  ghost predicate OwnedSystem(owner: Owner, s: System) {
    && Owned(owner, s.rows)
    && (forall pid, w :: pid in s.pending && w in s.pending[pid] ==> w.rec.f.target == owner(KeyOf(w.rec)))
  }

  ghost predicate CollectorsOk(owner: Owner, a: Action) {
    a.BeginScan? ==> CollectorOk(owner, a.m, a.target, a.reports)
  }

  /** The same action on the other system: a scan lists that system's records, in the same order. */
  ghost function Mirror(s': System, a: Action): Action
    requires a.BeginScan? ==> forall r :: r in a.existing ==> KeyOf(r) in s'.rows
  {
    if a.BeginScan? then
      a.(existing := seq(|a.existing|, i requires 0 <= i < |a.existing| => s'.rows[KeyOf(a.existing[i])]))
    else a
  }

  /** The same move, except that a scan may be handed another store's listing. */
  ghost predicate SameMove(a: Action, a': Action) {
    if a.BeginScan? then a'.BeginScan? && a' == a.(existing := a'.existing) else a' == a
  }

  lemma ListingTwins(t: Table, t': Table, moduleId: string, target: string, xs: seq<Record>, xs': seq<Record>)
    requires TwinTables(t, t') && Keyed(t) && Keyed(t') && IsListing(xs, t, moduleId, target)
    requires |xs'| == |xs| && forall i :: 0 <= i < |xs| ==> xs'[i] == t'[KeyOf(xs[i])]
    ensures TwinListings(xs, xs') && IsListing(xs', t', moduleId, target)
  {
    forall i | 0 <= i < |xs| ensures Twins(xs[i], xs'[i]) && KeyOf(xs'[i]) == KeyOf(xs[i]) {
      assert xs[i] in xs;
    }
    forall k | k in t' && k.moduleId == moduleId && t'[k].f.target == target ensures t'[k] in xs' {
      assert Twins(t[k], t'[k]) && t[k] in xs;
      var i :| 0 <= i < |xs| && xs[i] == t[k];
      assert xs'[i] == t'[k];
    }
  }

  lemma PutTwins(owner: Owner, t: Table, t': Table, r: Record, r': Record)
    requires TwinTables(t, t') && Owned(owner, t) && Owned(owner, t')
    requires Twins(r, r') && r.f.target == owner(KeyOf(r)) && !Refuses(Sqlite, t', r')
    ensures TwinTables(Put(Memory, t, r), Put(Sqlite, t', r'))
    ensures Owned(owner, Put(Memory, t, r)) && Owned(owner, Put(Sqlite, t', r'))
  {
  }

  ghost predicate Refused(s': System, a: Action) {
    a.WriteNext? && a.pid in s'.pending && s'.pending[a.pid] != [] && Refuses(Sqlite, s'.rows, s'.pending[a.pid][0].rec)
  }

  lemma BeginScanTwins(owner: Owner, thresholds: string -> int, s: System, s': System, a: Action)
    requires a.BeginScan? && TwinSystems(s, s') && OwnedSystem(owner, s) && OwnedSystem(owner, s')
    requires Enabled(Memory, thresholds, s, a) && CollectorsOk(owner, a)
    ensures forall r :: r in a.existing ==> KeyOf(r) in s'.rows
    ensures Enabled(Sqlite, thresholds, s', Mirror(s', a))
    ensures var n, n' := Next(Memory, thresholds, s, a), Next(Sqlite, thresholds, s', Mirror(s', a));
      TwinSystems(n, n') && OwnedSystem(owner, n) && OwnedSystem(owner, n')
  {
    hide Plan, Twins, CollectorOk;
    var xs' := Mirror(s', a).existing;
    ListingTwins(s.rows, s'.rows, a.m.id, a.target, a.existing, xs');
    PlanTwins(a.m, a.now, a.existing, xs', a.reports, a.ids);
    forall w | w in Plan(a.m, a.now, a.existing, a.reports, a.ids) ensures w.rec.f.target == owner(KeyOf(w.rec)) {
      Runs.PlanOwned(owner, s.rows, a.m, a.target, a.now, a.existing, a.reports, a.ids, w);
    }
    forall w | w in Plan(a.m, a.now, xs', a.reports, a.ids) ensures w.rec.f.target == owner(KeyOf(w.rec)) {
      Runs.PlanOwned(owner, s'.rows, a.m, a.target, a.now, xs', a.reports, a.ids, w);
    }
    ReportsLeaveCoreFieldsZero(owner, a);
  }

  lemma ReportsLeaveCoreFieldsZero(owner: Owner, a: Action)
    requires a.BeginScan? && CollectorOk(owner, a.m, a.target, a.reports)
    ensures forall f :: f in a.reports && Accepted(f) ==> CoreFieldsZero(f)
  {
  }

  lemma WriteNextTwins(owner: Owner, thresholds: string -> int, s: System, s': System, a: Action)
    requires a.WriteNext? && TwinSystems(s, s') && OwnedSystem(owner, s) && OwnedSystem(owner, s')
    requires Enabled(Memory, thresholds, s, a) && !Refused(s', a)
    ensures Enabled(Sqlite, thresholds, s', a)
    ensures var n, n' := Next(Memory, thresholds, s, a), Next(Sqlite, thresholds, s', a);
      TwinSystems(n, n') && OwnedSystem(owner, n) && OwnedSystem(owner, n')
  {
    hide Put, Refuses, Twins;
    var ws, ws' := s.pending[a.pid], s'.pending[a.pid];
    assert ws[0] in ws;
    PutTwins(owner, s.rows, s'.rows, ws[0].rec, ws'[0].rec);
  }

  lemma UserChangeTwins(owner: Owner, thresholds: string -> int, s: System, s': System, a: Action)
    requires (a.BeginUserChange? || a.Leave?) && TwinSystems(s, s') && OwnedSystem(owner, s) && OwnedSystem(owner, s')
    requires Enabled(Memory, thresholds, s, a)
    ensures Enabled(Sqlite, thresholds, s', a)
    ensures var n, n' := Next(Memory, thresholds, s, a), Next(Sqlite, thresholds, s', a);
      TwinSystems(n, n') && OwnedSystem(owner, n) && OwnedSystem(owner, n')
  {
    assert a.BeginUserChange? ==> Twins(s.rows[a.k], s'.rows[a.k]);
  }

  /** Every interleaving of overlapping scans and user changes that memory can go through, the database goes through
      too, as long as its primary key never refuses a row. The two then agree on every record's existence and on
      all of its columns but id, check and first-seen, and so on everything that is announced. */
  lemma {:induction false} BackendsAreTwins(owner: Owner, thresholds: string -> int, actions: seq<Action>,
                                            trace: seq<System>)
    returns (actions': seq<Action>, trace': seq<System>, refused: bool)
    requires IsRun(Memory, thresholds, actions, trace)
    requires forall a :: a in actions ==> CollectorsOk(owner, a)
    ensures |actions'| <= |actions| && IsRun(Sqlite, thresholds, actions', trace')
    ensures forall i :: 0 <= i < |actions'| ==> SameMove(actions[i], actions'[i])
    ensures forall i :: 0 <= i <= |actions'| ==>
      TwinSystems(trace[i], trace'[i]) && OwnedSystem(owner, trace[i]) && OwnedSystem(owner, trace'[i])
    ensures if refused then |actions'| < |actions| && Refused(trace'[|actions'|], actions[|actions'|])
      else |actions'| == |actions|
  {
    hide Enabled, Next, TwinSystems, OwnedSystem, CollectorsOk, Refused, SameMove;
    if actions == [] {
      EmptyTwins(owner);
      return [], [EMPTY], false;
    }
    var n := |actions| - 1;
    assert actions == actions[..n] + [actions[n]];
    actions', trace', refused := BackendsAreTwins(owner, thresholds, actions[..n], trace[..n + 1]);
    if refused {
      return;
    }
    var a := actions[n];
    assert Enabled(Memory, thresholds, trace[n], a) && trace[n + 1] == Next(Memory, thresholds, trace[n], a);
    if Refused(trace'[n], a) {
      return actions', trace', true;
    }
    var a' := OneStepTwins(owner, thresholds, trace[n], trace'[n], a);
    ghost var next := Next(Sqlite, thresholds, trace'[n], a');
    ghost var longer, longerTrace := actions' + [a'], trace' + [next];
    forall i | 0 <= i < |longer|
      ensures Enabled(Sqlite, thresholds, longerTrace[i], longer[i])
          && longerTrace[i + 1] == Next(Sqlite, thresholds, longerTrace[i], longer[i])
    {
      if i < n {
        assert Enabled(Sqlite, thresholds, trace'[i], actions'[i])
            && trace'[i + 1] == Next(Sqlite, thresholds, trace'[i], actions'[i]);
      }
    }
    actions', trace' := longer, longerTrace;
  }

  lemma EmptyTwins(owner: Owner)
    ensures TwinSystems(EMPTY, EMPTY) && OwnedSystem(owner, EMPTY)
  {
  }

  lemma OneStepTwins(owner: Owner, thresholds: string -> int, s: System, s': System, a: Action) returns (a': Action)
    requires TwinSystems(s, s') && OwnedSystem(owner, s) && OwnedSystem(owner, s')
    requires Enabled(Memory, thresholds, s, a) && CollectorsOk(owner, a) && !Refused(s', a)
    ensures SameMove(a, a')
    ensures Enabled(Sqlite, thresholds, s', a')
    ensures var n, n' := Next(Memory, thresholds, s, a), Next(Sqlite, thresholds, s', a');
      TwinSystems(n, n') && OwnedSystem(owner, n) && OwnedSystem(owner, n')
  {
    hide Enabled, Next, TwinSystems, OwnedSystem, CollectorsOk, Refused;
    if a.BeginScan? {
      BeginScanTwins(owner, thresholds, s, s', a);
      a' := Mirror(s', a);
    } else if a.WriteNext? {
      WriteNextTwins(owner, thresholds, s, s', a);
      a' := a;
    } else {
      UserChangeTwins(owner, thresholds, s, s', a);
      a' := a;
    }
  }
}
