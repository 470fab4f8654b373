/** Scans and user changes that overlap. The engine takes no lock: each of them reads the store once and then
    writes record by record, while others do the same; an error can end any of them at any point. */
module Interleaving {
  import opened Core
  import opened Stores
  import opened Reconcile
  import opened Meaning
  import Runs

  /** The table, and per activity the writes it still has to make. */
  datatype System = System(rows: Table, pending: map<nat, seq<Write>>)

  datatype Action =
    | BeginScan(pid: nat, m: ModuleInfo, now: Time, target: string, existing: seq<Record>, reports: seq<Finding>,
                ids: Ids)
    | BeginUserChange(pid: nat, k: Key, next: Status)
    | WriteNext(pid: nat)
    | Leave(pid: nat)

  ghost predicate Enabled(b: Backend, thresholds: string -> int, s: System, a: Action) {
    match a
    case BeginScan(pid, m, now, target, existing, reports, ids) =>
      && pid !in s.pending
      && m.resolveAfter == thresholds(m.id)
      && IsListing(existing, s.rows, m.id, target)
      && (forall f :: f in reports && Accepted(f) ==> CoreFieldsZero(f))
    case BeginUserChange(pid, k, next) =>
      pid !in s.pending && k in s.rows && s.rows[k].f.status != Resolved && Runs.UserStatus(next)
    case WriteNext(pid) =>
      pid in s.pending && s.pending[pid] != [] && !Refuses(b, s.rows, s.pending[pid][0].rec)
    case Leave(pid) =>
      pid in s.pending
  }

  ghost function Next(b: Backend, thresholds: string -> int, s: System, a: Action): System
    requires Enabled(b, thresholds, s, a)
  {
    match a
    case BeginScan(pid, m, now, target, existing, reports, ids) =>
      s.(pending := s.pending[pid := Plan(m, now, existing, reports, ids)])
    case BeginUserChange(pid, k, next) =>
      s.(pending := s.pending[pid := [Write(Runs.WithStatus(s.rows[k], next), Silent)]])
    case WriteNext(pid) =>
      System(Put(b, s.rows, s.pending[pid][0].rec), s.pending[pid := s.pending[pid][1..]])
    case Leave(pid) =>
      s.(pending := s.pending - {pid})
  }

  const EMPTY := System(map[], map[])

  /** `trace` is the sequence of states that the actions lead through, from the empty system on. */
  ghost predicate IsRun(b: Backend, thresholds: string -> int, actions: seq<Action>, trace: seq<System>) {
    && |trace| == |actions| + 1
    && trace[0] == EMPTY
    && forall i :: 0 <= i < |actions| ==>
         Enabled(b, thresholds, trace[i], actions[i]) && trace[i + 1] == Next(b, thresholds, trace[i], actions[i])
  }

  predicate Begins(a: Action, pid: nat) {
    (a.BeginScan? || a.BeginUserChange?) && a.pid == pid
  }

  /** Once an activity has left, nothing is written under its name until another one begins with it. */
  lemma {:induction false} LeavingIsFinal(b: Backend, thresholds: string -> int, actions: seq<Action>,
                                          trace: seq<System>, pid: nat, i: nat, j: nat)
    requires IsRun(b, thresholds, actions, trace) && i < j <= |actions| && actions[i] == Leave(pid)
    requires forall l :: i < l < j ==> !Begins(actions[l], pid)
    ensures pid !in trace[j].pending
    ensures j < |actions| ==> actions[j] != WriteNext(pid)
  {
    hide Plan, Put, Refuses, IsListing;
    if j > i + 1 {
      LeavingIsFinal(b, thresholds, actions, trace, pid, i, j - 1);
    }
    assert Enabled(b, thresholds, trace[j - 1], actions[j - 1])
      && trace[j - 1 + 1] == Next(b, thresholds, trace[j - 1], actions[j - 1]);
    assert j < |actions| ==> Enabled(b, thresholds, trace[j], actions[j]);
  }

  // ---- without interruption ----

  ghost function WrittenBy(b: Backend, s: System, pid: nat, n: nat): System
    requires pid in s.pending && n <= |s.pending[pid]|
  {
    s.(rows := ApplyAll(b, s.rows, s.pending[pid][..n]), pending := s.pending[pid := s.pending[pid][n..]])
  }

  lemma WritesInARow(thresholds: string -> int, s: System, pid: nat, n: nat)
    requires pid in s.pending && n < |s.pending[pid]|
    ensures Enabled(Memory, thresholds, WrittenBy(Memory, s, pid, n), WriteNext(pid))
    ensures Next(Memory, thresholds, WrittenBy(Memory, s, pid, n), WriteNext(pid)) == WrittenBy(Memory, s, pid, n + 1)
  {
    hide Put;
    var ws := s.pending[pid];
    ApplyOne(Memory, s.rows, ws[..n], ws[n]);
    assert ws[..n] + [ws[n]] == ws[..n + 1] && ws[n..][1..] == ws[n + 1..];
  }

  /** An activity that nothing interrupts is the step of a serialised run: after all its writes in a row, a scan or a
      user change leaves the table that `Runs.After` says. */
  lemma UninterruptedIsAStep(thresholds: string -> int, s: System, a: Action, step: Runs.Step)
    requires Enabled(Memory, thresholds, s, a)
    requires match a
      case BeginScan(_, m, now, target, existing, reports, ids) =>
        step == Runs.Scan(m, target, now, existing, reports, ids, |Plan(m, now, existing, reports, ids)|)
      case BeginUserChange(_, k, next) => step == Runs.SetStatus(k, next)
      case _ => false
    ensures var begun := Next(Memory, thresholds, s, a);
      && a.pid in begun.pending
      && WrittenBy(Memory, begun, a.pid, |begun.pending[a.pid]|).rows == Runs.After(Memory, s.rows, step)
  {
    hide Put, Plan;
    var begun := Next(Memory, thresholds, s, a);
    var ws := begun.pending[a.pid];
    assert ws[..|ws|] == ws;
    if a.BeginUserChange? {
      NoWrites(Memory, s.rows);
      ApplyOne(Memory, s.rows, [], ws[0]);
      assert [] + [ws[0]] == ws;
    }
  }

  // ---- coherence ----

  /** Resolved iff dated as resolved; the streak is below the threshold until it resolves, and at it from then on. */
  predicate Coherent(thresholds: string -> int, r: Record) {
    var k := ResolveAfterOrDefault(thresholds(r.f.moduleId));
    && (r.f.status == Resolved <==> r.f.resolvedAt.Some?)
    && (if r.f.status == Resolved then r.streak == k else r.streak < k)
  }

  ghost predicate Inv(thresholds: string -> int, s: System) {
    && Keyed(s.rows)
    && (forall k :: k in s.rows ==> Coherent(thresholds, s.rows[k]))
    && (forall pid, w :: pid in s.pending && w in s.pending[pid] ==> Coherent(thresholds, w.rec))
  }

  /** A user's write stays coherent exactly when the record was read as not resolved. */
  lemma UserWriteCoherentExactly(thresholds: string -> int, r: Record, next: Status)
    requires Coherent(thresholds, r) && Runs.UserStatus(next)
    ensures Coherent(thresholds, Runs.WithStatus(r, next)) <==> r.f.status != Resolved
  {
  }

  lemma FreshWriteCoherent(thresholds: string -> int, m: ModuleInfo, now: Time, prev: Option<Record>, f: Finding,
                           id: string)
    requires CoreFieldsZero(f)
    requires prev.Some? ==> Coherent(thresholds, prev.value) && prev.value.f.moduleId == m.id
    ensures Coherent(thresholds, FreshWrite(m.id, now, prev, f, id).rec)
  {
  }

  lemma AbsentWriteCoherent(thresholds: string -> int, now: Time, r: Record)
    requires Coherent(thresholds, r) && !LeftAlone(r.f.status)
    ensures Coherent(thresholds, AbsentWrite(ResolveAfterOrDefault(thresholds(r.f.moduleId)), now, r).rec)
  {
  }

  /** A plan made from a coherent listing writes coherent records only. */
  lemma PlanCoherent(thresholds: string -> int, rows: Table, m: ModuleInfo, target: string, now: Time,
                     existing: seq<Record>, reports: seq<Finding>, ids: Ids, w: Write)
    requires IsListing(existing, rows, m.id, target) && m.resolveAfter == thresholds(m.id)
    requires forall k :: k in rows ==> Coherent(thresholds, rows[k])
    requires forall f :: f in reports && Accepted(f) ==> CoreFieldsZero(f)
    requires w in Plan(m, now, existing, reports, ids)
    ensures Coherent(thresholds, w.rec)
  {
    hide PlanFresh, PlanAbsent, ByFingerprint, Seen, Coherent, FreshWrite, AbsentWrite;
    var k := ResolveAfterOrDefault(m.resolveAfter);
    var index := ByFingerprint(existing);
    if w in PlanFresh(m.id, now, index, reports, ids) {
      PlanFreshMembers(m.id, now, index, reports, ids, w);
      var i :| 0 <= i < |reports| && Accepted(reports[i])
        && w == FreshWrite(m.id, now, Prev(index, reports[i].fingerprint), reports[i], IdAt(ids, i));
      ByFingerprintFinds(existing, reports[i].fingerprint);
      FreshWriteCoherent(thresholds, m, now, Prev(index, reports[i].fingerprint), reports[i], IdAt(ids, i));
    } else {
      PlanAbsentMembers(k, now, existing, Seen(reports), w);
      var r :| r in existing && r.f.fingerprint !in Seen(reports) && !LeftAlone(r.f.status)
          && w == AbsentWrite(k, now, r);
      AbsentWriteCoherent(thresholds, now, r);
    }
  }

  lemma PutCoherent(b: Backend, thresholds: string -> int, rows: Table, r: Record)
    requires Keyed(rows) && Coherent(thresholds, r) && forall k :: k in rows ==> Coherent(thresholds, rows[k])
    ensures Keyed(Put(b, rows, r)) && forall k :: k in Put(b, rows, r) ==> Coherent(thresholds, Put(b, rows, r)[k])
  {
  }

  lemma NextKeepsInv(b: Backend, thresholds: string -> int, s: System, a: Action)
    requires Inv(thresholds, s) && Enabled(b, thresholds, s, a)
    ensures Inv(thresholds, Next(b, thresholds, s, a))
  {
    hide Plan, Coherent, Put, Refuses;
    match a
    case BeginScan(pid, m, now, target, existing, reports, ids) =>
      forall w | w in Plan(m, now, existing, reports, ids) ensures Coherent(thresholds, w.rec) {
        PlanCoherent(thresholds, s.rows, m, target, now, existing, reports, ids, w);
      }
    case BeginUserChange(pid, k, next) =>
      UserWriteCoherentExactly(thresholds, s.rows[k], next);
    case WriteNext(pid) =>
      PutCoherent(b, thresholds, s.rows, s.pending[pid][0].rec);
    case Leave(pid) =>
  }

  /** In every state of every interleaving, on either backend, every stored record is coherent. */
  lemma {:induction false} AlwaysCoherent(b: Backend, thresholds: string -> int, actions: seq<Action>,
                                          trace: seq<System>, i: nat)
    requires IsRun(b, thresholds, actions, trace) && i <= |actions|
    ensures Inv(thresholds, trace[i])
  {
    hide Enabled, Next;
    if i > 0 {
      AlwaysCoherent(b, thresholds, actions, trace, i - 1);
      assert Enabled(b, thresholds, trace[i - 1], actions[i - 1])
          && trace[i - 1 + 1] == Next(b, thresholds, trace[i - 1], actions[i - 1]);
      NextKeepsInv(b, thresholds, trace[i - 1], actions[i - 1]);
    }
  }

  // ---- what the database guarantees, and what the engine stores ----

  /** The primary key: no two rows have one id. */
  ghost predicate UniqueIds(rows: Table) {
    forall k, k' :: k in rows && k' in rows && rows[k].f.id == rows[k'].f.id ==> k == k'
  }

  /** In every state of every interleaving the rows of the database have different ids. */
  lemma {:induction false} IdsStayUnique(thresholds: string -> int, actions: seq<Action>, trace: seq<System>, i: nat)
    requires IsRun(Sqlite, thresholds, actions, trace) && i <= |actions|
    ensures UniqueIds(trace[i].rows)
  {
    hide Plan;
    if i > 0 {
      IdsStayUnique(thresholds, actions, trace, i - 1);
      assert Enabled(Sqlite, thresholds, trace[i - 1], actions[i - 1])
        && trace[i - 1 + 1] == Next(Sqlite, thresholds, trace[i - 1], actions[i - 1]);
    }
  }

  /** Evidence that may be stored: at most 64 KiB of JSON, or a marker. */
  predicate Storable(e: Evidence) {
    e.Blob? ==> e.jsonBytes.Some? && e.jsonBytes.value <= 65536
  }

  ghost predicate AllStorable(s: System) {
    && (forall k :: k in s.rows ==> Storable(s.rows[k].f.evidence))
    && (forall pid, w :: pid in s.pending && w in s.pending[pid] ==> Storable(w.rec.f.evidence))
  }

  lemma PlanStorable(rows: Table, m: ModuleInfo, target: string, now: Time, existing: seq<Record>,
                     reports: seq<Finding>, ids: Ids, w: Write)
    requires IsListing(existing, rows, m.id, target) && forall k :: k in rows ==> Storable(rows[k].f.evidence)
    requires w in Plan(m, now, existing, reports, ids)
    ensures Storable(w.rec.f.evidence)
  {
    hide PlanFresh, PlanAbsent, ByFingerprint, Seen, Accepted, CapEvidence, Storable;
    var k := ResolveAfterOrDefault(m.resolveAfter);
    var index := ByFingerprint(existing);
    if w in PlanFresh(m.id, now, index, reports, ids) {
      PlanFreshMembers(m.id, now, index, reports, ids, w);
      var i :| 0 <= i < |reports| && Accepted(reports[i])
        && w == FreshWrite(m.id, now, Prev(index, reports[i].fingerprint), reports[i], IdAt(ids, i));
      CappedIsStorable(reports[i].evidence);
    } else {
      PlanAbsentMembers(k, now, existing, Seen(reports), w);
    }
  }

  lemma CappedIsStorable(e: Evidence)
    ensures Storable(CapEvidence(e))
  {
  }

  /** In every state of every interleaving, on either store, no oversized evidence is stored. */
  lemma {:induction false} EvidenceStaysSmall(b: Backend, thresholds: string -> int, actions: seq<Action>,
                                              trace: seq<System>, i: nat)
    requires IsRun(b, thresholds, actions, trace) && i <= |actions|
    ensures AllStorable(trace[i])
  {
    hide Plan, Storable;
    if i > 0 {
      EvidenceStaysSmall(b, thresholds, actions, trace, i - 1);
      var s, a := trace[i - 1], actions[i - 1];
      assert Enabled(b, thresholds, s, a) && trace[i - 1 + 1] == Next(b, thresholds, s, a);
      if a.BeginScan? {
        forall w | w in Plan(a.m, a.now, a.existing, a.reports, a.ids) ensures Storable(w.rec.f.evidence) {
          PlanStorable(s.rows, a.m, a.target, a.now, a.existing, a.reports, a.ids, w);
        }
      }
    }
  }

  // ---- identity ----

  predicate SameFixedColumns(r: Record, r': Record) {
    KeyOf(r) == KeyOf(r') && r.f.id == r'.f.id && r.f.target == r'.f.target && r.f.check == r'.f.check
    && r.f.firstSeen == r'.f.firstSeen
  }

  /** Whatever overlaps, no record ever disappears, and in the database id, target, check and first-seen of a record
      never change once it is there. */
  lemma {:induction false} IdentityIsStable(b: Backend, thresholds: string -> int, actions: seq<Action>,
                                            trace: seq<System>, i: nat, j: nat, k: Key)
    requires IsRun(b, thresholds, actions, trace) && i <= j <= |actions|
    requires k in trace[i].rows
    ensures k in trace[j].rows
    ensures b == Sqlite ==> SameFixedColumns(trace[i].rows[k], trace[j].rows[k])
    decreases j - i
  {
    if i < j {
      IdentityIsStable(b, thresholds, actions, trace, i, j - 1, k);
      assert Enabled(b, thresholds, trace[j - 1], actions[j - 1])
          && trace[j - 1 + 1] == Next(b, thresholds, trace[j - 1], actions[j - 1]);
    }
  }

  lemma FirstReportPlan(m: ModuleInfo, now: Time, f: Finding, ids: Ids)
    requires Accepted(f)
    ensures Plan(m, now, [], [f], ids) == [Write(Inserted(m.id, now, f, IdAt(ids, 0)), Opened)]
  {
    assert [f][..0] == [];
    assert PlanFresh(m.id, now, map[], [], ids) == [];
  }

  function OverlapActions(m: ModuleInfo, target: string, f: Finding, now: Time, now': Time, ids: Ids,
                          ids': Ids): seq<Action> {
    [BeginScan(0, m, now, target, [], [f], ids), BeginScan(1, m, now', target, [], [f], ids'),
     WriteNext(0), WriteNext(1)]
  }

  /** Two overlapping first scans of a target both announce the same finding, and the backends then disagree:
      memory keeps the second scan's record, the database the first scan's id and first-seen time. */
  lemma OverlapAnnouncesTwice(b: Backend, thresholds: string -> int, m: ModuleInfo, target: string, f: Finding,
                              now: Time, now': Time, ids: Ids, ids': Ids)
    returns (trace: seq<System>)
    requires m.resolveAfter == thresholds(m.id) && Accepted(f) && CoreFieldsZero(f)
    ensures IsRun(b, thresholds, OverlapActions(m, target, f, now, now', ids, ids'), trace)
    ensures 0 in trace[2].pending && 1 in trace[2].pending
    ensures |trace[2].pending[0]| == |trace[2].pending[1]| == 1
    ensures trace[2].pending[0][0].note == trace[2].pending[1][0].note == Opened
    ensures var k := Key(m.id, f.fingerprint);
      && trace[4].rows.Keys == {k}
      && trace[4].rows[k].f.id == IdAt(if b == Memory then ids' else ids, 0)
      && trace[4].rows[k].f.firstSeen == if b == Memory then now' else now
  {
    hide Plan;
    FirstReportPlan(m, now, f, ids);
    FirstReportPlan(m, now', f, ids');
    var actions := OverlapActions(m, target, f, now, now', ids, ids');
    var s1 := Next(b, thresholds, EMPTY, actions[0]);
    var s2 := Next(b, thresholds, s1, actions[1]);
    var s3 := Next(b, thresholds, s2, actions[2]);
    var s4 := Next(b, thresholds, s3, actions[3]);
    trace := [EMPTY, s1, s2, s3, s4];
  }
}
