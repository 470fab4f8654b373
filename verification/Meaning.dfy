/** What one uninterrupted reconcile means, fingerprint by fingerprint, without mentioning any order. */
module Meaning {
  import opened Core
  import opened Stores
  import opened Reconcile

  /** Which target a key belongs to; a fingerprint is computed from the target, so it determines it. */
  type Owner = Key -> string

  /** What the engine relies on from a collector: one finding per fingerprint, for the scanned target only,
      with the core's fields untouched. */
  ghost predicate CollectorOk(owner: Owner, m: ModuleInfo, target: string, reports: seq<Finding>) {
    && (forall f :: f in reports && Accepted(f) ==>
          f.target == target && owner(Key(m.id, f.fingerprint)) == target && CoreFieldsZero(f))
    && (forall i, j :: 0 <= i < j < |reports| && Accepted(reports[i]) && Accepted(reports[j]) ==>
          reports[i].fingerprint != reports[j].fingerprint)
  }

  ghost predicate Owned(owner: Owner, rows: Table) {
    Keyed(rows) && forall k :: k in rows ==> rows[k].f.target == owner(k)
  }

  /** Position of the accepted report with this fingerprint, -1 if there is none. */
  function Position(reports: seq<Finding>, fp: string): (p: int)
    ensures -1 <= p < |reports|
    ensures p >= 0 ==> Accepted(reports[p]) && reports[p].fingerprint == fp
  {
    if reports == [] then -1
    else
      var n := |reports| - 1;
      if Accepted(reports[n]) && reports[n].fingerprint == fp then n else Position(reports[..n], fp)
  }

  predicate Reported(reports: seq<Finding>, fp: string) {
    Position(reports, fp) >= 0
  }

  /** The record under `k` after a scan: reported ones are inserted or refreshed, the others of the target age. */
  function Expected(m: ModuleInfo, target: string, now: Time, rows: Table, reports: seq<Finding>, ids: Ids,
                    k: Key): Option<Record> {
    var p := Position(reports, k.fingerprint);
    if k.moduleId == m.id && p >= 0 then
      Some(FreshWrite(m.id, now, Lookup(rows, k), reports[p], IdAt(ids, p)).rec)
    else if k.moduleId == m.id && k in rows && rows[k].f.target == target && !LeftAlone(rows[k].f.status) then
      Some(Aged(ResolveAfterOrDefault(m.resolveAfter), now, rows[k]))
    else
      Lookup(rows, k)
  }

  predicate Unresolved(o: Option<Record>) {
    o.Some? && o.value.f.status != Resolved
  }

  /** What a change from `before` to `after` means to a human. */
  function Transition(before: Option<Record>, after: Option<Record>): Note {
    if Unresolved(before) == Unresolved(after) then Silent
    else if Unresolved(after) then Opened
    else Closed
  }

  ghost predicate UniqueKeys(ws: seq<Write>) {
    forall i, j :: 0 <= i < j < |ws| ==> KeyOf(ws[i].rec) != KeyOf(ws[j].rec)
  }

  /** Every write carries the note that describes what it does to the table. */
  ghost predicate Honest(rows: Table, ws: seq<Write>) {
    forall w :: w in ws ==> w.note == Transition(Lookup(rows, KeyOf(w.rec)), Some(w.rec))
  }

  lemma {:induction false} PositionUnique(reports: seq<Finding>, i: nat)
    requires i < |reports| && Accepted(reports[i])
    requires forall j, j' :: 0 <= j < j' < |reports| && Accepted(reports[j]) && Accepted(reports[j']) ==>
      reports[j].fingerprint != reports[j'].fingerprint
    ensures Position(reports, reports[i].fingerprint) == i
  {
    var n := |reports| - 1;
    if i < n {
      PositionUnique(reports[..n], i);
    }
  }

  lemma {:induction false} SeenIsReported(reports: seq<Finding>, fp: string)
    ensures fp in Seen(reports) <==> Reported(reports, fp)
  {
    if reports != [] {
      SeenIsReported(reports[..|reports| - 1], fp);
    }
  }

  /** The index built from the listing finds exactly the stored records. */
  lemma IndexIsLookup(owner: Owner, rows: Table, m: ModuleInfo, target: string, existing: seq<Record>, fp: string)
    requires IsListing(existing, rows, m.id, target) && Owned(owner, rows) && owner(Key(m.id, fp)) == target
    ensures Prev(ByFingerprint(existing), fp) == Lookup(rows, Key(m.id, fp))
  {
    ByFingerprintFinds(existing, fp);
    var k := Key(m.id, fp);
    if k in rows {
      assert rows[k] in existing && KeyOf(rows[k]) == k;
    }
    if fp in ByFingerprint(existing) {
      var r := ByFingerprint(existing)[fp];
      assert r in existing && KeyOf(r) == k;
    }
  }

  lemma {:induction false} PlanFreshMembers(moduleId: string, now: Time, index: map<string, Record>,
                                            reports: seq<Finding>, ids: Ids, w: Write)
    ensures w in PlanFresh(moduleId, now, index, reports, ids) <==>
      exists i :: 0 <= i < |reports| && Accepted(reports[i])
        && w == FreshWrite(moduleId, now, Prev(index, reports[i].fingerprint), reports[i], IdAt(ids, i))
  {
    hide FreshWrite, Accepted, Prev, IdAt;
    if reports != [] {
      var n := |reports| - 1;
      PlanFreshMembers(moduleId, now, index, reports[..n], ids, w);
      assert forall i :: 0 <= i < n ==> reports[..n][i] == reports[i];
    }
  }

  lemma {:induction false} PlanAbsentMembers(k: nat, now: Time, existing: seq<Record>, seen: set<string>, w: Write)
    ensures w in PlanAbsent(k, now, existing, seen) <==>
      exists r :: r in existing && r.f.fingerprint !in seen && !LeftAlone(r.f.status) && w == AbsentWrite(k, now, r)
  {
    hide AbsentWrite;
    if existing != [] {
      var n := |existing| - 1;
      PlanAbsentMembers(k, now, existing[..n], seen, w);
      assert existing == existing[..n] + [existing[n]];
    }
  }

  /** Applying writes to distinct keys leaves each of them in place and touches nothing else. */
  lemma {:induction false} ApplyUnique(rows: Table, ws: seq<Write>)
    requires UniqueKeys(ws)
    ensures forall w :: w in ws ==> Lookup(ApplyAll(Memory, rows, ws), KeyOf(w.rec)) == Some(w.rec)
    ensures forall k :: (forall w :: w in ws ==> KeyOf(w.rec) != k) ==>
      Lookup(ApplyAll(Memory, rows, ws), k) == Lookup(rows, k)
  {
    if ws != [] {
      var n := |ws| - 1;
      ApplyUnique(rows, ws[..n]);
      assert ws == ws[..n] + [ws[n]];
    }
  }

  lemma FreshWriteKey(moduleId: string, now: Time, prev: Option<Record>, f: Finding, id: string)
    requires prev.Some? ==> KeyOf(prev.value) == Key(moduleId, f.fingerprint)
    ensures KeyOf(FreshWrite(moduleId, now, prev, f, id).rec) == Key(moduleId, f.fingerprint)
  {
  }

  lemma {:induction false} PlanFreshUnique(owner: Owner, m: ModuleInfo, target: string, now: Time,
                                           index: map<string, Record>, reports: seq<Finding>, ids: Ids)
    requires IndexOk(m.id, index) && CollectorOk(owner, m, target, reports)
    ensures UniqueKeys(PlanFresh(m.id, now, index, reports, ids))
    ensures forall w :: w in PlanFresh(m.id, now, index, reports, ids) ==>
      KeyOf(w.rec).moduleId == m.id && Reported(reports, KeyOf(w.rec).fingerprint)
  {
    hide FreshWrite;
    if reports != [] {
      var n := |reports| - 1;
      var f := reports[n];
      assert reports == reports[..n] + [f];
      PlanFreshUnique(owner, m, target, now, index, reports[..n], ids);
      FreshWriteKey(m.id, now, Prev(index, f.fingerprint), f, IdAt(ids, n));
    }
  }

  lemma PlanAbsentKey(k: nat, now: Time, existing: seq<Record>, seen: set<string>, w: Write)
    requires w in PlanAbsent(k, now, existing, seen)
    ensures KeyOf(w.rec).fingerprint !in seen && exists r :: r in existing && KeyOf(r) == KeyOf(w.rec)
  {
    PlanAbsentMembers(k, now, existing, seen, w);
  }

  lemma {:induction false} PlanAbsentUnique(k: nat, now: Time, existing: seq<Record>, seen: set<string>)
    requires forall i, j :: 0 <= i < j < |existing| ==> existing[i].f.fingerprint != existing[j].f.fingerprint
    ensures UniqueKeys(PlanAbsent(k, now, existing, seen))
  {
    if existing != [] {
      var n := |existing| - 1;
      PlanAbsentUnique(k, now, existing[..n], seen);
      forall w | w in PlanAbsent(k, now, existing[..n], seen) ensures KeyOf(w.rec) != KeyOf(existing[n]) {
        PlanAbsentKey(k, now, existing[..n], seen, w);
      }
    }
  }

  /** No key is written twice in one reconcile. */
  lemma PlanUnique(owner: Owner, rows: Table, m: ModuleInfo, target: string, now: Time, existing: seq<Record>,
                   reports: seq<Finding>, ids: Ids)
    requires IsListing(existing, rows, m.id, target) && CollectorOk(owner, m, target, reports)
    ensures UniqueKeys(Plan(m, now, existing, reports, ids))
  {
    hide PlanFresh, PlanAbsent, Seen;
    var k := ResolveAfterOrDefault(m.resolveAfter);
    ListingIndexOk(rows, m.id, target, existing);
    PlanFreshUnique(owner, m, target, now, ByFingerprint(existing), reports, ids);
    PlanAbsentUnique(k, now, existing, Seen(reports));
    forall w | w in PlanAbsent(k, now, existing, Seen(reports)) ensures KeyOf(w.rec).fingerprint !in Seen(reports) {
      PlanAbsentKey(k, now, existing, Seen(reports), w);
    }
    forall fp ensures fp in Seen(reports) <==> Reported(reports, fp) {
      SeenIsReported(reports, fp);
    }
  }

  lemma FreshWriteHonest(moduleId: string, now: Time, prev: Option<Record>, f: Finding, id: string)
    ensures var w := FreshWrite(moduleId, now, prev, f, id);
      w.note == Transition(prev, Some(w.rec))
  {
  }

  lemma AbsentWriteHonest(k: nat, now: Time, r: Record)
    requires !LeftAlone(r.f.status)
    ensures var w := AbsentWrite(k, now, r);
      KeyOf(w.rec) == KeyOf(r) && w.note == Transition(Some(r), Some(w.rec))
  {
  }

  /** Every note of a plan is the truth about the table the plan was made from. */
  lemma PlanHonest(owner: Owner, rows: Table, m: ModuleInfo, target: string, now: Time, existing: seq<Record>,
                   reports: seq<Finding>, ids: Ids)
    requires IsListing(existing, rows, m.id, target) && CollectorOk(owner, m, target, reports) && Owned(owner, rows)
    ensures Honest(rows, Plan(m, now, existing, reports, ids))
  {
    hide PlanFresh, PlanAbsent, Seen, FreshWrite, AbsentWrite, Transition;
    var k := ResolveAfterOrDefault(m.resolveAfter);
    var index := ByFingerprint(existing);
    ListingIndexOk(rows, m.id, target, existing);
    forall w | w in Plan(m, now, existing, reports, ids)
      ensures w.note == Transition(Lookup(rows, KeyOf(w.rec)), Some(w.rec))
    {
      if w in PlanFresh(m.id, now, index, reports, ids) {
        PlanFreshMembers(m.id, now, index, reports, ids, w);
        var i :| 0 <= i < |reports| && Accepted(reports[i])
          && w == FreshWrite(m.id, now, Prev(index, reports[i].fingerprint), reports[i], IdAt(ids, i));
        IndexIsLookup(owner, rows, m, target, existing, reports[i].fingerprint);
        FreshWriteKey(m.id, now, Prev(index, reports[i].fingerprint), reports[i], IdAt(ids, i));
        FreshWriteHonest(m.id, now, Prev(index, reports[i].fingerprint), reports[i], IdAt(ids, i));
      } else {
        PlanAbsentMembers(k, now, existing, Seen(reports), w);
        var r :| r in existing && r.f.fingerprint !in Seen(reports) && !LeftAlone(r.f.status)
            && w == AbsentWrite(k, now, r);
        AbsentWriteHonest(k, now, r);
      }
    }
  }

  /** The table after an uninterrupted reconcile, key by key. */
  lemma ReconcileMeans(owner: Owner, rows: Table, m: ModuleInfo, target: string, now: Time, existing: seq<Record>,
                       reports: seq<Finding>, ids: Ids, k: Key)
    requires IsListing(existing, rows, m.id, target) && CollectorOk(owner, m, target, reports) && Owned(owner, rows)
    ensures Lookup(ApplyAll(Memory, rows, Plan(m, now, existing, reports, ids)), k)
        == Expected(m, target, now, rows, reports, ids, k)
  {
    hide PlanFresh, PlanAbsent, Seen, FreshWrite, AbsentWrite, Aged, ApplyAll, ByFingerprint, Position;
    var plan := Plan(m, now, existing, reports, ids);
    var index := ByFingerprint(existing);
    var threshold := ResolveAfterOrDefault(m.resolveAfter);
    PlanUnique(owner, rows, m, target, now, existing, reports, ids);
    ApplyUnique(rows, plan);
    SeenIsReported(reports, k.fingerprint);
    var p := Position(reports, k.fingerprint);
    if k.moduleId == m.id && p >= 0 {
      var f := reports[p];
      IndexIsLookup(owner, rows, m, target, existing, f.fingerprint);
      var w := FreshWrite(m.id, now, Prev(index, f.fingerprint), f, IdAt(ids, p));
      PlanFreshMembers(m.id, now, index, reports, ids, w);
      FreshWriteKey(m.id, now, Prev(index, f.fingerprint), f, IdAt(ids, p));
      assert w in plan;
    } else if k.moduleId == m.id && k in rows && rows[k].f.target == target && !LeftAlone(rows[k].f.status) {
      var r := rows[k];
      assert r in existing;
      var w := AbsentWrite(threshold, now, r);
      PlanAbsentMembers(threshold, now, existing, Seen(reports), w);
      AbsentWriteHonest(threshold, now, r);
      assert w in plan;
      AbsentWriteIsAged(threshold, now, r);
    } else {
      forall w | w in plan ensures KeyOf(w.rec) != k {
        PlanKeys(owner, rows, m, target, now, existing, reports, ids, w);
      }
    }
  }

  lemma AbsentWriteIsAged(k: nat, now: Time, r: Record)
    ensures AbsentWrite(k, now, r).rec == Aged(k, now, r)
  {
  }

  /** A plan writes only reported keys and unreported, unresolved, unsuppressed records of the target. */
  lemma PlanKeys(owner: Owner, rows: Table, m: ModuleInfo, target: string, now: Time, existing: seq<Record>,
                 reports: seq<Finding>, ids: Ids, w: Write)
    requires IsListing(existing, rows, m.id, target) && CollectorOk(owner, m, target, reports)
    requires w in Plan(m, now, existing, reports, ids)
    ensures var k := KeyOf(w.rec);
      && k.moduleId == m.id
      && (Reported(reports, k.fingerprint) || (k in rows && rows[k].f.target == target && !LeftAlone(rows[k].f.status)))
  {
    hide PlanFresh, PlanAbsent, Seen, FreshWrite, AbsentWrite, ByFingerprint, Position;
    var threshold := ResolveAfterOrDefault(m.resolveAfter);
    if w in PlanAbsent(threshold, now, existing, Seen(reports)) {
      PlanAbsentMembers(threshold, now, existing, Seen(reports), w);
      var r :| r in existing && r.f.fingerprint !in Seen(reports) && !LeftAlone(r.f.status)
          && w == AbsentWrite(threshold, now, r);
      AbsentWriteHonest(threshold, now, r);
    } else {
      ListingIndexOk(rows, m.id, target, existing);
      PlanFreshUnique(owner, m, target, now, ByFingerprint(existing), reports, ids);
    }
  }
}
