/** The reconcile engine: one scan's findings against what the store already holds. */
module Reconcile {
  import opened Core
  import opened Stores

  /** What a write means to a human: nothing, a problem to announce, or a problem that is over. */
  datatype Note = Silent | Opened | Closed

  datatype Write = Write(rec: Record, note: Note)

  datatype ReconcileResult = ReconcileResult(newlyOpen: seq<Finding>, resolved: seq<Finding>, rejected: seq<Finding>)

  /** The outcome of the id generator for the finding at each position of the scan; None is a failure. */
  type Ids = nat -> Option<string>

  function IdAt(ids: Ids, i: nat): string {
    match ids(i)
    case Some(id) => id
    case None => ""
  }

  function Inserted(moduleId: string, now: Time, f: Finding, id: string): Record {
    Record(f.(evidence := CapEvidence(f.evidence), id := id, moduleId := moduleId, status := Open,
              firstSeen := now, lastSeen := now), 0)
  }

  function Refreshed(now: Time, prev: Record, f: Finding): Record {
    var g := prev.f.(title := f.title, severity := f.severity, remediation := f.remediation,
                     evidence := CapEvidence(f.evidence), lastSeen := now);
    Record(if prev.f.status == Resolved then g.(status := Open, resolvedAt := None) else g, 0)
  }

  function Aged(k: nat, now: Time, r: Record): Record {
    if r.streak + 1 >= k then Record(r.f.(status := Resolved, resolvedAt := Some(now)), r.streak + 1)
    else r.(streak := r.streak + 1)
  }

  function FreshWrite(moduleId: string, now: Time, prev: Option<Record>, f: Finding, id: string): Write {
    match prev
    case None => Write(Inserted(moduleId, now, f, id), Opened)
    case Some(r) => Write(Refreshed(now, r, f), if r.f.status == Resolved then Opened else Silent)
  }

  function AbsentWrite(k: nat, now: Time, r: Record): Write {
    Write(Aged(k, now, r), if r.streak + 1 >= k then Closed else Silent)
  }

  /** Resolved stays resolved, and a suppressed finding is the user's call. */
  predicate LeftAlone(s: Status) {
    s == Resolved || s == Suppressed
  }

  function ByFingerprint(existing: seq<Record>): map<string, Record> {
    if existing == [] then map[]
    else
      var n := |existing| - 1;
      ByFingerprint(existing[..n])[existing[n].f.fingerprint := existing[n]]
  }

  function Seen(reports: seq<Finding>): set<string> {
    if reports == [] then {}
    else
      var n := |reports| - 1;
      Seen(reports[..n]) + if Accepted(reports[n]) then {reports[n].fingerprint} else {}
  }

  function Rejections(reports: seq<Finding>): seq<Finding> {
    if reports == [] then []
    else
      var n := |reports| - 1;
      Rejections(reports[..n]) + if Accepted(reports[n]) then [] else [reports[n]]
  }

  function Prev(index: map<string, Record>, fp: string): Option<Record> {
    if fp in index then Some(index[fp]) else None
  }

  function PlanFresh(moduleId: string, now: Time, index: map<string, Record>, reports: seq<Finding>,
                     ids: Ids): seq<Write> {
    if reports == [] then []
    else
      var n := |reports| - 1;
      var f := reports[n];
      PlanFresh(moduleId, now, index, reports[..n], ids)
      + if Accepted(f) then [FreshWrite(moduleId, now, Prev(index, f.fingerprint), f, IdAt(ids, n))] else []
  }

  function PlanAbsent(k: nat, now: Time, existing: seq<Record>, seen: set<string>): seq<Write> {
    if existing == [] then []
    else
      var n := |existing| - 1;
      var r := existing[n];
      PlanAbsent(k, now, existing[..n], seen)
      + if r.f.fingerprint in seen || LeftAlone(r.f.status) then [] else [AbsentWrite(k, now, r)]
  }

  /** All the writes of one reconcile; they depend on the listing taken at its start, not on later store contents. */
  function Plan(m: ModuleInfo, now: Time, existing: seq<Record>, reports: seq<Finding>, ids: Ids): seq<Write> {
    PlanFresh(m.id, now, ByFingerprint(existing), reports, ids)
    + PlanAbsent(ResolveAfterOrDefault(m.resolveAfter), now, existing, Seen(reports))
  }

  function ApplyAll(b: Backend, rows: Table, ws: seq<Write>): Table {
    if ws == [] then rows
    else
      var n := |ws| - 1;
      Put(b, ApplyAll(b, rows, ws[..n]), ws[n].rec)
  }

  /** The findings announced by the writes with a given note, in order. */
  function Announced(ws: seq<Write>, note: Note): seq<Finding> {
    if ws == [] then []
    else
      var n := |ws| - 1;
      Announced(ws[..n], note) + if ws[n].note == note then [ws[n].rec.f] else []
  }

  lemma {:induction false} PlanFreshPrefix(moduleId: string, now: Time, index: map<string, Record>,
                                           reports: seq<Finding>, ids: Ids, i: nat)
    requires i <= |reports|
    ensures PlanFresh(moduleId, now, index, reports[..i], ids) <= PlanFresh(moduleId, now, index, reports, ids)
  {
    if i == |reports| {
      assert reports[..i] == reports;
    } else {
      var n := |reports| - 1;
      PlanFreshPrefix(moduleId, now, index, reports[..n], ids, i);
      assert reports[..n][..i] == reports[..i];
    }
  }

  lemma {:induction false} PlanAbsentPrefix(k: nat, now: Time, existing: seq<Record>, seen: set<string>, i: nat)
    requires i <= |existing|
    ensures PlanAbsent(k, now, existing[..i], seen) <= PlanAbsent(k, now, existing, seen)
  {
    if i == |existing| {
      assert existing[..i] == existing;
    } else {
      var n := |existing| - 1;
      PlanAbsentPrefix(k, now, existing[..n], seen, i);
      assert existing[..n][..i] == existing[..i];
    }
  }

  /** The rejected findings are the unacceptable ones, each as often as it is reported, in the order of the reports. */
  lemma {:induction false} RejectionsExactly(reports: seq<Finding>, f: Finding)
    ensures multiset(Rejections(reports))[f] == if Accepted(f) then 0 else multiset(reports)[f]
    ensures forall i :: 0 <= i <= |reports| ==> Rejections(reports[..i]) <= Rejections(reports)
  {
    hide Accepted;
    if reports != [] {
      var n := |reports| - 1;
      RejectionsExactly(reports[..n], f);
      assert reports == reports[..n] + [reports[n]];
      forall i | 0 <= i <= |reports| ensures Rejections(reports[..i]) <= Rejections(reports) {
        if i <= n {
          assert reports[..n][..i] == reports[..i];
        } else {
          assert reports[..i] == reports;
        }
      }
    }
  }

  lemma NothingReported(moduleId: string, now: Time, index: map<string, Record>, ids: Ids)
    ensures PlanFresh(moduleId, now, index, [], ids) == [] && Rejections([]) == [] && Seen([]) == {}
  {
  }

  /** The fresh part of a plan, the rejections and the set of seen fingerprints grow report by report. */
  lemma PlanFreshStep(moduleId: string, now: Time, index: map<string, Record>, reports: seq<Finding>, ids: Ids, i: nat)
    requires i < |reports|
    ensures var f := reports[i];
      && PlanFresh(moduleId, now, index, reports[..i + 1], ids) == PlanFresh(moduleId, now, index, reports[..i], ids)
           + (if Accepted(f) then [FreshWrite(moduleId, now, Prev(index, f.fingerprint), f, IdAt(ids, i))] else [])
      && Rejections(reports[..i + 1]) == Rejections(reports[..i]) + (if Accepted(f) then [] else [f])
      && Seen(reports[..i + 1]) == Seen(reports[..i]) + (if Accepted(f) then {f.fingerprint} else {})
    ensures PlanFresh(moduleId, now, index, reports[..i + 1], ids) <= PlanFresh(moduleId, now, index, reports, ids)
    ensures PlanFresh(moduleId, now, index, reports[..i], ids) <= PlanFresh(moduleId, now, index, reports, ids)
  {
    assert reports[..i + 1][..i] == reports[..i];
    PlanFreshPrefix(moduleId, now, index, reports, ids, i);
    PlanFreshPrefix(moduleId, now, index, reports, ids, i + 1);
  }

  /** The absent part of a plan grows record by record. */
  lemma PlanAbsentStep(k: nat, now: Time, existing: seq<Record>, seen: set<string>, i: nat)
    requires i < |existing|
    ensures var r := existing[i];
      PlanAbsent(k, now, existing[..i + 1], seen) == PlanAbsent(k, now, existing[..i], seen)
      + if r.f.fingerprint in seen || LeftAlone(r.f.status) then [] else [AbsentWrite(k, now, r)]
    ensures PlanAbsent(k, now, existing[..i], seen) <= PlanAbsent(k, now, existing[..i + 1], seen)
    ensures PlanAbsent(k, now, existing[..i + 1], seen) <= PlanAbsent(k, now, existing, seen)
  {
    assert existing[..i + 1][..i] == existing[..i];
    PlanAbsentPrefix(k, now, existing, seen, i + 1);
  }

  lemma ApplyOne(b: Backend, rows: Table, ws: seq<Write>, w: Write)
    ensures ApplyAll(b, rows, ws + [w]) == Put(b, ApplyAll(b, rows, ws), w.rec)
  {
    assert (ws + [w])[..|ws|] == ws;
  }

  lemma {:induction false} ApplyAllConcat(b: Backend, rows: Table, ws: seq<Write>, vs: seq<Write>)
    ensures ApplyAll(b, rows, ws + vs) == ApplyAll(b, ApplyAll(b, rows, ws), vs)
  {
    if vs == [] {
      assert ws + vs == ws;
    } else {
      var n := |vs| - 1;
      ApplyAllConcat(b, rows, ws, vs[..n]);
      assert (ws + vs)[..|ws + vs| - 1] == ws + vs[..n];
    }
  }

  lemma {:induction false} AnnouncedConcat(ws: seq<Write>, vs: seq<Write>, note: Note)
    ensures Announced(ws + vs, note) == Announced(ws, note) + Announced(vs, note)
  {
    if vs == [] {
      assert ws + vs == ws;
    } else {
      var n := |vs| - 1;
      AnnouncedConcat(ws, vs[..n], note);
      assert (ws + vs)[..|ws + vs| - 1] == ws + vs[..n];
    }
  }

  lemma AnnouncedOne(ws: seq<Write>, w: Write, note: Note)
    ensures Announced(ws + [w], note) == Announced(ws, note) + if w.note == note then [w.rec.f] else []
  {
    assert (ws + [w])[..|ws|] == ws;
  }

  lemma {:induction false} FreshNeverCloses(moduleId: string, now: Time, index: map<string, Record>,
                                            reports: seq<Finding>, ids: Ids)
    ensures Announced(PlanFresh(moduleId, now, index, reports, ids), Closed) == []
  {
    if reports != [] {
      var n := |reports| - 1;
      FreshNeverCloses(moduleId, now, index, reports[..n], ids);
      if Accepted(reports[n]) {
        var w := FreshWrite(moduleId, now, Prev(index, reports[n].fingerprint), reports[n], IdAt(ids, n));
        AnnouncedOne(PlanFresh(moduleId, now, index, reports[..n], ids), w, Closed);
      } else {
        assert PlanFresh(moduleId, now, index, reports, ids) == PlanFresh(moduleId, now, index, reports[..n], ids);
      }
    }
  }

  lemma NoneAbsent(k: nat, now: Time, seen: set<string>)
    ensures PlanAbsent(k, now, [], seen) == []
  {
  }

  lemma NoWrites(b: Backend, rows: Table)
    ensures ApplyAll(b, rows, []) == rows && Announced([], Opened) == [] && Announced([], Closed) == []
  {
  }

  /** Closing comes after everything that is reported: the fresh part of a plan announces no closure. */
  lemma NothingClosedEarly(m: ModuleInfo, now: Time, existing: seq<Record>, reports: seq<Finding>, ids: Ids, n: nat)
    requires n <= |PlanFresh(m.id, now, ByFingerprint(existing), reports, ids)|
    ensures Announced(Plan(m, now, existing, reports, ids)[..n], Closed) == []
    ensures existing == [] ==> forall n' :: 0 <= n' <= |Plan(m, now, [], reports, ids)| ==>
      Announced(Plan(m, now, [], reports, ids)[..n'], Closed) == []
  {
    var head := PlanFresh(m.id, now, ByFingerprint(existing), reports, ids);
    var plan := Plan(m, now, existing, reports, ids);
    forall n' | 0 <= n' <= |head| ensures Announced(plan[..n'], Closed) == [] {
      FreshNeverCloses(m.id, now, ByFingerprint(existing), reports, ids);
      AnnouncedConcat(head[..n'], head[n'..], Closed);
      assert head[..n'] + head[n'..] == head && plan[..n'] == head[..n'];
    }
  }

  lemma {:induction false} AbsentNeverOpens(k: nat, now: Time, existing: seq<Record>, seen: set<string>)
    ensures Announced(PlanAbsent(k, now, existing, seen), Opened) == []
  {
    if existing != [] {
      var n := |existing| - 1;
      AbsentNeverOpens(k, now, existing[..n], seen);
      if !(existing[n].f.fingerprint in seen || LeftAlone(existing[n].f.status)) {
        AnnouncedOne(PlanAbsent(k, now, existing[..n], seen), AbsentWrite(k, now, existing[n]), Opened);
      } else {
        assert PlanAbsent(k, now, existing, seen) == PlanAbsent(k, now, existing[..n], seen);
      }
    }
  }

  lemma NothingOpenedLate(k: nat, now: Time, existing: seq<Record>, seen: set<string>, n: nat)
    requires n <= |PlanAbsent(k, now, existing, seen)|
    ensures Announced(PlanAbsent(k, now, existing, seen)[..n], Opened) == []
  {
    var tail := PlanAbsent(k, now, existing, seen);
    AbsentNeverOpens(k, now, existing, seen);
    AnnouncedConcat(tail[..n], tail[n..], Opened);
    assert tail[..n] + tail[n..] == tail;
  }

  ghost predicate IndexOk(moduleId: string, index: map<string, Record>) {
    forall fp :: fp in index ==> KeyOf(index[fp]) == Key(moduleId, fp)
  }

  lemma ListingIndexOk(rows: Table, moduleId: string, target: string, existing: seq<Record>)
    requires IsListing(existing, rows, moduleId, target)
    ensures IndexOk(moduleId, ByFingerprint(existing))
    ensures forall r :: r in existing ==> r.f.moduleId == moduleId
  {
    forall fp | fp in ByFingerprint(existing) ensures KeyOf(ByFingerprint(existing)[fp]) == Key(moduleId, fp) {
      ByFingerprintFinds(existing, fp);
    }
  }

  class Engine {
    const store: Store

    constructor (s: Store)
      ensures store == s
    {
      store := s;
    }

    method Index(listing: seq<Record>) returns (index: map<string, Record>)
      ensures index == ByFingerprint(listing)
    {
      index := map[];
      for i := 0 to |listing|
        invariant index == ByFingerprint(listing[..i])
      {
        assert listing[..i + 1][..i] == listing[..i];
        index := index[listing[i].f.fingerprint := listing[i]];
      }
      assert listing[..|listing|] == listing;
    }

    /** The record a report leads to: of the same key and identity as the one before, if there was one, with the
        report's texts, seen now and not absent; not resolved, if it was; announced unless it was unresolved before. */
    method NextRecord(m: ModuleInfo, index: map<string, Record>, f: Finding, now: Time, id: string)
      returns (rec: Record, notify: bool)
      requires IndexOk(m.id, index)
      ensures KeyOf(rec) == Key(m.id, f.fingerprint)
      ensures rec.streak == 0 && rec.f.lastSeen == now
      ensures rec.f.title == f.title && rec.f.severity == f.severity && rec.f.remediation == f.remediation
      ensures rec.f.evidence == CapEvidence(f.evidence)
      ensures match Prev(index, f.fingerprint)
        case None => notify && rec.f.status == Open && rec.f.id == id && rec.f.firstSeen == now
          && rec.f.target == f.target && rec.f.check == f.check
        case Some(prev) =>
          && rec.f.id == prev.f.id && rec.f.target == prev.f.target && rec.f.check == prev.f.check
          && rec.f.groupId == prev.f.groupId && rec.f.firstSeen == prev.f.firstSeen
          && (notify <==> prev.f.status == Resolved)
          && (if notify then rec.f.status == Open && rec.f.resolvedAt == None
              else rec.f.status == prev.f.status && rec.f.resolvedAt == prev.f.resolvedAt)
      ensures Write(rec, if notify then Opened else Silent) == FreshWrite(m.id, now, Prev(index, f.fingerprint), f, id)
    {
      if f.fingerprint !in index {
        rec, notify := Inserted(m.id, now, f, id), true;
      } else {
        notify := index[f.fingerprint].f.status == Resolved;
        rec := Refreshed(now, index[f.fingerprint], f);
      }
    }

    /** First pass: every acceptable report is inserted or refreshes the record listed for it. */
    method ApplyReports(m: ModuleInfo, index: map<string, Record>, reports: seq<Finding>, now: Time, ids: Ids)
      returns (res: ReconcileResult, seen: set<string>, err: bool, ghost done: nat, ghost upto: nat)
      requires store.Valid() && store.ModuleOk(m.id)
      requires IndexOk(m.id, index)
      modifies store.Footprint()
      ensures store.Valid()
      ensures var head := PlanFresh(m.id, now, index, reports, ids);
        && (if err then done < |head| else done == |head|)
        && store.Rows() == ApplyAll(store.Kind(), old(store.Rows()), head[..done])
        && res.newlyOpen == Announced(head[..done], Opened)
        && res.resolved == []
      ensures upto <= |reports| && res.rejected == Rejections(reports[..upto])
      ensures done == |PlanFresh(m.id, now, index, reports[..upto], ids)|
      ensures if err then upto < |reports| && Accepted(reports[upto]) else upto == |reports| && seen == Seen(reports)
    {
      hide Store.Valid, Store.Rows, Put, ApplyAll, Announced, PlanFresh, Seen, Rejections, FreshWrite;
      res := ReconcileResult([], [], []);
      seen := {};
      ghost var rows0 := store.Rows();
      ghost var head := PlanFresh(m.id, now, index, reports, ids);
      ghost var part: seq<Write> := [];
      assert reports[..0] == [];
      NothingReported(m.id, now, index, ids);
      NoWrites(store.Kind(), rows0);
      for i := 0 to |reports|
        invariant store.Valid()
        invariant part == PlanFresh(m.id, now, index, reports[..i], ids)
        invariant store.Rows() == ApplyAll(store.Kind(), rows0, part)
        invariant res.newlyOpen == Announced(part, Opened) && res.resolved == []
        invariant res.rejected == Rejections(reports[..i])
        invariant seen == Seen(reports[..i])
      {
        PlanFreshStep(m.id, now, index, reports, ids, i);
        assert head[..|part|] == part;
        var f := reports[i];
        if ValidateForIngest(f) != None {
          res := res.(rejected := res.rejected + [f]);
          continue;
        }
        seen := seen + {f.fingerprint};
        ghost var w := FreshWrite(m.id, now, Prev(index, f.fingerprint), f, IdAt(ids, i));
        AnnouncedOne(part, w, Opened);
        ApplyOne(store.Kind(), rows0, part, w);
        if f.fingerprint !in index && ids(i) == None {
          return res, seen, true, |part|, i;
        }
        var rec, notify := NextRecord(m, index, f, now, IdAt(ids, i));
        var ok := store.Upsert(rec);
        if !ok {
          return res, seen, true, |part|, i;
        }
        part := part + [w];
        if notify {
          res := res.(newlyOpen := res.newlyOpen + [rec.f]);
        }
      }
      assert reports[..|reports|] == reports && head[..|head|] == head;
      return res, seen, false, |head|, |reports|;
    }

    /** Second pass: every listed record that was not reported ages, and resolves at the threshold. */
    method AgeAbsent(k: nat, existing: seq<Record>, seen: set<string>, now: Time)
      returns (closed: seq<Finding>, err: bool, ghost done: nat)
      requires store.Valid()
      requires forall r :: r in existing ==> store.ModuleOk(r.f.moduleId)
      modifies store.Footprint()
      ensures store.Valid()
      ensures var tail := PlanAbsent(k, now, existing, seen);
        && (if err then done < |tail| else done == |tail|)
        && store.Rows() == ApplyAll(store.Kind(), old(store.Rows()), tail[..done])
        && closed == Announced(tail[..if err then done + 1 else done], Closed)
    {
      closed := [];
      hide Store.Valid, Store.Rows, Put, Announced, PlanAbsent, ApplyAll;
      NoWrites(store.Kind(), store.Rows());
      assert existing[..0] == [] && PlanAbsent(k, now, [], seen) == [] by { NoneAbsent(k, now, seen); }
      ghost var rows0 := store.Rows();
      ghost var tail := PlanAbsent(k, now, existing, seen);
      ghost var part: seq<Write> := [];
      for i := 0 to |existing|
        invariant store.Valid()
        invariant part == PlanAbsent(k, now, existing[..i], seen)
        invariant store.Rows() == ApplyAll(store.Kind(), rows0, part)
        invariant closed == Announced(part, Closed)
      {
        PlanAbsentStep(k, now, existing, seen, i);
        assert tail[..|part|] == part;
        var r := existing[i];
        if r.f.fingerprint in seen || LeftAlone(r.f.status) {
          continue;
        }
        var aged := Aged(k, now, r);
        ghost var w := AbsentWrite(k, now, r);
        AnnouncedOne(part, w, Closed);
        ApplyOne(store.Kind(), rows0, part, w);
        assert tail[..|part| + 1] == part + [w];
        if r.streak + 1 >= k {
          closed := closed + [aged.f];
        }
        var ok := store.Upsert(aged);
        if !ok {
          return closed, true, |part|;
        }
        part := part + [w];
      }
      assert existing[..|existing|] == existing && tail[..|tail|] == tail;
      return closed, false, |tail|;
    }

    /** `upto` reports are gone through and `done` writes of the plan reach the store, all unless an error stops the
        run.
        The clock, the id generator's answers and the listing order belong to the environment. */
    method Reconcile(m: ModuleInfo, target: string, reports: seq<Finding>, now: Time, ids: Ids)
      returns (res: ReconcileResult, err: bool, ghost existing: seq<Record>, ghost done: nat, ghost upto: nat)
      requires store.Valid() && store.ModuleOk(m.id)
      modifies store.Footprint()
      ensures store.Valid()
      ensures var plan := Plan(m, now, existing, reports, ids);
        && done <= |plan|
        && store.Rows() == ApplyAll(store.Kind(), old(store.Rows()), plan[..done])
        && res.newlyOpen == Announced(plan[..done], Opened)
        && (!err ==>
              && done == |plan|
              && IsListing(existing, old(store.Rows()), m.id, target)
              && res.resolved == Announced(plan, Closed)
              && upto == |reports|)
        && (err ==> res.resolved == Announced(plan[..if done < |plan| then done + 1 else done], Closed))
        && (err && done > 0 ==> done < |plan| && IsListing(existing, old(store.Rows()), m.id, target))
      ensures upto <= |reports| && res.rejected == Rejections(reports[..upto])
      ensures upto < |reports| ==> err && done == |PlanFresh(m.id, now, ByFingerprint(existing), reports[..upto], ids)|
    {
      hide Store.Valid, Store.Rows, ApplyAll, Announced, PlanFresh, PlanAbsent, Put,
        IsListing, IndexOk, ByFingerprint, Accepted;
      var listed, listing := store.ListByTarget(m.id, target);
      if !listed {
        existing := [];
        NothingClosedEarly(m, now, [], reports, ids, 0);
        NoWrites(store.Kind(), store.Rows());
        assert Plan(m, now, [], reports, ids)[..0] == [];
        NothingReported(m.id, now, ByFingerprint([]), ids);
        assert reports[..0] == [];
        return ReconcileResult([], [], []), true, existing, 0, 0;
      }
      existing := listing;
      var index := Index(listing);
      ListingIndexOk(store.Rows(), m.id, target, listing);
      ghost var rows0 := store.Rows();
      ghost var head := PlanFresh(m.id, now, index, reports, ids);
      ghost var plan := Plan(m, now, existing, reports, ids);
      assert head <= plan;
      var seen;
      res, seen, err, done, upto := ApplyReports(m, index, reports, now, ids);
      assert plan[..done] == head[..done];
      if err {
        NothingClosedEarly(m, now, listing, reports, ids, done + 1);
        return;
      }
      var k := ResolveAfterOrDefault(m.resolveAfter);
      ghost var tail := PlanAbsent(k, now, existing, seen);
      assert head[..|head|] == head;
      var closed;
      closed, err, done := AgeAbsent(k, listing, seen, now);
      res := res.(resolved := closed);
      PlanParts(m, now, existing, reports, ids, store.Kind(), rows0, head, tail, done);
      PlanParts(m, now, existing, reports, ids, store.Kind(), rows0, head, tail, if err then done + 1 else done);
      done := |head| + done;
      assert !err ==> plan[..done] == plan;
    }
  }

  /** Effect and announcements of a plan of which the first pass and `n` writes of the second have run. */
  lemma PlanParts(m: ModuleInfo, now: Time, existing: seq<Record>, reports: seq<Finding>, ids: Ids,
                  b: Backend, rows: Table, head: seq<Write>, tail: seq<Write>, n: nat)
    requires head == PlanFresh(m.id, now, ByFingerprint(existing), reports, ids)
    requires tail == PlanAbsent(ResolveAfterOrDefault(m.resolveAfter), now, existing, Seen(reports))
    requires n <= |tail|
    ensures |Plan(m, now, existing, reports, ids)| == |head| + |tail|
    ensures var part := Plan(m, now, existing, reports, ids)[..|head| + n];
      && ApplyAll(b, rows, part) == ApplyAll(b, ApplyAll(b, rows, head), tail[..n])
      && Announced(part, Opened) == Announced(head, Opened)
      && Announced(part, Closed) == Announced(tail[..n], Closed)
  {
    assert Plan(m, now, existing, reports, ids)[..|head| + n] == head + tail[..n];
    ApplyAllConcat(b, rows, head, tail[..n]);
    AnnouncedConcat(head, tail[..n], Opened);
    AnnouncedConcat(head, tail[..n], Closed);
    FreshNeverCloses(m.id, now, ByFingerprint(existing), reports, ids);
    NothingOpenedLate(ResolveAfterOrDefault(m.resolveAfter), now, existing, Seen(reports), n);
  }

  /** A listed record found by fingerprint is one of the listing. */
  lemma {:induction false} ByFingerprintFinds(existing: seq<Record>, fp: string)
    ensures fp in ByFingerprint(existing) <==> exists r :: r in existing && r.f.fingerprint == fp
    ensures fp in ByFingerprint(existing) ==>
      ByFingerprint(existing)[fp] in existing && ByFingerprint(existing)[fp].f.fingerprint == fp
  {
    if existing != [] {
      ByFingerprintFinds(existing[..|existing| - 1], fp);
      assert existing == existing[..|existing| - 1] + [existing[|existing| - 1]];
    }
  }
}
