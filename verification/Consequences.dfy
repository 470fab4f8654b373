/** What follows for one uninterrupted reconcile: its announcements, what it leaves alone, and independence of order. */
module Consequences {
  import opened Core
  import opened Stores
  import opened Reconcile
  import opened Meaning

  lemma {:induction false} AnnouncedMembers(ws: seq<Write>, note: Note, f: Finding)
    ensures f in Announced(ws, note) <==> exists w :: w in ws && w.note == note && w.rec.f == f
  {
    if ws != [] {
      var n := |ws| - 1;
      AnnouncedMembers(ws[..n], note, f);
      assert ws == ws[..n] + [ws[n]];
    }
  }

  function FindingKey(f: Finding): Key {
    Key(f.moduleId, f.fingerprint)
  }

  ghost predicate DistinctFindings(fs: seq<Finding>) {
    forall i, j :: 0 <= i < j < |fs| ==> FindingKey(fs[i]) != FindingKey(fs[j])
  }

  lemma {:induction false} AnnouncedDistinct(ws: seq<Write>, note: Note)
    requires UniqueKeys(ws)
    ensures DistinctFindings(Announced(ws, note))
  {
    if ws != [] {
      var n := |ws| - 1;
      AnnouncedDistinct(ws[..n], note);
      forall f | f in Announced(ws[..n], note) ensures FindingKey(f) != FindingKey(ws[n].rec.f) {
        AnnouncedMembers(ws[..n], note, f);
      }
    }
  }

  /** Honest writes to distinct keys announce exactly the changes they make. */
  lemma AnnouncedIsChanged(rows: Table, ws: seq<Write>, note: Note, f: Finding)
    requires UniqueKeys(ws) && Honest(rows, ws) && note != Silent
    ensures var rows' := ApplyAll(Memory, rows, ws);
      f in Announced(ws, note) <==>
        (exists k :: k in rows' && Transition(Lookup(rows, k), Lookup(rows', k)) == note && rows'[k].f == f)
  {
    hide ApplyAll, Announced, Transition;
    var rows' := ApplyAll(Memory, rows, ws);
    ApplyUnique(rows, ws);
    AnnouncedMembers(ws, note, f);
    if w :| w in ws && w.note == note && w.rec.f == f {
      assert Lookup(rows', KeyOf(w.rec)) == Some(w.rec);
    }
    if k :| k in rows' && Transition(Lookup(rows, k), Lookup(rows', k)) == note && rows'[k].f == f {
      NoTransition(Lookup(rows, k));
      var w :| w in ws && KeyOf(w.rec) == k;
    }
  }

  /** The lists a scan returns are exactly the difference between the table before and the table after it:
      a finding is listed once per record that became unresolved (or resolved), as that record now stands. */
  lemma AnnouncementsAreTheDifference(owner: Owner, rows: Table, m: ModuleInfo, target: string, now: Time,
                                      existing: seq<Record>, reports: seq<Finding>, ids: Ids, note: Note)
    requires IsListing(existing, rows, m.id, target) && CollectorOk(owner, m, target, reports) && Owned(owner, rows)
    requires note != Silent
    ensures var plan := Plan(m, now, existing, reports, ids);
      var rows' := ApplyAll(Memory, rows, plan);
      && DistinctFindings(Announced(plan, note))
      && forall f :: f in Announced(plan, note) <==>
           exists k :: k in rows' && Transition(Lookup(rows, k), Lookup(rows', k)) == note && rows'[k].f == f
  {
    hide Plan, ApplyAll, Announced, Transition, CollectorOk, Owned, IsListing;
    var plan := Plan(m, now, existing, reports, ids);
    PlanUnique(owner, rows, m, target, now, existing, reports, ids);
    PlanHonest(owner, rows, m, target, now, existing, reports, ids);
    AnnouncedDistinct(plan, note);
    var rows' := ApplyAll(Memory, rows, plan);
    forall f ensures f in Announced(plan, note) <==>
      exists k :: k in rows' && Transition(Lookup(rows, k), Lookup(rows', k)) == note && rows'[k].f == f
    {
      AnnouncedIsChanged(rows, plan, note, f);
    }
  }

  lemma NoTransition(o: Option<Record>)
    ensures Transition(o, o) == Silent
  {
  }

  /** A resolution time is set exactly on resolved records; first seen, last seen and resolved are in order,
      none of them after `t`. */
  predicate RecordTimesOk(r: Record, t: Time) {
    && (r.f.status == Resolved <==> r.f.resolvedAt.Some?)
    && r.f.firstSeen <= r.f.lastSeen <= t
    && (r.f.resolvedAt.Some? ==> r.f.lastSeen <= r.f.resolvedAt.value <= t)
  }

  ghost predicate TimesOk(rows: Table, t: Time) {
    forall k :: k in rows ==> RecordTimesOk(rows[k], t)
  }

  predicate SameIdentity(r: Record, r': Record) {
    KeyOf(r) == KeyOf(r') && r.f.id == r'.f.id && r.f.target == r'.f.target && r.f.check == r'.f.check
    && r.f.groupId == r'.f.groupId && r.f.firstSeen == r'.f.firstSeen
  }

  /** A scan deletes nothing, keeps every record's identity, and changes nothing outside its module and target. */
  lemma ReconcileFrame(owner: Owner, rows: Table, m: ModuleInfo, target: string, now: Time,
                       existing: seq<Record>, reports: seq<Finding>, ids: Ids)
    requires IsListing(existing, rows, m.id, target) && CollectorOk(owner, m, target, reports) && Owned(owner, rows)
    ensures var rows' := ApplyAll(Memory, rows, Plan(m, now, existing, reports, ids));
      && Owned(owner, rows')
      && (forall k :: k in rows ==> k in rows' && SameIdentity(rows[k], rows'[k]))
      && (forall k: Key :: k.moduleId != m.id || owner(k) != target ==> Lookup(rows', k) == Lookup(rows, k))
  {
    hide ApplyAll, Plan;
    var rows' := ApplyAll(Memory, rows, Plan(m, now, existing, reports, ids));
    forall k
      ensures k in rows ==> k in rows' && SameIdentity(rows[k], rows'[k])
      ensures k in rows' ==> KeyOf(rows'[k]) == k && rows'[k].f.target == owner(k)
      ensures k.moduleId != m.id || owner(k) != target ==> Lookup(rows', k) == Lookup(rows, k)
    {
      ReconcileMeans(owner, rows, m, target, now, existing, reports, ids, k);
      assert Reported(reports, k.fingerprint) ==> reports[Position(reports, k.fingerprint)] in reports;
    }
  }

  /** Under a clock that does not run backwards, first seen <= last seen <= resolved stays true. */
  lemma ReconcileKeepsTimes(owner: Owner, rows: Table, t: Time, m: ModuleInfo, target: string, now: Time,
                            existing: seq<Record>, reports: seq<Finding>, ids: Ids)
    requires IsListing(existing, rows, m.id, target) && CollectorOk(owner, m, target, reports) && Owned(owner, rows)
    requires TimesOk(rows, t) && t <= now
    ensures TimesOk(ApplyAll(Memory, rows, Plan(m, now, existing, reports, ids)), now)
  {
    hide ApplyAll, Plan;
    var rows' := ApplyAll(Memory, rows, Plan(m, now, existing, reports, ids));
    forall k | k in rows' ensures RecordTimesOk(rows'[k], now)
    {
      ReconcileMeans(owner, rows, m, target, now, existing, reports, ids, k);
      assert Reported(reports, k.fingerprint) ==> reports[Position(reports, k.fingerprint)] in reports;
    }
  }

  lemma {:induction false} Occurrences<T>(s: seq<T>, x: T)
    ensures multiset(s)[x] >= 2 <==> exists i, j :: 0 <= i < j < |s| && s[i] == x && s[j] == x
    ensures multiset(s)[x] >= 1 <==> x in s
  {
    if s != [] {
      var n := |s| - 1;
      Occurrences(s[..n], x);
      assert s == s[..n] + [s[n]];
    }
  }

  lemma DistinctPermutation(fs: seq<Finding>, gs: seq<Finding>)
    requires DistinctFindings(fs) && DistinctFindings(gs)
    requires forall f :: f in fs <==> f in gs
    ensures multiset(fs) == multiset(gs)
  {
    forall f ensures multiset(fs)[f] == multiset(gs)[f] {
      Occurrences(fs, f);
      Occurrences(gs, f);
    }
  }

  lemma CollectorOkPermuted(owner: Owner, m: ModuleInfo, target: string, reports: seq<Finding>, reports': seq<Finding>)
    requires CollectorOk(owner, m, target, reports) && multiset(reports) == multiset(reports')
    ensures CollectorOk(owner, m, target, reports')
    ensures forall fp :: Reported(reports, fp) <==> Reported(reports', fp)
    ensures forall fp :: Reported(reports, fp) ==>
      Reported(reports', fp) && reports[Position(reports, fp)] == reports'[Position(reports', fp)]
  {
    forall f ensures f in reports <==> f in reports' {
      Occurrences(reports, f);
      Occurrences(reports', f);
    }
    forall i, j | 0 <= i < j < |reports'| && Accepted(reports'[i]) && Accepted(reports'[j])
      ensures reports'[i].fingerprint != reports'[j].fingerprint
    {
      var f, g := reports'[i], reports'[j];
      assert f in reports && g in reports;
      Occurrences(reports, f);
      Occurrences(reports', f);
    }
    forall fp
      ensures Reported(reports, fp) <==> Reported(reports', fp)
      ensures Reported(reports, fp) ==>
        Reported(reports', fp) && reports[Position(reports, fp)] == reports'[Position(reports', fp)]
    {
      if Reported(reports, fp) {
        var f := reports[Position(reports, fp)];
        assert f in reports';
        var i :| 0 <= i < |reports'| && reports'[i] == f;
        PositionUnique(reports', i);
      }
      if Reported(reports', fp) {
        var f := reports'[Position(reports', fp)];
        assert f in reports;
        var i :| 0 <= i < |reports| && reports[i] == f;
        PositionUnique(reports, i);
      }
    }
  }

  /** Equal, except that a record inserted by the scan may have been given a different id. */
  predicate SameButNewId(rows: Table, k: Key, a: Option<Record>, b: Option<Record>) {
    a == b ||
    (k !in rows && a.Some? && b.Some? && a.value.(f := a.value.f.(id := "")) == b.value.(f := b.value.f.(id := "")))
  }

  /** An announced finding without its id, if the scan inserted it. */
  function Anonymous(rows: Table, f: Finding): Finding {
    if FindingKey(f) in rows then f else f.(id := "")
  }

  function AllAnonymous(rows: Table, fs: seq<Finding>): seq<Finding> {
    seq(|fs|, i requires 0 <= i < |fs| => Anonymous(rows, fs[i]))
  }

  lemma AnonymousDistinct(rows: Table, ws: seq<Write>, note: Note)
    requires UniqueKeys(ws)
    ensures DistinctFindings(AllAnonymous(rows, Announced(ws, note)))
  {
    hide Announced, Anonymous;
    AnnouncedDistinct(ws, note);
    forall f ensures FindingKey(Anonymous(rows, f)) == FindingKey(f) { AnonymousKey(rows, f); }
  }

  /** The findings announced by a plan, without the ids of new records. */
  lemma AnonymousMembers(rows: Table, ws: seq<Write>, note: Note, g: Finding)
    requires UniqueKeys(ws) && Honest(rows, ws) && note != Silent && Keyed(ApplyAll(Memory, rows, ws))
    ensures var rows' := ApplyAll(Memory, rows, ws);
      g in AllAnonymous(rows, Announced(ws, note)) <==>
        (exists k :: k in rows' && Transition(Lookup(rows, k), Lookup(rows', k)) == note
          && Anonymous(rows, rows'[k].f) == g)
  {
    hide ApplyAll, Announced, Transition, Anonymous;
    var rows' := ApplyAll(Memory, rows, ws);
    var fs := Announced(ws, note);
    if g in AllAnonymous(rows, fs) {
      var i :| 0 <= i < |fs| && AllAnonymous(rows, fs)[i] == g;
      AnnouncedIsChanged(rows, ws, note, fs[i]);
    }
    if k :| k in rows' && Transition(Lookup(rows, k), Lookup(rows', k)) == note && Anonymous(rows, rows'[k].f) == g {
      AnnouncedIsChanged(rows, ws, note, rows'[k].f);
      var i :| 0 <= i < |fs| && fs[i] == rows'[k].f;
      assert AllAnonymous(rows, fs)[i] == g;
    }
  }

  lemma AnonymousKey(rows: Table, f: Finding)
    ensures FindingKey(Anonymous(rows, f)) == FindingKey(f)
  {
  }

  /** Tables that are the same but for new ids announce the same, but for new ids. */
  lemma SameAnnouncements(rows: Table, ws: seq<Write>, ws': seq<Write>, note: Note)
    requires UniqueKeys(ws) && Honest(rows, ws) && UniqueKeys(ws') && Honest(rows, ws') && note != Silent
    requires Keyed(ApplyAll(Memory, rows, ws)) && Keyed(ApplyAll(Memory, rows, ws'))
    requires forall k ::
      SameButNewId(rows, k, Lookup(ApplyAll(Memory, rows, ws), k), Lookup(ApplyAll(Memory, rows, ws'), k))
    ensures multiset(AllAnonymous(rows, Announced(ws, note))) == multiset(AllAnonymous(rows, Announced(ws', note)))
  {
    hide ApplyAll, Announced, Transition, Anonymous, AllAnonymous;
    var t, t' := ApplyAll(Memory, rows, ws), ApplyAll(Memory, rows, ws');
    var fs, fs' := AllAnonymous(rows, Announced(ws, note)), AllAnonymous(rows, Announced(ws', note));
    forall k
      ensures k in t <==> k in t'
      ensures Transition(Lookup(rows, k), Lookup(t, k)) == Transition(Lookup(rows, k), Lookup(t', k))
      ensures k in t && k in t' ==> Anonymous(rows, t[k].f) == Anonymous(rows, t'[k].f)
    {
      SameToHumans(rows, k, t, t');
    }
    forall g ensures g in fs <==> g in fs' {
      AnonymousMembers(rows, ws, note, g);
      AnonymousMembers(rows, ws', note, g);
    }
    AnonymousDistinct(rows, ws, note);
    AnonymousDistinct(rows, ws', note);
    DistinctPermutation(fs, fs');
  }

  lemma SameToHumans(rows: Table, k: Key, t: Table, t': Table)
    requires SameButNewId(rows, k, Lookup(t, k), Lookup(t', k)) && Keyed(t) && Keyed(t')
    ensures k in t <==> k in t'
    ensures Transition(Lookup(rows, k), Lookup(t, k)) == Transition(Lookup(rows, k), Lookup(t', k))
    ensures k in t && k in t' ==> Anonymous(rows, t[k].f) == Anonymous(rows, t'[k].f)
  {
    if k in t && k in t' {
      assert FindingKey(t[k].f) == k && FindingKey(t'[k].f) == k;
    }
  }

  /** Nothing that a scan closes is new. */
  lemma ClosedAreOld(rows: Table, ws: seq<Write>)
    requires UniqueKeys(ws) && Honest(rows, ws) && Keyed(ApplyAll(Memory, rows, ws))
    ensures AllAnonymous(rows, Announced(ws, Closed)) == Announced(ws, Closed)
  {
    hide ApplyAll, Announced;
    forall f | f in Announced(ws, Closed) ensures FindingKey(f) in rows {
      AnnouncedIsChanged(rows, ws, Closed, f);
    }
  }

  /** Neither the order of the reports nor the order of the store listing matters, whatever ids the generator hands
      out: table, openings and closures are the same up to the ids of new records. With the same id per report they
      are the same altogether. */
  lemma OrderDoesNotMatter(owner: Owner, rows: Table, m: ModuleInfo, target: string, now: Time,
                           existing: seq<Record>, existing': seq<Record>, reports: seq<Finding>, reports': seq<Finding>,
                           ids: Ids, ids': Ids)
    requires IsListing(existing, rows, m.id, target) && IsListing(existing', rows, m.id, target)
    requires CollectorOk(owner, m, target, reports) && multiset(reports) == multiset(reports') && Owned(owner, rows)
    ensures var plan, plan' := Plan(m, now, existing, reports, ids), Plan(m, now, existing', reports', ids');
      var t, t' := ApplyAll(Memory, rows, plan), ApplyAll(Memory, rows, plan');
      && (forall k :: SameButNewId(rows, k, Lookup(t, k), Lookup(t', k)))
      && multiset(Announced(plan, Closed)) == multiset(Announced(plan', Closed))
      && multiset(AllAnonymous(rows, Announced(plan, Opened))) == multiset(AllAnonymous(rows, Announced(plan', Opened)))
      && (SameIds(reports, ids, reports', ids') ==>
            t == t' && multiset(Announced(plan, Opened)) == multiset(Announced(plan', Opened)))
  {
    hide ApplyAll, Plan, Announced, CollectorOk, Position, AllAnonymous, SameIds, IsListing, Owned;
    var plan, plan' := Plan(m, now, existing, reports, ids), Plan(m, now, existing', reports', ids');
    var t, t' := ApplyAll(Memory, rows, plan), ApplyAll(Memory, rows, plan');
    CollectorOkPermuted(owner, m, target, reports, reports');
    SameTables(owner, rows, m, target, now, existing, existing', reports, reports', ids, ids');
    PlanIsSound(owner, rows, m, target, now, existing, reports, ids);
    PlanIsSound(owner, rows, m, target, now, existing', reports', ids');
    SameAnnouncements(rows, plan, plan', Opened);
    SameAnnouncements(rows, plan, plan', Closed);
    ClosedAreOld(rows, plan);
    ClosedAreOld(rows, plan');
    if SameIds(reports, ids, reports', ids') {
      forall f ensures f in Announced(plan, Opened) <==> f in Announced(plan', Opened) {
        AnnouncedIsChanged(rows, plan, Opened, f);
        AnnouncedIsChanged(rows, plan', Opened, f);
      }
      AnnouncedDistinct(plan, Opened);
      AnnouncedDistinct(plan', Opened);
      DistinctPermutation(Announced(plan, Opened), Announced(plan', Opened));
    }
  }

  /** Every report is given the same id in both orders. */
  ghost predicate SameIds(reports: seq<Finding>, ids: Ids, reports': seq<Finding>, ids': Ids) {
    forall i: nat, j: nat :: i < |reports| && j < |reports'| && reports[i] == reports'[j] ==> ids(i) == ids'(j)
  }

  lemma PlanIsSound(owner: Owner, rows: Table, m: ModuleInfo, target: string, now: Time,
                    existing: seq<Record>, reports: seq<Finding>, ids: Ids)
    requires IsListing(existing, rows, m.id, target) && CollectorOk(owner, m, target, reports) && Owned(owner, rows)
    ensures var plan := Plan(m, now, existing, reports, ids);
      UniqueKeys(plan) && Honest(rows, plan) && Keyed(ApplyAll(Memory, rows, plan))
  {
    hide ApplyAll, Plan, CollectorOk, IsListing;
    PlanUnique(owner, rows, m, target, now, existing, reports, ids);
    PlanHonest(owner, rows, m, target, now, existing, reports, ids);
    ReconcileFrame(owner, rows, m, target, now, existing, reports, ids);
  }

  lemma SameTables(owner: Owner, rows: Table, m: ModuleInfo, target: string, now: Time,
                   existing: seq<Record>, existing': seq<Record>, reports: seq<Finding>, reports': seq<Finding>,
                   ids: Ids, ids': Ids)
    requires IsListing(existing, rows, m.id, target) && IsListing(existing', rows, m.id, target)
    requires CollectorOk(owner, m, target, reports) && multiset(reports) == multiset(reports') && Owned(owner, rows)
    ensures var t, t' := ApplyAll(Memory, rows, Plan(m, now, existing, reports, ids)),
                         ApplyAll(Memory, rows, Plan(m, now, existing', reports', ids'));
      && (forall k :: SameButNewId(rows, k, Lookup(t, k), Lookup(t', k)))
      && (SameIds(reports, ids, reports', ids') ==> t == t')
  {
    hide ApplyAll, Plan, CollectorOk, Position;
    var t, t' := ApplyAll(Memory, rows, Plan(m, now, existing, reports, ids)),
                 ApplyAll(Memory, rows, Plan(m, now, existing', reports', ids'));
    CollectorOkPermuted(owner, m, target, reports, reports');
    forall k
      ensures SameButNewId(rows, k, Lookup(t, k), Lookup(t', k))
      ensures SameIds(reports, ids, reports', ids') ==> Lookup(t, k) == Lookup(t', k)
    {
      ReconcileMeans(owner, rows, m, target, now, existing, reports, ids, k);
      ReconcileMeans(owner, rows, m, target, now, existing', reports', ids', k);
    }
    if SameIds(reports, ids, reports', ids') {
      SameTable(t, t');
    }
  }

  lemma SameTable(t: Table, t': Table)
    requires forall k :: Lookup(t, k) == Lookup(t', k)
    ensures t == t'
  {
    forall k ensures k in t <==> k in t' { assert Lookup(t, k) == Lookup(t', k); }
    forall k | k in t ensures t[k] == t'[k] { assert Lookup(t, k) == Lookup(t', k); }
  }
}
