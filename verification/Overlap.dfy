/** Overlapping scans: exactly when an announcement is still true, and when the two stores still agree. */
module Overlap {
  import opened Core
  import opened Stores
  import opened Reconcile
  import opened Meaning
  import opened Interleaving
  import opened StoreRefinement
  import Runs

  // ---- announcements ----

  /** A planned note is true of the table it is written to, whatever that has become since the listing, exactly when
      the record's resolvedness is as listed. */
  lemma NoteIsTrueExactly(owner: Owner, rows0: Table, rows: Table, m: ModuleInfo, target: string, now: Time,
                          existing: seq<Record>, reports: seq<Finding>, ids: Ids, w: Write)
    requires IsListing(existing, rows0, m.id, target) && CollectorOk(owner, m, target, reports) && Owned(owner, rows0)
    requires w in Plan(m, now, existing, reports, ids)
    ensures w.note == Transition(Lookup(rows, KeyOf(w.rec)), Some(w.rec))
      <==> Unresolved(Lookup(rows, KeyOf(w.rec))) == Unresolved(Lookup(rows0, KeyOf(w.rec)))
  {
    hide Plan, Unresolved, IsListing, CollectorOk, Owned;
    PlanHonest(owner, rows0, m, target, now, existing, reports, ids);
  }

  lemma NextKeepsOwned(b: Backend, owner: Owner, thresholds: string -> int, s: System, a: Action)
    requires Enabled(b, thresholds, s, a) && CollectorsOk(owner, a) && OwnedSystem(owner, s)
    ensures OwnedSystem(owner, Next(b, thresholds, s, a))
  {
    hide Plan, CollectorOk;
    if a.BeginScan? {
      forall w | w in Plan(a.m, a.now, a.existing, a.reports, a.ids) ensures w.rec.f.target == owner(KeyOf(w.rec)) {
        Runs.PlanOwned(owner, s.rows, a.m, a.target, a.now, a.existing, a.reports, a.ids, w);
      }
    } else if a.WriteNext? {
      assert s.pending[a.pid][0] in s.pending[a.pid];
    }
  }

  lemma {:induction false} AlwaysOwned(b: Backend, owner: Owner, thresholds: string -> int, actions: seq<Action>,
                                       trace: seq<System>, i: nat)
    requires IsRun(b, thresholds, actions, trace) && i <= |actions|
    requires forall a :: a in actions ==> CollectorsOk(owner, a)
    ensures OwnedSystem(owner, trace[i])
  {
    hide Enabled, Next, OwnedSystem, CollectorsOk;
    if i == 0 {
      EmptyTwins(owner);
    } else {
      AlwaysOwned(b, owner, thresholds, actions, trace, i - 1);
      StepOf(b, thresholds, actions, trace, i - 1);
      NextKeepsOwned(b, owner, thresholds, trace[i - 1], actions[i - 1]);
    }
  }

  lemma StepOf(b: Backend, thresholds: string -> int, actions: seq<Action>, trace: seq<System>, i: nat)
    requires IsRun(b, thresholds, actions, trace) && i < |actions|
    ensures Enabled(b, thresholds, trace[i], actions[i]) && trace[i + 1] == Next(b, thresholds, trace[i], actions[i])
  {
  }

  /** From `i` to `j` the activity begun at `i` only writes. */
  ghost predicate SameActivity(actions: seq<Action>, i: nat, j: nat, pid: nat)
    requires i < j <= |actions|
  {
    && actions[i].BeginScan? && actions[i].pid == pid
    && forall l :: i < l < j && actions[l].pid == pid ==> actions[l].WriteNext?
  }

  lemma {:induction false} WritesOfActivity(b: Backend, thresholds: string -> int, actions: seq<Action>,
                                            trace: seq<System>, i: nat, j: nat, pid: nat)
    requires IsRun(b, thresholds, actions, trace) && i < j <= |actions| && SameActivity(actions, i, j, pid)
    ensures var a := actions[i];
      && pid in trace[j].pending
      && forall w :: w in trace[j].pending[pid] ==> w in Plan(a.m, a.now, a.existing, a.reports, a.ids)
    decreases j
  {
    hide Plan, Put, Refuses, IsListing;
    StepOf(b, thresholds, actions, trace, j - 1);
    if i < j - 1 {
      WritesOfActivity(b, thresholds, actions, trace, i, j - 1, pid);
    }
  }

  lemma WrittenRow(b: Backend, rows: Table, r: Record)
    requires !Refuses(b, rows, r)
    ensures Unresolved(Lookup(Put(b, rows, r), KeyOf(r))) == Unresolved(Some(r))
  {
  }

  /** In every interleaving, on either store: when a scan writes a record, the note it carries is what the write does
      to the table exactly when everything written since the scan's listing left that record's resolvedness alone. */
  lemma OverlapNoteExactly(b: Backend, owner: Owner, thresholds: string -> int, actions: seq<Action>,
                           trace: seq<System>,
                           i: nat, j: nat, pid: nat)
    requires IsRun(b, thresholds, actions, trace) && forall a :: a in actions ==> CollectorsOk(owner, a)
    requires i < j < |actions| && SameActivity(actions, i, j, pid) && actions[j] == WriteNext(pid)
    ensures pid in trace[j].pending && trace[j].pending[pid] != []
    ensures var w := trace[j].pending[pid][0]; var k := KeyOf(w.rec);
      w.note == Transition(Lookup(trace[j].rows, k), Lookup(trace[j + 1].rows, k))
      <==> Unresolved(Lookup(trace[j].rows, k)) == Unresolved(Lookup(trace[i].rows, k))
  {
    hide Plan, Put, Refuses, IsListing, CollectorOk, Owned, Unresolved, Lookup;
    StepOf(b, thresholds, actions, trace, i);
    StepOf(b, thresholds, actions, trace, j);
    WritesOfActivity(b, thresholds, actions, trace, i, j, pid);
    AlwaysOwned(b, owner, thresholds, actions, trace, i);
    var a, w := actions[i], trace[j].pending[pid][0];
    assert CollectorsOk(owner, a);
    assert w in trace[j].pending[pid];
    NoteIsTrueExactly(owner, trace[i].rows, trace[j].rows, a.m, a.target, a.now, a.existing, a.reports, a.ids, w);
    WrittenRow(b, trace[j].rows, w.rec);
  }

  // ---- the two stores ----

  /** The id, check and first-seen a row has after a write: the written ones in memory, and in the database those of
      the row that was there. */
  predicate SameOrigin(row: Option<Record>, r: Record, r': Record) {
    var kept := if row.Some? then row.value.f else r'.f;
    r.f.id == kept.id && r.f.check == kept.check && r.f.firstSeen == kept.firstSeen
  }

  /** Twin writes to twin tables leave the same row in both stores exactly when id, check and first-seen agree. */
  lemma SameRowExactly(owner: Owner, t: Table, t': Table, r: Record, r': Record)
    requires TwinTables(t, t') && Owned(owner, t') && r.f.target == owner(KeyOf(r))
    requires Twins(r, r') && !Refuses(Sqlite, t', r')
    ensures var k := KeyOf(r);
      Lookup(Put(Memory, t, r), k) == Lookup(Put(Sqlite, t', r'), k) <==> SameOrigin(Lookup(t', k), r, r')
  {
  }

  /** The same in every pair of twin runs, as `BackendsAreTwins` provides them. */
  lemma StoresAgreeExactly(owner: Owner, thresholds: string -> int, s: System, s': System, pid: nat)
    requires TwinSystems(s, s') && OwnedSystem(owner, s) && OwnedSystem(owner, s')
    requires Enabled(Memory, thresholds, s, WriteNext(pid)) && Enabled(Sqlite, thresholds, s', WriteNext(pid))
    ensures var r, r' := s.pending[pid][0].rec, s'.pending[pid][0].rec; var k := KeyOf(r);
      var next, next' := Next(Memory, thresholds, s, WriteNext(pid)), Next(Sqlite, thresholds, s', WriteNext(pid));
      && KeyOf(r') == k
      && (Lookup(next.rows, k) == Lookup(next'.rows, k) <==> SameOrigin(Lookup(s'.rows, k), r, r'))
      && forall k' :: k' != k ==>
           Lookup(next.rows, k') == Lookup(s.rows, k') && Lookup(next'.rows, k') == Lookup(s'.rows, k')
  {
    hide Refuses;
    var r, r' := s.pending[pid][0].rec, s'.pending[pid][0].rec;
    assert s.pending[pid][0] in s.pending[pid];
    assert TwinWrites(s.pending[pid], s'.pending[pid]);
    SameRowExactly(owner, s.rows, s'.rows, r, r');
  }
}
