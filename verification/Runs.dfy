/** Whole runs of the lifecycle: scans one after another, possibly cut short by an error, and user status changes. */
module Runs {
  import opened Core
  import opened Stores
  import opened Reconcile
  import opened Meaning

  datatype Step =
    | Scan(m: ModuleInfo, target: string, now: Time, existing: seq<Record>, reports: seq<Finding>, ids: Ids, done: nat)
    | SetStatus(k: Key, next: Status)

  ghost predicate UserStatus(s: Status) {
    s == Open || s == Acknowledged || s == Suppressed
  }

  ghost function WithStatus(r: Record, next: Status): Record {
    r.(f := r.f.(status := next))
  }

  ghost function FullPlan(s: Step): seq<Write>
    requires s.Scan?
  {
    Plan(s.m, s.now, s.existing, s.reports, s.ids)
  }

  /** The writes a step gets through to the store. */
  ghost function Executed(s: Step): seq<Write>
    requires s.Scan? ==> s.done <= |FullPlan(s)|
  {
    if s.Scan? then FullPlan(s)[..s.done] else []
  }

  /** A scan without an error; only such a scan hands its result on. */
  ghost predicate Complete(s: Step) {
    s.Scan? ==> s.done == |FullPlan(s)|
  }

  /** The module's threshold is fixed, the listing is of the current table, collectors keep their contract,
      and users only change records that are not resolved. */
  ghost predicate StepOk(owner: Owner, thresholds: string -> int, rows: Table, s: Step) {
    match s
    case Scan(m, target, now, existing, reports, ids, done) =>
      && m.resolveAfter == thresholds(m.id)
      && IsListing(existing, rows, m.id, target)
      && CollectorOk(owner, m, target, reports)
      && done <= |FullPlan(s)|
    case SetStatus(k, next) =>
      UserStatus(next) && (k in rows ==> rows[k].f.status != Resolved)
  }

  ghost function After(b: Backend, rows: Table, s: Step): Table
    requires s.Scan? ==> s.done <= |FullPlan(s)|
  {
    match s
    case Scan(_, _, _, _, _, _, _) => ApplyAll(b, rows, Executed(s))
    case SetStatus(k, next) => if k in rows then Put(b, rows, WithStatus(rows[k], next)) else rows
  }

  /** A user change sets the status of one record, on either store, and nothing else. */
  lemma UserChangeExactly(b: Backend, rows: Table, k: Key, next: Status)
    requires k in rows && Keyed(rows)
    ensures var rows' := After(b, rows, SetStatus(k, next));
      && rows'.Keys == rows.Keys
      && rows'[k] == rows[k].(f := rows[k].f.(status := next))
      && forall k' :: k' in rows && k' != k ==> rows'[k'] == rows[k']
  {
  }

  ghost predicate Cut(run: seq<Step>) {
    forall s :: s in run && s.Scan? ==> s.done <= |FullPlan(s)|
  }

  ghost function State(b: Backend, run: seq<Step>): Table
    requires Cut(run)
  {
    if run == [] then map[] else After(b, State(b, run[..|run| - 1]), run[|run| - 1])
  }

  ghost predicate RunOk(owner: Owner, thresholds: string -> int, run: seq<Step>)
    ensures RunOk(owner, thresholds, run) ==> Cut(run)
  {
    && Cut(run)
    && (run == [] ||
        (var n := |run| - 1;
         RunOk(owner, thresholds, run[..n]) && StepOk(owner, thresholds, State(Memory, run[..n]), run[n])))
  }

  /** Everything written by the scans of a run, in order. */
  ghost function Log(run: seq<Step>): seq<Write>
    requires Cut(run)
  {
    if run == [] then [] else Log(run[..|run| - 1]) + Executed(run[|run| - 1])
  }

  // ---- counting ----

  ghost function OpenSet(rows: Table): set<Key> {
    set k | k in rows && rows[k].f.status != Resolved
  }

  ghost function Count(ws: seq<Write>, note: Note): nat {
    |Announced(ws, note)|
  }

  ghost function Balance(ws: seq<Write>): int {
    Count(ws, Opened) - Count(ws, Closed)
  }

  lemma BalanceConcat(ws: seq<Write>, vs: seq<Write>)
    ensures Balance(ws + vs) == Balance(ws) + Balance(vs)
  {
    AnnouncedConcat(ws, vs, Opened);
    AnnouncedConcat(ws, vs, Closed);
  }

  lemma PutOpenSet(rows: Table, k: Key, r: Record)
    ensures OpenSet(rows[k := r]) == if Unresolved(Some(r)) then OpenSet(rows) + {k} else OpenSet(rows) - {k}
    ensures k in OpenSet(rows) <==> Unresolved(Lookup(rows, k))
  {
  }

  lemma PutChangesOpenSet(rows: Table, k: Key, r: Record)
    ensures |OpenSet(rows[k := r])| - |OpenSet(rows)| ==
      match Transition(Lookup(rows, k), Some(r)) case Silent => 0 case Opened => 1 case Closed => -1
  {
    hide OpenSet, Unresolved, Lookup;
    PutOpenSet(rows, k, r);
  }

  /** Honest writes to distinct keys change the number of unresolved records by what they announce. */
  lemma {:induction false} WritesConserve(rows: Table, ws: seq<Write>)
    requires UniqueKeys(ws) && Honest(rows, ws)
    ensures |OpenSet(ApplyAll(Memory, rows, ws))| == |OpenSet(rows)| + Balance(ws)
  {
    hide Transition;
    if ws != [] {
      var n := |ws| - 1;
      var w := ws[n];
      assert ws == ws[..n] + [w];
      WritesConserve(rows, ws[..n]);
      ApplyUnique(rows, ws[..n]);
      PutChangesOpenSet(ApplyAll(Memory, rows, ws[..n]), KeyOf(w.rec), w.rec);
      AnnouncedOne(ws[..n], w, Opened);
      AnnouncedOne(ws[..n], w, Closed);
    }
  }

  // ---- what a step keeps ----

  lemma PlanPrefixOk(rows: Table, ws: seq<Write>, n: nat)
    requires UniqueKeys(ws) && Honest(rows, ws) && n <= |ws|
    ensures UniqueKeys(ws[..n]) && Honest(rows, ws[..n])
  {
  }

  lemma ScanWritesOk(owner: Owner, thresholds: string -> int, rows: Table, s: Step)
    requires s.Scan? && StepOk(owner, thresholds, rows, s) && Owned(owner, rows)
    ensures UniqueKeys(Executed(s)) && Honest(rows, Executed(s))
  {
    hide Plan;
    PlanUnique(owner, rows, s.m, s.target, s.now, s.existing, s.reports, s.ids);
    PlanHonest(owner, rows, s.m, s.target, s.now, s.existing, s.reports, s.ids);
    PlanPrefixOk(rows, FullPlan(s), s.done);
  }

  /** Every record written by a plan lies on the target that owns its key. */
  lemma PlanOwned(owner: Owner, rows: Table, m: ModuleInfo, target: string, now: Time, existing: seq<Record>,
                  reports: seq<Finding>, ids: Ids, w: Write)
    requires IsListing(existing, rows, m.id, target) && CollectorOk(owner, m, target, reports) && Owned(owner, rows)
    requires w in Plan(m, now, existing, reports, ids)
    ensures w.rec.f.target == owner(KeyOf(w.rec))
  {
    hide PlanFresh, PlanAbsent, ByFingerprint, Seen;
    var k := ResolveAfterOrDefault(m.resolveAfter);
    var index := ByFingerprint(existing);
    if w in PlanFresh(m.id, now, index, reports, ids) {
      PlanFreshMembers(m.id, now, index, reports, ids, w);
      var i :| 0 <= i < |reports| && Accepted(reports[i])
        && w == FreshWrite(m.id, now, Prev(index, reports[i].fingerprint), reports[i], IdAt(ids, i));
      assert reports[i] in reports;
      IndexIsLookup(owner, rows, m, target, existing, reports[i].fingerprint);
    } else {
      PlanAbsentMembers(k, now, existing, Seen(reports), w);
    }
  }

  lemma {:induction false} WritesOwned(owner: Owner, rows: Table, ws: seq<Write>)
    requires Owned(owner, rows) && forall w :: w in ws ==> w.rec.f.target == owner(KeyOf(w.rec))
    ensures Owned(owner, ApplyAll(Memory, rows, ws))
  {
    if ws != [] {
      WritesOwned(owner, rows, ws[..|ws| - 1]);
    }
  }

  lemma StepKeepsOwned(owner: Owner, thresholds: string -> int, rows: Table, s: Step)
    requires StepOk(owner, thresholds, rows, s) && Owned(owner, rows)
    ensures Owned(owner, After(Memory, rows, s))
  {
    if s.Scan? {
      hide Plan;
      forall w | w in Executed(s) ensures w.rec.f.target == owner(KeyOf(w.rec)) {
        PlanOwned(owner, rows, s.m, s.target, s.now, s.existing, s.reports, s.ids, w);
      }
      WritesOwned(owner, rows, Executed(s));
    }
  }

  lemma {:induction false} StateOwned(owner: Owner, thresholds: string -> int, run: seq<Step>)
    requires RunOk(owner, thresholds, run)
    ensures Owned(owner, State(Memory, run))
  {
    hide StepOk, After;
    if run != [] {
      var n := |run| - 1;
      StateOwned(owner, thresholds, run[..n]);
      StepKeepsOwned(owner, thresholds, State(Memory, run[..n]), run[n]);
    }
  }

  // ---- conservation ----

  lemma StepConserves(owner: Owner, thresholds: string -> int, rows: Table, s: Step)
    requires StepOk(owner, thresholds, rows, s) && Owned(owner, rows)
    ensures |OpenSet(After(Memory, rows, s))| == |OpenSet(rows)| + Balance(Executed(s))
  {
    hide Plan, Announced;
    NoWrites(Memory, rows);
    if s.Scan? {
      ScanWritesOk(owner, thresholds, rows, s);
      WritesConserve(rows, Executed(s));
    } else if s.k in rows {
      PutChangesOpenSet(rows, s.k, WithStatus(rows[s.k], s.next));
    }
  }

  /** In every run, announced openings minus announced closures is the number of unresolved records. */
  lemma {:induction false} NotificationConservation(owner: Owner, thresholds: string -> int, run: seq<Step>)
    requires RunOk(owner, thresholds, run)
    ensures |OpenSet(State(Memory, run))| == Count(Log(run), Opened) - Count(Log(run), Closed)
  {
    hide StepOk, After, Announced, Executed;
    NoWrites(Memory, map[]);
    if run != [] {
      var n := |run| - 1;
      NotificationConservation(owner, thresholds, run[..n]);
      StateOwned(owner, thresholds, run[..n]);
      StepConserves(owner, thresholds, State(Memory, run[..n]), run[n]);
      BalanceConcat(Log(run[..n]), Executed(run[n]));
    }
  }

  /** The writes of the scans that completed, and of those that an error cut short. */
  ghost function Delivered(run: seq<Step>, complete: bool): seq<Write>
    requires Cut(run)
  {
    if run == [] then []
    else
      var n := |run| - 1;
      Delivered(run[..n], complete) + if Complete(run[n]) == complete then Executed(run[n]) else []
  }

  lemma {:induction false} LogSplits(run: seq<Step>)
    requires Cut(run)
    ensures Balance(Log(run)) == Balance(Delivered(run, true)) + Balance(Delivered(run, false))
  {
    hide Announced, Executed, Complete;
    NoWrites(Memory, map[]);
    if run != [] {
      var n := |run| - 1;
      LogSplits(run[..n]);
      BalanceConcat(Log(run[..n]), Executed(run[n]));
      BalanceConcat(Delivered(run[..n], true), Executed(run[n]));
      BalanceConcat(Delivered(run[..n], false), Executed(run[n]));
      assert Delivered(run[..n], false) + [] == Delivered(run[..n], false);
      assert Delivered(run[..n], true) + [] == Delivered(run[..n], true);
    }
  }
}
