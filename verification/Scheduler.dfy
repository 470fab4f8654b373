/** The scheduler as a system of steps: module loops, scans, the worker slots, the wait group, and Stop. */
module Scheduler {

  datatype Kind = BySweep | ByAddTarget | ByScanNow

  /** Waiting for a slot; holding one while collecting and reconciling; returned, but not yet finished. */
  datatype Phase = Waiting | Collecting | Returned

  datatype Scan = Scan(kind: Kind, phase: Phase)

  /** A call of Stop, waiting on the wait group or returned. */
  datatype StopCall = Blocked | Over

  /** `adding` counts AddTarget calls that have checked the context but not yet launched their scan. */
  datatype State = State(started: bool, cancelled: bool, loops: set<string>, scans: map<nat, Scan>,
                         slots: nat, group: nat, adding: nat, stops: map<nat, StopCall>)

  const INITIAL := State(false, false, {}, map[], 0, 0, 0, map[])

  datatype Action =
    | Start
    | CancelParent
    | LaunchSweepScan(loop: string, id: nat)
    | LeaveLoop(loop: string)
    | CheckAddTarget
    | LaunchAddScan(id: nat)
    | LaunchScanNow(id: nat)
    | TakeSlot(id: nat)
    | GiveUp(id: nat)
    | ReturnFromScan(id: nat)
    | Finish(id: nat)
    | CallStop(call: nat)
    | StopReturns(call: nat)

  datatype Setup = Setup(modules: set<string>, workers: nat)

  predicate InPhase(s: State, id: nat, p: Phase) {
    id in s.scans && s.scans[id].phase == p
  }

  predicate Waits(s: State, call: nat) {
    call in s.stops && s.stops[call] == Blocked
  }

  predicate Enabled(c: Setup, s: State, a: Action) {
    match a
    case Start => !s.started
    case CancelParent => true
    case LaunchSweepScan(loop, id) => loop in s.loops && id !in s.scans
    case LeaveLoop(loop) => loop in s.loops && s.cancelled
    case CheckAddTarget => s.started && !s.cancelled
    case LaunchAddScan(id) => s.adding > 0 && id !in s.scans
    case LaunchScanNow(id) => id !in s.scans
    case TakeSlot(id) => InPhase(s, id, Waiting) && s.slots < c.workers
    case GiveUp(id) => InPhase(s, id, Waiting) && (s.scans[id].kind == ByScanNow || s.cancelled)
    case ReturnFromScan(id) => InPhase(s, id, Collecting) && s.slots > 0
    case Finish(id) => InPhase(s, id, Returned) && (s.scans[id].kind != ByScanNow ==> s.group > 0)
    case CallStop(call) => call !in s.stops
    case StopReturns(call) => Waits(s, call) && s.group == 0
  }

  function Moved(s: State, id: nat, p: Phase): State
    requires id in s.scans
  {
    s.(scans := s.scans[id := s.scans[id].(phase := p)])
  }

  function Launched(s: State, id: nat, kind: Kind): State {
    s.(scans := s.scans[id := Scan(kind, Waiting)])
  }

  function Next(c: Setup, s: State, a: Action): State
    requires Enabled(c, s, a)
  {
    match a
    case Start => s.(started := true, loops := c.modules, group := s.group + |c.modules|)
    case CancelParent => s.(cancelled := true)
    case LaunchSweepScan(loop, id) => Launched(s, id, BySweep).(group := s.group + 1)
    case LeaveLoop(loop) => s.(loops := s.loops - {loop}, group := if s.group > 0 then s.group - 1 else 0)
    case CheckAddTarget => s.(adding := s.adding + 1)
    case LaunchAddScan(id) => Launched(s, id, ByAddTarget).(adding := s.adding - 1, group := s.group + 1)
    case LaunchScanNow(id) => Launched(s, id, ByScanNow)
    case TakeSlot(id) => Moved(s, id, Collecting).(slots := s.slots + 1)
    case GiveUp(id) => Moved(s, id, Returned)
    case ReturnFromScan(id) => Moved(s, id, Returned).(slots := s.slots - 1)
    case Finish(id) =>
      s.(scans := s.scans - {id}, group := if s.scans[id].kind == ByScanNow then s.group else s.group - 1)
    case CallStop(call) => s.(stops := s.stops[call := Blocked], cancelled := s.cancelled || s.started)
    case StopReturns(call) => s.(stops := s.stops[call := Over])
  }

  /** `trace` holds the states that the actions lead through from `trace[0]` on. */
  ghost predicate IsRun(c: Setup, actions: seq<Action>, trace: seq<State>) {
    && |trace| == |actions| + 1
    && forall i :: 0 <= i < |actions| ==>
         Enabled(c, trace[i], actions[i]) && trace[i + 1] == Next(c, trace[i], actions[i])
  }

  ghost predicate Reachable(c: Setup, s: State) {
    exists actions: seq<Action>, trace: seq<State> ::
      IsRun(c, actions, trace) && trace[0] == INITIAL && trace[|actions|] == s
  }

  // ---- invariant ----

  function Busy(scans: map<nat, Scan>): set<nat> {
    set id | id in scans && scans[id].phase == Collecting
  }

  /** The scans the wait group counts. */
  function Tracked(scans: map<nat, Scan>): set<nat> {
    set id | id in scans && scans[id].kind != ByScanNow
  }

  function Swept(scans: map<nat, Scan>): set<nat> {
    set id | id in scans && scans[id].kind == BySweep
  }

  ghost predicate Inv(c: Setup, s: State) {
    && |Busy(s.scans)| == s.slots <= c.workers
    && s.group == |s.loops| + |Tracked(s.scans)|
    && (s.started && !s.cancelled ==> s.loops == c.modules)
    && (!s.started ==> s.loops == {} && Swept(s.scans) == {} && s.adding == 0 && Tracked(s.scans) == {})
  }

  lemma BusyChanges(scans: map<nat, Scan>, id: nat, scan: Scan)
    ensures Busy(scans[id := scan]) == if scan.phase == Collecting then Busy(scans) + {id} else Busy(scans) - {id}
    ensures Busy(scans - {id}) == Busy(scans) - {id}
  {
  }

  lemma TrackedChanges(scans: map<nat, Scan>, id: nat, scan: Scan)
    ensures Tracked(scans[id := scan]) == if scan.kind != ByScanNow then Tracked(scans) + {id}
        else Tracked(scans) - {id}
    ensures Tracked(scans - {id}) == Tracked(scans) - {id}
    ensures Swept(scans[id := scan]) == if scan.kind == BySweep then Swept(scans) + {id} else Swept(scans) - {id}
    ensures Swept(scans - {id}) == Swept(scans) - {id}
  {
  }

  lemma OneMoreOrLess(ids: set<nat>, id: nat)
    ensures id in ids ==> ids + {id} == ids && |ids - {id}| == |ids| - 1
    ensures id !in ids ==> ids - {id} == ids && |ids + {id}| == |ids| + 1
  {
  }

  lemma LaunchKeepsCounts(scans: map<nat, Scan>, id: nat, kind: Kind)
    requires id !in scans
    ensures var more := scans[id := Scan(kind, Waiting)];
      && Busy(more) == Busy(scans)
      && |Tracked(more)| == |Tracked(scans)| + (if kind == ByScanNow then 0 else 1)
      && (kind == ByScanNow ==> Tracked(more) == Tracked(scans))
      && (kind != BySweep ==> Swept(more) == Swept(scans))
  {
    hide Busy, Tracked, Swept;
    Absent(scans, id);
    BusyChanges(scans, id, Scan(kind, Waiting));
    TrackedChanges(scans, id, Scan(kind, Waiting));
    OneMoreOrLess(Busy(scans), id);
    OneMoreOrLess(Tracked(scans), id);
    OneMoreOrLess(Swept(scans), id);
  }

  lemma LaunchKeepsInv(c: Setup, s: State, a: Action)
    requires a.LaunchSweepScan? || a.LaunchAddScan? || a.LaunchScanNow?
    requires Inv(c, s) && Enabled(c, s, a)
    ensures Inv(c, Next(c, s, a))
  {
    hide Busy, Tracked, Swept;
    var kind := if a.LaunchSweepScan? then BySweep else if a.LaunchAddScan? then ByAddTarget else ByScanNow;
    LaunchKeepsCounts(s.scans, a.id, kind);
  }

  /** Nothing of the invariant depends on a scan but its kind and whether it is collecting. */
  lemma MoveKeepsCounts(c: Setup, s: State, id: nat, p: Phase)
    requires Inv(c, s) && id in s.scans
    ensures var t := Moved(s, id, p);
      && Tracked(t.scans) == Tracked(s.scans) && Swept(t.scans) == Swept(s.scans)
      && |Busy(t.scans)| == s.slots
           - (if s.scans[id].phase == Collecting then 1 else 0) + (if p == Collecting then 1 else 0)
  {
    hide Busy, Tracked, Swept;
    Present(s.scans, id);
    BusyChanges(s.scans, id, s.scans[id].(phase := p));
    TrackedChanges(s.scans, id, s.scans[id].(phase := p));
    OneMoreOrLess(Busy(s.scans), id);
    OneMoreOrLess(Tracked(s.scans), id);
    OneMoreOrLess(Swept(s.scans), id);
  }

  lemma RemovalKeepsCounts(scans: map<nat, Scan>, id: nat)
    requires id in scans && scans[id].phase == Returned
    ensures var rest := scans - {id};
      && Busy(rest) == Busy(scans) && Swept(rest) <= Swept(scans) && Tracked(rest) <= Tracked(scans)
      && |Tracked(rest)| == |Tracked(scans)| - if scans[id].kind == ByScanNow then 0 else 1
  {
    hide Busy, Tracked, Swept;
    Present(scans, id);
    BusyChanges(scans, id, scans[id]);
    TrackedChanges(scans, id, scans[id]);
    OneMoreOrLess(Busy(scans), id);
    OneMoreOrLess(Tracked(scans), id);
  }

  lemma FinishKeepsInv(c: Setup, s: State, id: nat)
    requires Inv(c, s) && Enabled(c, s, Finish(id))
    ensures Inv(c, Next(c, s, Finish(id)))
  {
    hide Busy, Tracked, Swept;
    SweptAreTracked(s.scans);
    RemovalKeepsCounts(s.scans, id);
  }

  lemma MoveKeepsInv(c: Setup, s: State, a: Action)
    requires a.TakeSlot? || a.GiveUp? || a.ReturnFromScan?
    requires Inv(c, s) && Enabled(c, s, a)
    ensures Inv(c, Next(c, s, a))
  {
    hide Busy, Tracked, Swept;
    MoveKeepsCounts(c, s, a.id, if a.TakeSlot? then Collecting else Returned);
  }

  lemma NextKeepsInv(c: Setup, s: State, a: Action)
    requires Inv(c, s) && Enabled(c, s, a)
    ensures Inv(c, Next(c, s, a))
  {
    hide Busy, Tracked, Swept;
    if a.LaunchSweepScan? || a.LaunchAddScan? || a.LaunchScanNow? {
      LaunchKeepsInv(c, s, a);
    } else if a.TakeSlot? || a.GiveUp? || a.ReturnFromScan? {
      MoveKeepsInv(c, s, a);
    } else if a.Finish? {
      FinishKeepsInv(c, s, a.id);
    } else {
      SweptAreTracked(s.scans);
    }
  }

  lemma SweptAreTracked(scans: map<nat, Scan>)
    ensures Swept(scans) <= Tracked(scans)
  {
  }

  lemma Absent(scans: map<nat, Scan>, id: nat)
    requires id !in scans
    ensures id !in Busy(scans) && id !in Tracked(scans) && id !in Swept(scans)
  {
  }

  lemma Present(scans: map<nat, Scan>, id: nat)
    requires id in scans
    ensures id in Busy(scans) <==> scans[id].phase == Collecting
    ensures id in Tracked(scans) <==> scans[id].kind != ByScanNow
    ensures id in Swept(scans) <==> scans[id].kind == BySweep
  {
  }

  lemma {:induction false} RunKeepsInv(c: Setup, actions: seq<Action>, trace: seq<State>, i: nat)
    requires IsRun(c, actions, trace) && Inv(c, trace[0]) && i <= |actions|
    ensures Inv(c, trace[i])
  {
    hide Enabled, Next, Inv;
    if i > 0 {
      RunKeepsInv(c, actions, trace, i - 1);
      assert Enabled(c, trace[i - 1], actions[i - 1]) && trace[i - 1 + 1] == Next(c, trace[i - 1], actions[i - 1]);
      NextKeepsInv(c, trace[i - 1], actions[i - 1]);
    }
  }

  lemma InitialInv(c: Setup)
    ensures Inv(c, INITIAL)
  {
    assert Busy(map[]) == {} && Tracked(map[]) == {} && Swept(map[]) == {};
  }

  lemma ReachableInv(c: Setup, s: State)
    requires Reachable(c, s)
    ensures Inv(c, s)
  {
    hide Inv, Next, Enabled;
    var actions: seq<Action>, trace: seq<State> :|
      IsRun(c, actions, trace) && trace[0] == INITIAL && trace[|actions|] == s;
    InitialInv(c);
    RunKeepsInv(c, actions, trace, |actions|);
  }

  // ---- safety ----

  /** However sweep, add-time and scan-now scans interleave, at most `workers` of them collect at once, and the
      slots taken are exactly those of the scans that are collecting: every exit has given its slot back. */
  lemma WorkersAreBounded(c: Setup, s: State)
    requires Reachable(c, s)
    ensures |Busy(s.scans)| <= c.workers && s.slots == |Busy(s.scans)|
  {
    ReachableInv(c, s);
  }

  /** Nobody stops scanning on its own: from Start until a cancel every module's loop is alive, and a scan that waits
      for a slot can only take one, unless it is a scan-now scan, whose own caller may give up. */
  lemma AliveUntilCancelled(c: Setup, s: State)
    requires Reachable(c, s) && s.started && !s.cancelled
    ensures s.loops == c.modules
    ensures forall id :: Enabled(c, s, GiveUp(id)) ==> s.scans[id].kind == ByScanNow
  {
    ReachableInv(c, s);
  }

  /** Over every run: the context is over when the parent cancelled it or a Stop came after Start, and only then. */
  lemma {:induction false} CancelledExactly(c: Setup, actions: seq<Action>, trace: seq<State>, i: nat)
    requires IsRun(c, actions, trace) && trace[0] == INITIAL && i <= |actions|
    ensures trace[i].started <==> exists j :: 0 <= j < i && actions[j] == Start
    ensures trace[i].cancelled <==> exists j ::
      && 0 <= j < i
      && (actions[j] == CancelParent || (actions[j].CallStop? && exists l :: 0 <= l < j && actions[l] == Start))
  {
    if i > 0 {
      CancelledExactly(c, actions, trace, i - 1);
      assert Enabled(c, trace[i - 1], actions[i - 1]) && trace[i - 1 + 1] == Next(c, trace[i - 1], actions[i - 1]);
    }
  }

  predicate IsStepOf(a: Action, id: nat) {
    a == TakeSlot(id) || a == GiveUp(id) || a == ReturnFromScan(id) || a == Finish(id)
  }

  /** The scan can come to its end while nothing else in the system moves. */
  ghost predicate EndsByItself(c: Setup, s: State, id: nat) {
    exists actions: seq<Action>, trace: seq<State> ::
      IsRun(c, actions, trace) && trace[0] == s && (forall a :: a in actions ==> IsStepOf(a, id))
      && id !in trace[|actions|].scans
  }

  lemma EndsNow(c: Setup, s: State, id: nat)
    requires Inv(c, s) && id in s.scans && s.scans[id].phase == Returned
    ensures EndsByItself(c, s, id)
  {
    Present(s.scans, id);
    var actions, trace := [Finish(id)], [s, Next(c, s, Finish(id))];
    assert IsRun(c, actions, trace);
  }

  lemma EndsLater(c: Setup, s: State, a: Action, id: nat)
    requires Enabled(c, s, a) && IsStepOf(a, id) && EndsByItself(c, Next(c, s, a), id)
    ensures EndsByItself(c, s, id)
  {
    hide Enabled, Next, IsStepOf;
    var actions: seq<Action>, trace: seq<State> :|
      IsRun(c, actions, trace) && trace[0] == Next(c, s, a) && (forall b :: b in actions ==> IsStepOf(b, id))
      && id !in trace[|actions|].scans;
    Prepend(c, s, a, actions, trace);
    assert ([s] + trace)[|[a] + actions|] == trace[|actions|];
  }

  /** A scan depends on others only while it waits for a slot and none is free: then a scan-now scan may still give up
      at any time, and every other scan may do so once the context is over, but not before. */
  lemma EndsByItselfExactly(c: Setup, s: State, id: nat)
    requires Reachable(c, s) && id in s.scans
    ensures EndsByItself(c, s, id) <==>
      s.scans[id].phase != Waiting || s.scans[id].kind == ByScanNow || s.cancelled || |Busy(s.scans)| < c.workers
  {
    hide Inv, EndsByItself, Busy;
    ReachableInv(c, s);
    SlotsAreBusy(c, s, id);
    if s.scans[id].phase == Returned {
      EndsNow(c, s, id);
    } else if s.scans[id].phase == Collecting {
      EndsAfter(c, s, ReturnFromScan(id), id);
    } else if s.scans[id].kind == ByScanNow || s.cancelled {
      EndsAfter(c, s, GiveUp(id), id);
    } else if s.slots < c.workers {
      var taken := Next(c, s, TakeSlot(id));
      NextKeepsInv(c, s, TakeSlot(id));
      EndsAfter(c, taken, ReturnFromScan(id), id);
      EndsLater(c, s, TakeSlot(id), id);
    } else {
      StandsStill(c, s, id);
    }
  }

  lemma SlotsAreBusy(c: Setup, s: State, id: nat)
    requires Inv(c, s) && id in s.scans
    ensures s.slots == |Busy(s.scans)|
    ensures s.scans[id].phase == Collecting ==> s.slots > 0
  {
    Present(s.scans, id);
  }

  lemma EndsAfter(c: Setup, s: State, a: Action, id: nat)
    requires Inv(c, s) && id in s.scans && Enabled(c, s, a) && (a == ReturnFromScan(id) || a == GiveUp(id))
    ensures EndsByItself(c, s, id)
  {
    hide Inv, EndsByItself;
    NextKeepsInv(c, s, a);
    EndsNow(c, Next(c, s, a), id);
    EndsLater(c, s, a, id);
  }

  lemma StandsStill(c: Setup, s: State, id: nat)
    requires id in s.scans && s.scans[id].phase == Waiting && s.scans[id].kind != ByScanNow && !s.cancelled
    requires s.slots >= c.workers
    ensures !EndsByItself(c, s, id)
  {
    assert forall a :: IsStepOf(a, id) ==> !Enabled(c, s, a);
    hide Enabled, IsStepOf;
  }

  /** A module loop, or a scan that one launched, is alive. */
  predicate Sweeping(s: State) {
    s.loops != {} || Swept(s.scans) != {}
  }

  /** What a Stop waits for: the module loops, the scans they launched, the add-time scans. Not for scan-now scans. */
  lemma StopWaitsForExactly(c: Setup, s: State, call: nat)
    requires Reachable(c, s) && Waits(s, call)
    ensures Enabled(c, s, StopReturns(call)) <==>
      s.loops == {} && forall id :: id in s.scans ==> s.scans[id].kind == ByScanNow
  {
    ReachableInv(c, s);
    assert Tracked(s.scans) == {} <==> forall id :: id in s.scans ==> id !in Tracked(s.scans);
  }

  /** When any call of Stop returns, no loop and no scan launched by one is alive, and one can come alive again, in
      some continuation, exactly when Start has not been called yet. */
  lemma StopGuardsExactly(c: Setup, s: State, call: nat)
    requires Reachable(c, s) && Enabled(c, s, StopReturns(call))
    ensures !Sweeping(s)
    ensures var over := Next(c, s, StopReturns(call));
      (exists actions: seq<Action>, trace: seq<State> ::
         IsRun(c, actions, trace) && trace[0] == over && Sweeping(trace[|actions|]))
      <==> !s.started && c.modules != {}
  {
    ReachableInv(c, s);
    SweptAreTracked(s.scans);
    var over := Next(c, s, StopReturns(call));
    if actions: seq<Action>, trace: seq<State> :|
      IsRun(c, actions, trace) && trace[0] == over && Sweeping(trace[|actions|])
    {
      if s.started {
        StopIsFinal(c, s, call, actions, trace, |actions|);
      } else if c.modules == {} {
        NothingToSweep(c, actions, trace, |actions|);
      }
    }
    if !s.started && c.modules != {} {
      var actions, trace := [Start], [over, Next(c, over, Start)];
      assert IsRun(c, actions, trace) && Sweeping(trace[|actions|]);
    }
  }

  /** Once a call of Stop has returned after Start, no loop and no sweep-launched scan is ever alive again. */
  lemma {:induction false} StopIsFinal(c: Setup, s: State, call: nat, actions: seq<Action>, trace: seq<State>, i: nat)
    requires Reachable(c, s) && Enabled(c, s, StopReturns(call)) && s.started
    requires IsRun(c, actions, trace) && trace[0] == Next(c, s, StopReturns(call)) && i <= |actions|
    ensures trace[i].started && !Sweeping(trace[i])
    ensures i < |actions| ==> !actions[i].LaunchSweepScan? && !actions[i].Start?
  {
    ReachableInv(c, s);
    SweptAreTracked(s.scans);
    if i > 0 {
      StopIsFinal(c, s, call, actions, trace, i - 1);
      assert Enabled(c, trace[i - 1], actions[i - 1]) && trace[i - 1 + 1] == Next(c, trace[i - 1], actions[i - 1]);
      QuietStep(c, trace[i - 1], actions[i - 1]);
    }
    if i < |actions| {
      assert Enabled(c, trace[i], actions[i]);
    }
  }

  /** The failing order: Stop returns, then Start launches every loop. */
  lemma StopBeforeStart(c: Setup) returns (actions: seq<Action>, trace: seq<State>)
    ensures IsRun(c, actions, trace) && trace[0] == INITIAL
    ensures trace[|actions|].stops == map[0 := Over] && trace[|actions|].loops == c.modules
  {
    actions := [CallStop(0), StopReturns(0), Start];
    var s1 := Next(c, INITIAL, CallStop(0));
    var s2 := Next(c, s1, StopReturns(0));
    trace := [INITIAL, s1, s2, Next(c, s2, Start)];
  }

  lemma QuietStep(c: Setup, s: State, a: Action)
    requires Enabled(c, s, a) && !Sweeping(s) && (s.started || c.modules == {})
    ensures !Sweeping(Next(c, s, a)) && (s.started ==> Next(c, s, a).started)
  {
    if a.TakeSlot? || a.GiveUp? || a.ReturnFromScan? || a.Finish? {
      Present(s.scans, a.id);
    }
  }

  lemma {:induction false} NothingToSweep(c: Setup, actions: seq<Action>, trace: seq<State>, i: nat)
    requires IsRun(c, actions, trace) && !Sweeping(trace[0]) && c.modules == {} && i <= |actions|
    ensures !Sweeping(trace[i])
  {
    hide Enabled, Next, Sweeping;
    if i > 0 {
      NothingToSweep(c, actions, trace, i - 1);
      assert Enabled(c, trace[i - 1], actions[i - 1]) && trace[i - 1 + 1] == Next(c, trace[i - 1], actions[i - 1]);
      QuietStep(c, trace[i - 1], actions[i - 1]);
    }
  }

  // ---- the add-time race ----

  function Checks(actions: seq<Action>): nat {
    if actions == [] then 0
    else Checks(actions[..|actions| - 1]) + if actions[|actions| - 1].CheckAddTarget? then 1 else 0
  }

  function AddLaunches(actions: seq<Action>): nat {
    if actions == [] then 0
    else AddLaunches(actions[..|actions| - 1]) + if actions[|actions| - 1].LaunchAddScan? then 1 else 0
  }

  /** In every run, each add-time scan comes from one call that passed the check; the others still stand before it. */
  lemma {:induction false} EveryAddScanWasChecked(c: Setup, actions: seq<Action>, trace: seq<State>, i: nat)
    requires IsRun(c, actions, trace) && trace[0] == INITIAL && i <= |actions|
    ensures AddLaunches(actions[..i]) + trace[i].adding == Checks(actions[..i])
  {
    if i > 0 {
      EveryAddScanWasChecked(c, actions, trace, i - 1);
      assert Enabled(c, trace[i - 1], actions[i - 1]) && trace[i - 1 + 1] == Next(c, trace[i - 1], actions[i - 1]);
      assert actions[..i][..i - 1] == actions[..i - 1];
    }
  }

  predicate AddScanCollecting(s: State) {
    exists id :: id in s.scans && s.scans[id] == Scan(ByAddTarget, Collecting)
  }

  /** No add-time scan is alive, and none can pass the check any more. */
  predicate NoAdding(s: State) {
    s.cancelled && s.adding == 0 && forall id :: id in s.scans ==> s.scans[id].kind != ByAddTarget
  }

  lemma NoAddStep(c: Setup, s: State, a: Action)
    requires Enabled(c, s, a) && NoAdding(s)
    ensures NoAdding(Next(c, s, a))
  {
  }

  lemma {:induction false} NoAddingStays(c: Setup, actions: seq<Action>, trace: seq<State>, i: nat)
    requires IsRun(c, actions, trace) && NoAdding(trace[0]) && i <= |actions|
    ensures NoAdding(trace[i])
  {
    hide Enabled, Next, NoAdding;
    if i > 0 {
      NoAddingStays(c, actions, trace, i - 1);
      assert Enabled(c, trace[i - 1], actions[i - 1]) && trace[i - 1 + 1] == Next(c, trace[i - 1], actions[i - 1]);
      NoAddStep(c, trace[i - 1], actions[i - 1]);
    }
  }

  /** At the moment any call of Stop returns, no add-time scan is alive. One can collect afterwards exactly when the
      context is not cancelled, because Stop came before Start, or an AddTarget call stands between checking it and
      launching its scan. */
  lemma ScanAfterStopExactly(c: Setup, s: State, call: nat)
    requires Reachable(c, s) && Enabled(c, s, StopReturns(call)) && c.workers > 0
    ensures forall id :: id in s.scans ==> s.scans[id].kind != ByAddTarget
    ensures var over := Next(c, s, StopReturns(call));
      (exists actions: seq<Action>, trace: seq<State> ::
         IsRun(c, actions, trace) && trace[0] == over && AddScanCollecting(trace[|actions|]))
      <==> s.adding > 0 || !s.cancelled
  {
    ReachableInv(c, s);
    StopWaitsForExactly(c, s, call);
    var over := Next(c, s, StopReturns(call));
    NextKeepsInv(c, s, StopReturns(call));
    if actions: seq<Action>, trace: seq<State> :|
      IsRun(c, actions, trace) && trace[0] == over && AddScanCollecting(trace[|actions|])
    {
      if s.adding == 0 && s.cancelled {
        NoAddingStays(c, actions, trace, |actions|);
      }
    }
    if s.adding > 0 {
      var actions, trace := LateAddScan(c, over);
    } else if !s.cancelled {
      var actions, trace := AddScanLater(c, over);
    }
  }

  lemma AddScanLater(c: Setup, s: State) returns (actions: seq<Action>, trace: seq<State>)
    requires Inv(c, s) && !s.cancelled && c.workers > 0
    ensures IsRun(c, actions, trace) && trace[0] == s && AddScanCollecting(trace[|actions|])
    decreases !s.started
  {
    if !s.started {
      NextKeepsInv(c, s, Start);
      var t := Next(c, s, Start);
      actions, trace := AddScanLater(c, t);
      Prepend(c, s, Start, actions, trace);
      actions, trace := [Start] + actions, [s] + trace;
    } else {
      NextKeepsInv(c, s, CheckAddTarget);
      actions, trace := LateAddScan(c, Next(c, s, CheckAddTarget));
      Prepend(c, s, CheckAddTarget, actions, trace);
      actions, trace := [CheckAddTarget] + actions, [s] + trace;
    }
  }

  /** All slots may be taken by scan-now scans; those return first. */
  lemma LateAddScan(c: Setup, s: State) returns (actions: seq<Action>, trace: seq<State>)
    requires Inv(c, s) && s.adding > 0 && c.workers > 0
    ensures IsRun(c, actions, trace) && trace[0] == s && AddScanCollecting(trace[|actions|])
  {
    var t := s;
    actions, trace := [], [s];
    if s.slots == c.workers {
      var busy := SomeBusy(s.scans);
      Present(s.scans, busy);
      t := Next(c, s, ReturnFromScan(busy));
      NextKeepsInv(c, s, ReturnFromScan(busy));
      actions, trace := [ReturnFromScan(busy)], [s, t];
    }
    var id := FreshId(t.scans);
    var t1 := Next(c, t, LaunchAddScan(id));
    var t2 := Next(c, t1, TakeSlot(id));
    assert t2.scans[id] == Scan(ByAddTarget, Collecting);
    actions, trace := actions + [LaunchAddScan(id), TakeSlot(id)], trace + [t1, t2];
  }

  lemma SomeBusy(scans: map<nat, Scan>) returns (id: nat)
    requires |Busy(scans)| > 0
    ensures id in scans && scans[id].phase == Collecting
  {
    id :| id in Busy(scans);
  }

  lemma {:induction false} BoundOf(ids: set<nat>) returns (bound: nat)
    ensures forall id :: id in ids ==> id < bound
  {
    if ids == {} {
      return 0;
    }
    var id :| id in ids;
    bound := BoundOf(ids - {id});
    if bound <= id {
      bound := id + 1;
    }
    forall i | i in ids ensures i < bound {
      assert i == id || i in ids - {id};
    }
  }

  lemma FreshId(scans: map<nat, Scan>) returns (id: nat)
    ensures id !in scans
  {
    id := BoundOf(scans.Keys);
  }

  // ---- Stop is never stuck ----

  /** Tracked scans that have not returned yet. */
  function Unfinished(scans: map<nat, Scan>): set<nat> {
    set id | id in scans && scans[id].kind != ByScanNow && scans[id].phase != Returned
  }

  lemma Prepend(c: Setup, s: State, a: Action, actions: seq<Action>, trace: seq<State>)
    requires Enabled(c, s, a) && IsRun(c, actions, trace) && trace[0] == Next(c, s, a)
    ensures IsRun(c, [a] + actions, [s] + trace)
  {
    hide Enabled, Next;
    var actions', trace' := [a] + actions, [s] + trace;
    forall i | 0 <= i < |actions'|
      ensures Enabled(c, trace'[i], actions'[i]) && trace'[i + 1] == Next(c, trace'[i], actions'[i])
    {
      if i > 0 {
        assert Enabled(c, trace[i - 1], actions[i - 1]) && trace[i - 1 + 1] == Next(c, trace[i - 1], actions[i - 1]);
      }
    }
  }

  ghost function Remaining(s: State): nat {
    |s.loops| + |Tracked(s.scans)| + |Unfinished(s.scans)|
  }

  /** Nothing but tracked scans and loops may differ. */
  predicate OnlyDrains(s: State, t: State) {
    && t.stops == s.stops && t.cancelled == s.cancelled
    && ScanNowKept(s, t)
  }

  predicate ScanNowKept(s: State, t: State) {
    forall id :: id in s.scans && s.scans[id].kind == ByScanNow ==> id in t.scans && t.scans[id] == s.scans[id]
  }

  lemma ReturnDrains(c: Setup, s: State, id: nat) returns (a: Action)
    requires Inv(c, s) && s.cancelled && id in Unfinished(s.scans)
    ensures (a == GiveUp(id) || a == ReturnFromScan(id)) && Enabled(c, s, a)
    ensures OnlyDrains(s, Next(c, s, a)) && Remaining(Next(c, s, a)) < Remaining(s)
  {
    hide Busy, Tracked, Swept, Unfinished;
    Unreturned(s.scans, id);
    Present(s.scans, id);
    MoveKeepsCounts(c, s, id, Returned);
    OneMoreOrLess(Unfinished(s.scans), id);
    OneMoreOrLess(Busy(s.scans), id);
    a := if s.scans[id].phase == Waiting then GiveUp(id) else ReturnFromScan(id);
  }

  lemma FinishDrains(c: Setup, s: State, id: nat)
    requires Inv(c, s) && id in Tracked(s.scans) && id !in Unfinished(s.scans)
    ensures Enabled(c, s, Finish(id))
    ensures OnlyDrains(s, Next(c, s, Finish(id))) && Remaining(Next(c, s, Finish(id))) < Remaining(s)
  {
    hide Busy, Tracked, Swept, Unfinished;
    Tracking(s.scans, id);
    Unreturned(s.scans, id);
    RemovalKeepsCounts(s.scans, id);
    OneMoreOrLess(Unfinished(s.scans), id);
    OneMoreOrLess(Tracked(s.scans), id);
  }

  /** The next thing that has to happen before the wait group is empty. */
  lemma DrainStep(c: Setup, s: State) returns (a: Action)
    requires Inv(c, s) && s.cancelled && s.group > 0
    ensures Enabled(c, s, a) && !a.LaunchSweepScan? && !a.LaunchAddScan? && !a.LaunchScanNow?
    ensures OnlyDrains(s, Next(c, s, a)) && Remaining(Next(c, s, a)) < Remaining(s)
  {
    hide Busy, Tracked, Swept, Unfinished;
    if s.loops != {} {
      var loop :| loop in s.loops;
      a := LeaveLoop(loop);
      assert |s.loops - {loop}| == |s.loops| - 1;
    } else if Unfinished(s.scans) != {} {
      var id :| id in Unfinished(s.scans);
      a := ReturnDrains(c, s, id);
    } else {
      var id :| id in Tracked(s.scans);
      FinishDrains(c, s, id);
      a := Finish(id);
    }
  }

  lemma Tracking(scans: map<nat, Scan>, id: nat)
    requires id in Tracked(scans)
    ensures id in scans && scans[id].kind != ByScanNow
  {
  }

  lemma Unreturned(scans: map<nat, Scan>, id: nat)
    requires (id in scans && scans[id].kind != ByScanNow) || id in Unfinished(scans)
    ensures id in scans && scans[id].kind != ByScanNow
    ensures id in Unfinished(scans) <==> scans[id].phase != Returned
    ensures Unfinished(scans[id := scans[id].(phase := Returned)]) == Unfinished(scans) - {id}
    ensures Unfinished(scans - {id}) == Unfinished(scans) - {id}
  {
  }

  /** From every state that keeps the invariant, hence every reachable one, in which a Stop waits after a cancel,
      letting what it waits for run to its end lets it return: no slot and no wait-group count is ever lost. Every
      scan-now scan is then still where it was. */
  lemma {:induction false} StopCanReturn(c: Setup, s: State, call: nat) returns (actions: seq<Action>,
                                         trace: seq<State>)
    requires Inv(c, s) && Waits(s, call) && s.cancelled
    ensures IsRun(c, actions, trace) && trace[0] == s
    ensures call in trace[|actions|].stops && trace[|actions|].stops[call] == Over
    ensures forall a :: a in actions ==> !a.LaunchSweepScan? && !a.LaunchAddScan? && !a.LaunchScanNow?
    ensures ScanNowKept(s, trace[|actions|])
    decreases Remaining(s)
  {
    hide Inv, Remaining;
    if s.group == 0 {
      return [StopReturns(call)], [s, Next(c, s, StopReturns(call))];
    }
    hide Enabled, Next;
    var a := DrainStep(c, s);
    NextKeepsInv(c, s, a);
    actions, trace := StopCanReturn(c, Next(c, s, a), call);
    Prepend(c, s, a, actions, trace);
    actions, trace := [a] + actions, [s] + trace;
  }

  /** Start, a scan-now scan that takes its slot, and a call of Stop. */
  function ScanNowPrelude(scan: nat, call: nat): seq<Action> {
    [Start, LaunchScanNow(scan), TakeSlot(scan), CallStop(call)]
  }

  lemma PreludeRuns(c: Setup, scan: nat, call: nat) returns (trace: seq<State>)
    requires c.workers > 0
    ensures IsRun(c, ScanNowPrelude(scan, call), trace) && trace[0] == INITIAL
    ensures trace[4].cancelled && Waits(trace[4], call)
    ensures scan in trace[4].scans && trace[4].scans[scan] == Scan(ByScanNow, Collecting)
  {
    var s1 := Next(c, INITIAL, Start);
    var s2 := Next(c, s1, LaunchScanNow(scan));
    var s3 := Next(c, s2, TakeSlot(scan));
    trace := [INITIAL, s1, s2, s3, Next(c, s3, CallStop(call))];
  }

  lemma Joined(c: Setup, actions: seq<Action>, trace: seq<State>, actions': seq<Action>, trace': seq<State>)
    requires IsRun(c, actions, trace) && IsRun(c, actions', trace') && trace[|actions|] == trace'[0]
    ensures IsRun(c, actions + actions', trace + trace'[1..])
    ensures (trace + trace'[1..])[|actions + actions'|] == trace'[|actions'|]
  {
    hide Enabled, Next;
    var all, states := actions + actions', trace + trace'[1..];
    forall i | 0 <= i < |all| ensures Enabled(c, states[i], all[i]) && states[i + 1] == Next(c, states[i], all[i]) {
      if i < |actions| {
        assert Enabled(c, trace[i], actions[i]) && trace[i + 1] == Next(c, trace[i], actions[i]);
      } else {
        var j := i - |actions|;
        assert states[i] == trace'[j];
        assert Enabled(c, trace'[j], actions'[j]) && trace'[j + 1] == Next(c, trace'[j], actions'[j]);
      }
    }
  }

  /** So a scan-now scan can be collecting when a Stop that came after Start has returned. */
  lemma ScanNowOutlivesStop(c: Setup, scan: nat, call: nat) returns (actions: seq<Action>, trace: seq<State>)
    requires c.workers > 0
    ensures IsRun(c, actions, trace) && trace[0] == INITIAL
    ensures ScanNowPrelude(scan, call) <= actions
    ensures var end := trace[|actions|];
      && call in end.stops && end.stops[call] == Over
      && scan in end.scans && end.scans[scan] == Scan(ByScanNow, Collecting)
  {
    hide Inv, Enabled, Next, ScanNowPrelude;
    assert |ScanNowPrelude(scan, call)| == 4 by { FourActions(scan, call); }
    var begin := PreludeRuns(c, scan, call);
    InitialInv(c);
    RunKeepsInv(c, ScanNowPrelude(scan, call), begin, 4);
    var actions', trace' := StopCanReturn(c, begin[4], call);
    Joined(c, ScanNowPrelude(scan, call), begin, actions', trace');
    actions, trace := ScanNowPrelude(scan, call) + actions', begin + trace'[1..];
  }

  lemma FourActions(scan: nat, call: nat)
    ensures |ScanNowPrelude(scan, call)| == 4
  {
  }
}
