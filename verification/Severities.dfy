/** What severities mean to the notifications, severity by severity. */
module Severities {
  import opened Core
  import opened Sorting
  import opened Dispatch
  import opened DispatchRuns
  import opened Bridge

  /** The findings of the events kept, in order. */
  function Picked(events: seq<Event>, keep: Event -> bool): seq<Finding> {
    if events == [] then []
    else
      var n := |events| - 1;
      Picked(events[..n], keep) + if keep(events[n]) then [events[n].finding] else []
  }

  predicate OpenedOf(e: Event, m: string) {
    e.moduleId == m && e.kind == "opened"
  }

  lemma {:induction false} PickedMatching(events: seq<Event>, m: string, kind: string, keep: Event -> bool)
    requires forall e :: keep(e) <==> e.moduleId == m && e.kind == kind
    ensures Matching(events, m, kind) == Picked(events, keep)
  {
    hide Matching;
    if events == [] {
      NothingMatches([], m, kind);
    } else {
      PickedMatching(events[..|events| - 1], m, kind, keep);
      MatchingGrows(events, m, kind);
    }
  }

  lemma {:induction false} PickedBucket(events: seq<Event>, m: string, rank: nat, keep: Event -> bool)
    requires forall e :: keep(e) <==> OpenedOf(e, m) && RankOf(e.finding) == rank
    ensures Bucket(Matching(events, m, KIND_OPENED), rank) == Picked(events, keep)
  {
    hide Matching, RankOf, Bucket, OpenedOf;
    if events == [] {
      NothingMatches([], m, KIND_OPENED);
      NoBucket(rank);
    } else {
      var n := |events| - 1;
      PickedBucket(events[..n], m, rank, keep);
      MatchingGrows(events, m, KIND_OPENED);
      var before := Matching(events[..n], m, KIND_OPENED);
      BucketOne(before, events[n].finding, rank);
      assert before + [] == before;
      OpenedMeans(events[n], m);
      assert Picked(events[..n], keep) + [] == Picked(events[..n], keep);
    }
  }

  lemma OpenedMeans(e: Event, m: string)
    ensures OpenedOf(e, m) <==> e.moduleId == m && e.kind == KIND_OPENED
  {
  }

  lemma NoBucket(rank: nat)
    ensures Bucket([], rank) == []
  {
  }

  lemma BucketOne(fs: seq<Finding>, f: Finding, rank: nat)
    ensures Bucket(fs + [f], rank) == Bucket(fs, rank) + if RankOf(f) == rank then [f] else []
  {
    assert (fs + [f])[..|fs|] == fs;
  }

  lemma FiveBuckets(fs: seq<Finding>)
    ensures WorstFirst(fs) == Bucket(fs, 4) + Bucket(fs, 3) + Bucket(fs, 2) + Bucket(fs, 1) + Bucket(fs, 0)
  {
    hide Bucket;
    assert Buckets(fs, 1, 0) == Bucket(fs, 0) + [];
    assert Buckets(fs, 2, 0) == Bucket(fs, 1) + Buckets(fs, 1, 0);
    assert Buckets(fs, 3, 0) == Bucket(fs, 2) + Buckets(fs, 2, 0);
    assert Buckets(fs, 4, 0) == Bucket(fs, 3) + Buckets(fs, 3, 0);
    assert Buckets(fs, 5, 0) == Bucket(fs, 4) + Buckets(fs, 4, 0);
  }

  /** The digest of a module, severity by severity: its critical openings first, then the high, the medium and the low
      ones, then all others, each in the order they were enqueued; its closures in that order too. */
  lemma DigestExactly(b: Batch, m: string)
    ensures var d := DigestOf(m, OfModule(b.events, m), b.at);
      && d.moduleId == m && d.at == b.at
      && d.opening ==
           Picked(b.events, (e: Event) => OpenedOf(e, m) && e.finding.severity == Critical)
           + Picked(b.events, (e: Event) => OpenedOf(e, m) && e.finding.severity == High)
           + Picked(b.events, (e: Event) => OpenedOf(e, m) && e.finding.severity == Medium)
           + Picked(b.events, (e: Event) => OpenedOf(e, m) && e.finding.severity == Low)
           + Picked(b.events, (e: Event) => OpenedOf(e, m) && e.finding.severity !in {Critical, High, Medium, Low})
      && d.resolved == Picked(b.events, (e: Event) => e.moduleId == m && e.kind == "resolved")
  {
    hide WorstFirst, Bucket, Picked, OfModule, FindingsOf;
    FiveBuckets(Matching(b.events, m, KIND_OPENED));
    PickedBucket(b.events, m, 4, (e: Event) => OpenedOf(e, m) && e.finding.severity == Critical);
    PickedBucket(b.events, m, 3, (e: Event) => OpenedOf(e, m) && e.finding.severity == High);
    PickedBucket(b.events, m, 2, (e: Event) => OpenedOf(e, m) && e.finding.severity == Medium);
    PickedBucket(b.events, m, 1, (e: Event) => OpenedOf(e, m) && e.finding.severity == Low);
    PickedBucket(b.events, m, 0, (e: Event) => OpenedOf(e, m) && e.finding.severity !in {Critical, High, Medium, Low});
    PickedMatching(b.events, m, KIND_RESOLVED, (e: Event) => e.moduleId == m && e.kind == "resolved");
  }

  /** An open dispatcher takes an opening that is not pending exactly when its severity is at least the configured
      minimum, and every closure that is not pending, whatever its severity. */
  lemma TakenBySeverity(c: Config, s: State, e: Event, at: Time)
    requires !s.closed && !InWindow(s.window, EventKey(e))
    ensures var takes := AllEvents(AfterEnqueue(c, s, e, at)) == AllEvents(s) + [e];
      && (!takes ==> AfterEnqueue(c, s, e, at) == s)
      && (e.kind != "opened" ==> takes)
      && (e.kind == "opened" ==>
            match c.minSeverity
            case Critical => takes <==> e.finding.severity == Critical
            case High => takes <==> e.finding.severity in {Critical, High}
            case Medium => takes <==> e.finding.severity in {Critical, High, Medium}
            case Low => takes <==> e.finding.severity in {Critical, High, Medium, Low}
            case _ => takes)
  {
    hide EventKey, InWindow, AllEvents;
    EnqueueEffect(c, s, e, at);
    assert |AllEvents(s) + [e]| != |AllEvents(s) + []|;
    assert AllEvents(s) + [] == AllEvents(s);
  }
}
