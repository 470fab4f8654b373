/** Ordering the findings of a digest: worst first, ties in the order they came. */
module Sorting {
  import opened Core

  function SeverityRank(s: Severity): nat {
    match s
    case Critical => 4
    case High => 3
    case Medium => 2
    case Low => 1
    case _ => 0
  }

  function RankOf(f: Finding): nat {
    SeverityRank(f.severity)
  }

  /** The findings of one rank, in their original order. */
  function Bucket(fs: seq<Finding>, rank: nat): seq<Finding> {
    if fs == [] then []
    else
      var n := |fs| - 1;
      Bucket(fs[..n], rank) + if RankOf(fs[n]) == rank then [fs[n]] else []
  }

  /** The buckets of ranks from `hi` - 1 down to `lo`. */
  function Buckets(fs: seq<Finding>, hi: nat, lo: nat): seq<Finding>
    requires lo <= hi
  {
    if hi == lo then [] else Bucket(fs, hi - 1) + Buckets(fs, hi - 1, lo)
  }

  /** Worst first and stable, by definition: rank after rank, each in original order. */
  function WorstFirst(fs: seq<Finding>): seq<Finding> {
    Buckets(fs, 5, 0)
  }

  lemma {:induction false} BucketRank(fs: seq<Finding>, rank: nat)
    ensures forall f :: f in Bucket(fs, rank) ==> RankOf(f) == rank
  {
    if fs != [] {
      BucketRank(fs[..|fs| - 1], rank);
    }
  }

  lemma {:induction false} BucketsRank(fs: seq<Finding>, hi: nat, lo: nat)
    requires lo <= hi
    ensures forall f :: f in Buckets(fs, hi, lo) ==> lo <= RankOf(f) < hi
  {
    if lo < hi {
      BucketRank(fs, hi - 1);
      BucketsRank(fs, hi - 1, lo);
    }
  }

  lemma {:induction false} BucketsSplit(fs: seq<Finding>, hi: nat, mid: nat, lo: nat)
    requires lo <= mid <= hi
    ensures Buckets(fs, hi, lo) == Buckets(fs, hi, mid) + Buckets(fs, mid, lo)
  {
    if mid < hi {
      BucketsSplit(fs, hi - 1, mid, lo);
    }
  }

  /** A finding added at the end changes only the bucket of its rank. */
  lemma {:induction false} BucketsGrow(fs: seq<Finding>, x: Finding, hi: nat, lo: nat)
    requires lo <= hi
    ensures RankOf(x) < lo || hi <= RankOf(x) ==> Buckets(fs + [x], hi, lo) == Buckets(fs, hi, lo)
    ensures lo == RankOf(x) < hi ==> Buckets(fs + [x], hi, lo) == Buckets(fs, hi, lo) + [x]
  {
    if lo < hi {
      assert (fs + [x])[..|fs|] == fs;
      BucketsGrow(fs, x, hi - 1, lo);
      if hi - 1 == RankOf(x) {
        assert Buckets(fs, hi - 1, hi - 1) == [];
      }
    }
  }

  /** Inserting the next finding behind everything at least as urgent keeps the order. */
  lemma InsertionPoint(fs: seq<Finding>, x: Finding, j: nat)
    requires j <= |WorstFirst(fs)|
    requires forall i :: 0 <= i < j ==> RankOf(WorstFirst(fs)[i]) >= RankOf(x)
    requires forall i :: j <= i < |WorstFirst(fs)| ==> RankOf(WorstFirst(fs)[i]) < RankOf(x)
    ensures WorstFirst(fs + [x]) == WorstFirst(fs)[..j] + [x] + WorstFirst(fs)[j..]
  {
    hide Buckets, RankOf;
    var r := RankOf(x);
    assert r < 5 by { RankBelow5(x); }
    var above, below := Buckets(fs, 5, r), Buckets(fs, r, 0);
    BucketsSplit(fs, 5, r, 0);
    BucketsSplit(fs + [x], 5, r, 0);
    BucketsGrow(fs, x, 5, r);
    BucketsGrow(fs, x, r, 0);
    BucketsRank(fs, 5, r);
    BucketsRank(fs, r, 0);
    assert WorstFirst(fs) == above + below;
    if above != [] {
      var last := |above| - 1;
      assert WorstFirst(fs)[last] == above[last] && above[last] in above;
      assert last < j;
    }
    if below != [] {
      assert WorstFirst(fs)[|above|] == below[0] && below[0] in below;
      assert j <= |above|;
    }
    assert j == |above|;
    assert WorstFirst(fs)[..j] == above && WorstFirst(fs)[j..] == below;
  }

  lemma RankBelow5(f: Finding)
    ensures RankOf(f) < 5
  {
  }

  lemma {:induction false} BucketsOrdered(fs: seq<Finding>, hi: nat, lo: nat)
    requires lo <= hi
    ensures forall i, j :: 0 <= i < j < |Buckets(fs, hi, lo)| ==>
      RankOf(Buckets(fs, hi, lo)[i]) >= RankOf(Buckets(fs, hi, lo)[j])
  {
    hide RankOf;
    if lo < hi {
      BucketsOrdered(fs, hi - 1, lo);
      BucketRank(fs, hi - 1);
      BucketsRank(fs, hi - 1, lo);
      forall f | f in Buckets(fs, hi - 1, lo) ensures RankOf(f) < hi - 1 {}
    }
  }

  lemma {:induction false} NothingToSort(hi: nat, lo: nat)
    requires lo <= hi
    ensures Buckets([], hi, lo) == []
  {
    if lo < hi {
      NothingToSort(hi - 1, lo);
    }
  }

  /** Inner loop of the sort: element `i` sinks in front of everything less urgent. */
  method SinkIntoPlace(fs: array<Finding>, i: nat) returns (j: nat)
    requires i < fs.Length
    modifies fs
    ensures j <= i
    ensures forall k :: 0 <= k < j ==> fs[k] == old(fs[k])
    ensures fs[j] == old(fs[i])
    ensures forall k :: j < k <= i ==> fs[k] == old(fs[k - 1])
    ensures forall k :: i < k < fs.Length ==> fs[k] == old(fs[k])
    ensures forall k :: j <= k < i ==> RankOf(old(fs[k])) < RankOf(old(fs[i]))
    ensures j > 0 ==> RankOf(old(fs[j - 1])) >= RankOf(old(fs[i]))
  {
    j := i;
    while j > 0 && SeverityRank(fs[j].severity) > SeverityRank(fs[j - 1].severity)
      invariant j <= i
      invariant forall k :: 0 <= k < j ==> fs[k] == old(fs[k])
      invariant fs[j] == old(fs[i])
      invariant forall k :: j < k <= i ==> fs[k] == old(fs[k - 1])
      invariant forall k :: i < k < fs.Length ==> fs[k] == old(fs[k])
      invariant forall k :: j <= k < i ==> RankOf(old(fs[k])) < RankOf(old(fs[i]))
    {
      fs[j], fs[j - 1] := fs[j - 1], fs[j];
      j := j - 1;
    }
  }

  /** The insertion sort of the dispatcher, in place. */
  method SortBySeverity(fs: array<Finding>)
    modifies fs
    ensures fs[..] == WorstFirst(old(fs[..]))
  {
    hide Buckets, RankOf, WorstFirst;
    ghost var was := fs[..];
    OneOrNone(was);
    var i := 1;
    while i < fs.Length
      invariant 1 <= i && (i <= fs.Length || fs.Length == 0)
      invariant fs.Length > 0 ==> fs[..i] == WorstFirst(was[..i]) && fs[i..] == was[i..]
    {
      ghost var sorted, rest := fs[..i], fs[i..];
      assert rest[0] == was[i];
      var j := SinkIntoPlace(fs, i);
      assert fs[i + 1..] == rest[1..];
      assert fs[..i + 1] == sorted[..j] + [was[i]] + sorted[j..];
      SortedExtends(was, i, sorted, j);
      i := i + 1;
    }
    assert was == was[..fs.Length];
  }

  lemma OneOrNone(was: seq<Finding>)
    ensures |was| > 0 ==> was[..1] == WorstFirst(was[..1])
    ensures WorstFirst([]) == []
  {
    NothingToSort(5, 0);
    if |was| > 0 {
      InsertionPoint([], was[0], 0);
      assert [] + [was[0]] == was[..1];
    }
  }

  lemma SortedExtends(was: seq<Finding>, i: nat, sorted: seq<Finding>, j: nat)
    requires i < |was| && sorted == WorstFirst(was[..i]) && j <= |sorted|
    requires forall k :: j <= k < |sorted| ==> RankOf(sorted[k]) < RankOf(was[i])
    requires j > 0 ==> RankOf(sorted[j - 1]) >= RankOf(was[i])
    ensures WorstFirst(was[..i + 1]) == sorted[..j] + [was[i]] + sorted[j..]
  {
    hide RankOf, Buckets;
    BucketsOrdered(was[..i], 5, 0);
    InsertionPoint(was[..i], was[i], j);
    assert was[..i] + [was[i]] == was[..i + 1];
  }

  /** The order really is a permutation, worst first, and stable. */
  lemma WorstFirstIsStableSort(fs: seq<Finding>)
    ensures multiset(WorstFirst(fs)) == multiset(fs)
    ensures forall i, j :: 0 <= i < j < |WorstFirst(fs)| ==> RankOf(WorstFirst(fs)[i]) >= RankOf(WorstFirst(fs)[j])
    ensures forall rank: nat :: Bucket(WorstFirst(fs), rank) == Bucket(fs, rank)
  {
    BucketsOrdered(fs, 5, 0);
    SameElements(fs);
    forall rank: nat ensures Bucket(WorstFirst(fs), rank) == Bucket(fs, rank) {
      BucketOfBuckets(fs, 5, 0, rank);
      if rank >= 5 {
        NoBucketAbove(fs, rank);
      }
    }
  }

  lemma {:induction false} NoBucketAbove(fs: seq<Finding>, rank: nat)
    requires rank >= 5
    ensures Bucket(fs, rank) == []
  {
    if fs != [] {
      NoBucketAbove(fs[..|fs| - 1], rank);
      RankBelow5(fs[|fs| - 1]);
    }
  }

  lemma {:induction false} BucketConcat(fs: seq<Finding>, gs: seq<Finding>, rank: nat)
    ensures Bucket(fs + gs, rank) == Bucket(fs, rank) + Bucket(gs, rank)
  {
    hide RankOf;
    if gs == [] {
      assert fs + gs == fs;
    } else {
      var n := |gs| - 1;
      BucketConcat(fs, gs[..n], rank);
      assert (fs + gs)[..|fs + gs| - 1] == fs + gs[..n];
    }
  }

  lemma {:induction false} BucketOfUniform(fs: seq<Finding>, own: nat, rank: nat)
    requires forall f :: f in fs ==> RankOf(f) == own
    ensures Bucket(fs, rank) == if rank == own then fs else []
  {
    hide RankOf;
    if fs != [] {
      BucketOfUniform(fs[..|fs| - 1], own, rank);
      assert fs[|fs| - 1] in fs;
    }
  }

  lemma {:induction false} BucketOfBuckets(fs: seq<Finding>, hi: nat, lo: nat, rank: nat)
    requires lo <= hi
    ensures Bucket(Buckets(fs, hi, lo), rank) == if lo <= rank < hi then Bucket(fs, rank) else []
  {
    hide RankOf, Bucket;
    if lo < hi {
      BucketOfBuckets(fs, hi - 1, lo, rank);
      BucketConcat(Bucket(fs, hi - 1), Buckets(fs, hi - 1, lo), rank);
      BucketRank(fs, hi - 1);
      BucketOfUniform(Bucket(fs, hi - 1), hi - 1, rank);
    } else {
      BucketOfUniform([], 0, rank);
    }
  }

  lemma {:induction false} SameElements(fs: seq<Finding>)
    ensures multiset(WorstFirst(fs)) == multiset(fs)
  {
    hide RankOf, Buckets;
    if fs == [] {
      NothingToSort(5, 0);
    } else {
      var n := |fs| - 1;
      var x := fs[n];
      SameElements(fs[..n]);
      RankBelow5(x);
      assert fs[..n] + [x] == fs;
      BucketsSplit(fs[..n], 5, RankOf(x), 0);
      BucketsSplit(fs, 5, RankOf(x), 0);
      BucketsGrow(fs[..n], x, 5, RankOf(x));
      BucketsGrow(fs[..n], x, RankOf(x), 0);
    }
  }
}
