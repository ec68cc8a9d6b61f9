/**
  Rankers: dense ranking of a vector (rankVect) and the comparators it uses.

  rankVect orders an index permutation by value, either from scratch or by
  re-sorting only the runs of indices that were tied under the previous
  ranks, and then walks the permutation giving each index a rank that grows
  by one at every change of value.

  Values are `int`s and ranks `nat`s (unsigned int); sequences stand for the
  std::vector arguments, and each method returns the new contents of the
  vectors the C++ code updates in place.
*/
module Rankers {

  // ---------------------------------------------------------------------
  // Comparators

  /** pairGreater: compares the first components only. */
  predicate PairGreater<T>(v1: (int, T), v2: (int, T)) {
    v1.0 > v2.0
  }

  /** pairLess: compares the first components only. */
  predicate PairLess<T>(v1: (int, T), v2: (int, T)) {
    v1.0 < v2.0
  }

  /**
    The two pair orders are converse strict orders that never look at the
    second component.
  */
  lemma PairOrders<T>(a: (int, T), b: (int, T), c: (int, T), t: T)
    ensures PairLess(a, b) <==> PairGreater(b, a)
    ensures !PairLess(a, a) && !PairGreater(a, a)
    ensures PairLess(a, b) && PairLess(b, c) ==> PairLess(a, c)
    ensures PairLess(a, b) <==> PairLess((a.0, t), (b.0, t))
  {
  }

  /** argless: index v1 goes before v2 when the value it points at is smaller. */
  predicate ArgLess(vect: seq<int>, v1: nat, v2: nat)
    requires v1 < |vect| && v2 < |vect|
  {
    vect[v1] < vect[v2]
  }

  // ---------------------------------------------------------------------
  // Permutations

  /** std::iota: 0, 1, ..., n-1. */
  function Iota(n: nat): (r: seq<nat>)
    ensures |r| == n
    ensures forall i :: 0 <= i < n ==> r[i] == i
  {
    if n == 0 then [] else Iota(n - 1) + [n - 1]
  }

  ghost predicate InRange(idx: seq<nat>, n: nat) {
    forall i :: 0 <= i < |idx| ==> idx[i] < n
  }

  /** No index occurs twice. */
  ghost predicate Distinct(idx: seq<nat>) {
    forall i, j :: 0 <= i < j < |idx| ==> idx[i] != idx[j]
  }

  /** idx holds n distinct indices below n, i.e. each of 0..n-1 exactly once. */
  ghost predicate IsPermutation(idx: seq<nat>, n: nat) {
    |idx| == n && InRange(idx, n) && Distinct(idx)
  }

  lemma {:induction false} IotaOnce(n: nat, x: nat)
    ensures multiset(Iota(n))[x] == if x < n then 1 else 0
  {
    if n > 0 {
      var last: nat := n - 1;
      var front := Iota(last);
      IotaOnce(last, x);
      assert Iota(n) == front + [last];
      MultisetAppend(front, last, x);
    }
  }

  lemma {:induction false} MultisetAppend(s: seq<nat>, y: nat, x: nat)
    ensures multiset(s + [y])[x] == multiset(s)[x] + if x == y then 1 else 0
  {
    assert multiset(s + [y]) == multiset(s) + multiset{y};
  }

  lemma {:induction false} TwiceCounted(s: seq<nat>, i: nat, j: nat)
    requires i < j < |s| && s[i] == s[j]
    ensures multiset(s)[s[i]] >= 2
  {
    assert s == s[..i] + [s[i]] + s[i + 1..j] + [s[j]] + s[j + 1..];
  }

  /** A sequence without repeats counts every value at most once. */
  lemma {:induction false} DistinctCounts(s: seq<nat>, x: nat)
    requires Distinct(s)
    ensures multiset(s)[x] <= 1
  {
    if |s| > 0 {
      var last := s[|s| - 1];
      var front := s[..|s| - 1];
      assert s == front + [last];
      DistinctCounts(front, x);
      MultisetAppend(front, last, x);
      if x == last {
        assert x !in front;
      }
    }
  }

  /** Rearranging a sequence without repeats gives one without repeats. */
  lemma {:induction false} PermutedDistinct(a: seq<nat>, b: seq<nat>)
    requires Distinct(a) && multiset(a) == multiset(b)
    ensures Distinct(b)
  {
    forall i, j | 0 <= i < j < |b| ensures b[i] != b[j] {
      if b[i] == b[j] {
        TwiceCounted(b, i, j);
        DistinctCounts(a, b[i]);
        assert false;
      }
    }
  }

  /** Every rearrangement of 0..n-1 is a permutation. */
  lemma {:induction false} IotaPermutation(s: seq<nat>, n: nat)
    requires |s| == n && multiset(s) == multiset(Iota(n))
    ensures IsPermutation(s, n)
  {
    forall i | 0 <= i < |s| ensures s[i] < n {
      assert s[i] in multiset(s);
      IotaOnce(n, s[i]);
    }
    PermutedDistinct(Iota(n), s);
  }

  /** Rearranging a permutation gives a permutation. */
  lemma {:induction false} PermutedPermutation(a: seq<nat>, b: seq<nat>, n: nat)
    requires IsPermutation(a, n) && |b| == n && InRange(b, n) && multiset(a) == multiset(b)
    ensures IsPermutation(b, n)
  {
    PermutedDistinct(a, b);
  }

  /** The values a sequence holds. */
  ghost function Values(s: seq<nat>): set<nat> {
    set i | 0 <= i < |s| :: s[i]
  }

  lemma {:induction false} DistinctValues(s: seq<nat>)
    requires Distinct(s)
    ensures |Values(s)| == |s|
  {
    if |s| > 0 {
      var last := s[|s| - 1];
      var front := s[..|s| - 1];
      DistinctValues(front);
      assert Values(s) == Values(front) + {last};
      assert last !in Values(front);
    }
  }

  /** The indices below n. */
  ghost function Below(n: nat): (b: set<nat>)
    ensures forall x: nat :: x in b <==> x < n
  {
    if n == 0 then {} else Below(n - 1) + {n - 1}
  }

  lemma {:induction false} BelowSize(n: nat)
    ensures |Below(n)| == n
  {
    if n > 0 {
      BelowSize(n - 1);
      assert n - 1 !in Below(n - 1);
    }
  }

  /** A permutation of 0..n-1 misses no index below n (pigeonhole). */
  lemma {:induction false} PermutationCovers(idx: seq<nat>, n: nat)
    requires IsPermutation(idx, n)
    ensures forall p :: 0 <= p < n ==> p in idx
  {
    DistinctValues(idx);
    BelowSize(n);
    var v, b := Values(idx), Below(n);
    assert v <= b;
    assert b == v + (b - v);
    assert b - v == {};
    forall p | 0 <= p < n ensures p in idx {
      assert p in b;
      var i :| 0 <= i < |idx| && idx[i] == p;
    }
  }

  // ---------------------------------------------------------------------
  // Sorting indices by value (std::sort with argless)

  /** vect[s[i]] is non-decreasing along s. */
  ghost predicate SortedBy(vect: seq<int>, s: seq<nat>) {
    InRange(s, |vect|) && forall i, j :: 0 <= i < j < |s| ==> vect[s[i]] <= vect[s[j]]
  }

  /**
    SortedBy is the postcondition of std::sort with comparator argless: no
    index comes after one it is argless-before.
  */
  lemma ArgLessSorted(vect: seq<int>, s: seq<nat>)
    requires InRange(s, |vect|)
    ensures SortedBy(vect, s) <==> forall i, j :: 0 <= i < j < |s| ==> !ArgLess(vect, s[j], s[i])
  {
  }

  /** Positions k and k + 1 of s hold indices in order of value. */
  ghost predicate OrderedAt(vect: seq<int>, s: seq<nat>, k: int) {
    0 <= k && k + 1 < |s| && s[k] < |vect| && s[k + 1] < |vect| && vect[s[k]] <= vect[s[k + 1]]
  }

  /** Prepending an index no greater than every element keeps the order. */
  lemma {:induction false} ConsSorted(vect: seq<int>, a: nat, t: seq<nat>)
    requires a < |vect| && SortedBy(vect, t)
    requires forall j :: 0 <= j < |t| ==> vect[a] <= vect[t[j]]
    ensures SortedBy(vect, [a] + t)
  {
    var r := [a] + t;
    forall i, j | 0 <= i < j < |r| ensures vect[r[i]] <= vect[r[j]] {
      if i > 0 {
        assert r[i] == t[i - 1] && r[j] == t[j - 1];
      }
    }
  }

  /** Every element of a rearrangement of x and a sorted tail is bounded below by a. */
  lemma {:induction false} BoundedBelow(vect: seq<int>, a: nat, s: seq<nat>, x: nat, t: seq<nat>)
    requires a < |vect| && x < |vect| && InRange(s, |vect|) && InRange(t, |vect|) && vect[a] <= vect[x]
    requires forall j :: 0 <= j < |s| ==> vect[a] <= vect[s[j]]
    requires multiset(t) == multiset(s) + multiset{x}
    ensures forall j :: 0 <= j < |t| ==> vect[a] <= vect[t[j]]
  {
    forall j | 0 <= j < |t| ensures vect[a] <= vect[t[j]] {
      assert t[j] in multiset(t);
      if t[j] != x {
        assert t[j] in s;
      }
    }
  }

  /** Inserts index x before the first index whose value is not smaller. */
  function InsertByValue(vect: seq<int>, x: nat, s: seq<nat>): (r: seq<nat>)
    requires x < |vect| && SortedBy(vect, s)
    ensures SortedBy(vect, r)
    ensures multiset(r) == multiset(s) + multiset{x}
    ensures |r| == |s| + 1
  {
    if |s| == 0 || !ArgLess(vect, s[0], x) then
      ConsSorted(vect, x, s);
      [x] + s
    else
      var t := InsertByValue(vect, x, s[1..]);
      assert s == [s[0]] + s[1..];
      BoundedBelow(vect, s[0], s[1..], x, t);
      ConsSorted(vect, s[0], t);
      [s[0]] + t
  }

  /**
    The sorted order of a range of indices. std::sort leaves the order of
    equal values unspecified, and callers rely only on SortedBy and the
    multiset, which is all this contract states.
  */
  function SortByValue(vect: seq<int>, s: seq<nat>): (r: seq<nat>)
    requires InRange(s, |vect|)
    ensures SortedBy(vect, r)
    ensures multiset(r) == multiset(s)
    ensures |r| == |s|
  {
    if |s| == 0 then []
    else
      assert s == [s[0]] + s[1..];
      InsertByValue(vect, s[0], SortByValue(vect, s[1..]))
  }

  /** Replacing idx[lo..hi] by a rearrangement of it keeps the whole multiset. */
  lemma {:induction false} SpliceMultiset(idx: seq<nat>, lo: nat, hi: nat, mid: seq<nat>)
    requires lo <= hi <= |idx| && multiset(mid) == multiset(idx[lo..hi])
    ensures multiset(idx[..lo] + mid + idx[hi..]) == multiset(idx)
  {
    assert idx == idx[..lo] + idx[lo..hi] + idx[hi..];
  }

  /** Positions of idx[..lo] + mid + idx[hi..]: the middle block is mid, the rest is idx. */
  lemma {:induction false} SplicePositions(idx: seq<nat>, lo: nat, hi: nat, mid: seq<nat>)
    requires lo <= hi <= |idx| && |mid| == hi - lo
    ensures var r := idx[..lo] + mid + idx[hi..];
      && |r| == |idx| && r[lo..hi] == mid
      && (forall k :: 0 <= k < |idx| && !(lo <= k < hi) ==> r[k] == idx[k])
      && (forall k :: lo <= k < hi ==> r[k] == mid[k - lo])
  {
  }

  /** std::sort(indices.begin()+lo, indices.begin()+hi, argless(vect)). */
  function SortRange(vect: seq<int>, idx: seq<nat>, lo: nat, hi: nat): (r: seq<nat>)
    requires lo <= hi <= |idx| && InRange(idx, |vect|)
    ensures |r| == |idx| && InRange(r, |vect|)
    ensures multiset(r) == multiset(idx)
    ensures forall k :: 0 <= k < |idx| && !(lo <= k < hi) ==> r[k] == idx[k]
    ensures multiset(r[lo..hi]) == multiset(idx[lo..hi])
    ensures forall i, j :: lo <= i < j < hi ==> vect[r[i]] <= vect[r[j]]
  {
    var mid := SortByValue(vect, idx[lo..hi]);
    SpliceMultiset(idx, lo, hi, mid);
    SplicePositions(idx, lo, hi, mid);
    idx[..lo] + mid + idx[hi..]
  }

  // ---------------------------------------------------------------------
  // Incremental re-sort of tied runs

  /** Position k is tied with its successor under the previous ranks. */
  ghost predicate Tied(res: seq<nat>, idx: seq<nat>, k: int) {
    0 <= k && k + 1 < |idx| && idx[k] < |res| && idx[k + 1] < |res| && res[idx[k]] == res[idx[k + 1]]
  }

  /**
    One element of a re-sorted run came from that run, so it carries the
    run's previous rank.
  */
  lemma {:induction false} SortedRunKeepsRanks(res: seq<nat>, before: seq<nat>, after: seq<nat>, lo: nat, hi: nat, k: nat, rank: nat)
    requires lo <= k < hi <= |before| == |after|
    requires InRange(before, |res|) && InRange(after, |res|)
    requires multiset(after[lo..hi]) == multiset(before[lo..hi])
    requires forall j :: lo <= j < hi ==> res[before[j]] == rank
    ensures res[after[k]] == rank
  {
    assert after[k] == after[lo..hi][k - lo];
    assert after[k] in multiset(after[lo..hi]);
    assert after[k] in before[lo..hi];
    var m :| lo <= m < hi && before[m] == after[k];
  }

  /**
    A run is a maximal block of positions whose previous ranks res[idx[k]]
    are equal. Handling the run start..end sorts positions
    start..SortEnd-1: the source stops before the run's last position
    (`includeRunEnd` false), the whole run includes it; a run of one
    position is left alone.
  */
  function SortEnd(start: nat, end: nat, includeRunEnd: bool): (hi: nat)
    requires start <= end
    ensures start <= hi <= end + 1
    ensures end != start ==> hi == if includeRunEnd then end + 1 else end
  {
    if end == start then start else if includeRunEnd then end + 1 else end
  }

  /** A block that kept its multiset, extended by unmoved positions, still keeps it. */
  lemma {:induction false} WidenBlock(a: seq<nat>, b: seq<nat>, lo: nat, hi: nat, top: nat)
    requires lo <= hi <= top <= |a| == |b|
    requires multiset(b[lo..hi]) == multiset(a[lo..hi])
    requires forall k :: hi <= k < top ==> b[k] == a[k]
    ensures multiset(b[lo..top]) == multiset(a[lo..top])
  {
    assert a[lo..top] == a[lo..hi] + a[hi..top];
    assert b[lo..top] == b[lo..hi] + b[hi..top];
    assert b[hi..top] == a[hi..top];
  }

  /** The permutation after handling the run start..end. */
  function RunSorted(vect: seq<int>, r: seq<nat>, start: nat, end: nat, includeRunEnd: bool): (r': seq<nat>)
    requires start <= end < |r| && InRange(r, |vect|)
    ensures |r'| == |r| && InRange(r', |vect|) && multiset(r') == multiset(r)
    ensures forall k :: 0 <= k < |r| && !(start <= k < SortEnd(start, end, includeRunEnd)) ==> r'[k] == r[k]
    ensures multiset(r'[start..SortEnd(start, end, includeRunEnd)]) == multiset(r[start..SortEnd(start, end, includeRunEnd)])
    ensures forall k :: start <= k && k + 1 < SortEnd(start, end, includeRunEnd) ==> OrderedAt(vect, r', k)
  {
    if end == start then r
    else SortRange(vect, r, start, SortEnd(start, end, includeRunEnd))
  }

  /** The loop has only permuted idx, and only below `start`. */
  ghost predicate Permuted(vect: seq<int>, idx: seq<nat>, r: seq<nat>, start: nat) {
    && start <= |idx| == |r| && InRange(r, |vect|) && multiset(r) == multiset(idx)
    && (forall j :: start <= j < |idx| ==> r[j] == idx[j])
  }

  /** Every position below `start` keeps its previous rank, and `start` begins a run. */
  ghost predicate RanksKept(idx: seq<nat>, res: seq<nat>, r: seq<nat>, start: nat)
    requires start <= |r| && InRange(r, |res|) && InRange(idx, |res|) && |idx| == |r|
  {
    && (forall j :: 0 <= j < start ==> res[r[j]] == res[idx[j]])
    && (forall k :: Tied(res, idx, k) ==> k + 1 != start)
  }

  /** As written: positions below `start` that are not tied with their successor are unmoved. */
  ghost predicate FixedAsWritten(idx: seq<nat>, res: seq<nat>, r: seq<nat>, start: nat)
    requires start <= |r| == |idx|
  {
    forall j :: 0 <= j < start && !Tied(res, idx, j) ==> r[j] == idx[j]
  }

  /** As written: below `start`, consecutive positions inside a run minus its last are ordered. */
  ghost predicate OrderedAsWritten(vect: seq<int>, idx: seq<nat>, res: seq<nat>, r: seq<nat>, start: nat)
    requires start <= |r| == |idx| && InRange(r, |vect|)
  {
    forall k :: k + 1 < start && Tied(res, idx, k) && Tied(res, idx, k + 1) ==> OrderedAt(vect, r, k)
  }

  /** Whole runs: positions below `start` outside every run of two or more are unmoved. */
  ghost predicate FixedCorrected(idx: seq<nat>, res: seq<nat>, r: seq<nat>, start: nat)
    requires start <= |r| == |idx|
  {
    forall j :: 0 <= j < start && !Tied(res, idx, j) && !Tied(res, idx, j - 1) ==> r[j] == idx[j]
  }

  /** Whole runs: below `start`, consecutive positions of one run are ordered. */
  ghost predicate OrderedCorrected(vect: seq<int>, idx: seq<nat>, res: seq<nat>, r: seq<nat>, start: nat)
    requires start <= |r| == |idx| && InRange(r, |vect|)
  {
    forall k :: k + 1 < start && Tied(res, idx, k) ==> OrderedAt(vect, r, k)
  }

  /**
    The run start..end as SortRuns finds it: tied inside, with one previous
    rank, and not tied to what follows. Its left boundary is not part of it:
    the loop keeps that in RanksKept, and WholeRun below adds it back.
  */
  ghost predicate IsRun(idx: seq<nat>, res: seq<nat>, start: nat, end: nat)
    requires InRange(idx, |res|)
  {
    && start <= end < |idx|
    && (forall k :: start <= k < end ==> Tied(res, idx, k))
    && (forall k :: start <= k <= end ==> res[idx[k]] == res[idx[start]])
    && !Tied(res, idx, end)
  }

  /**
    a..b is a whole run of the previous ranks: consecutive positions are
    tied, and neither end is tied to the position beyond it.
  */
  ghost predicate WholeRun(res: seq<nat>, idx: seq<nat>, a: int, b: int) {
    && 0 <= a <= b < |idx|
    && !Tied(res, idx, a - 1) && !Tied(res, idx, b)
    && forall k :: a <= k < b ==> Tied(res, idx, k)
  }

  /**
    Every whole run that ends below `start` holds the indices it held before:
    sorting in place never moves an index into another run.
  */
  ghost predicate RunsKept(idx: seq<nat>, res: seq<nat>, r: seq<nat>, start: nat)
    requires |r| == |idx|
  {
    forall a, b {:trigger WholeRun(res, idx, a, b)} :: WholeRun(res, idx, a, b) && b < start ==> multiset(r[a..b + 1]) == multiset(idx[a..b + 1])
  }

  /** The run start..end, begun after an untied position, is the one whole run that ends in it. */
  lemma {:induction false} RunIsWhole(idx: seq<nat>, res: seq<nat>, start: nat, end: nat, a: int, b: int)
    requires InRange(idx, |res|) && IsRun(idx, res, start, end) && !Tied(res, idx, start - 1)
    requires WholeRun(res, idx, a, b) && start <= b <= end
    ensures a == start && b == end
  {
  }

  /**
    Replacing the run start..end by a rearrangement of it, and nothing below
    it, keeps every whole run's indices up to end.
  */
  lemma {:induction false} RunsKeptStep(idx: seq<nat>, res: seq<nat>, r: seq<nat>, r': seq<nat>, start: nat, end: nat)
    requires InRange(idx, |res|) && IsRun(idx, res, start, end) && !Tied(res, idx, start - 1)
    requires |r| == |r'| == |idx| && RunsKept(idx, res, r, start)
    requires forall k :: 0 <= k < start ==> r'[k] == r[k]
    requires forall k :: start <= k <= end ==> r[k] == idx[k]
    requires multiset(r'[start..end + 1]) == multiset(r[start..end + 1])
    ensures RunsKept(idx, res, r', end + 1)
  {
    assert r[start..end + 1] == idx[start..end + 1];
    forall a, b | WholeRun(res, idx, a, b) && b < end + 1
      ensures multiset(r'[a..b + 1]) == multiset(idx[a..b + 1])
    {
      if b < start {
        assert r'[a..b + 1] == r[a..b + 1];
      } else {
        RunIsWhole(idx, res, start, end, a, b);
      }
    }
  }

  /** Handling the run start..end keeps every whole run's indices up to end. */
  lemma {:induction false} RunsKeptAfterRun(vect: seq<int>, idx: seq<nat>, res: seq<nat>, r: seq<nat>, start: nat, end: nat, includeRunEnd: bool)
    requires InRange(idx, |res|) && Permuted(vect, idx, r, start) && IsRun(idx, res, start, end)
    requires InRange(r, |res|) && RanksKept(idx, res, r, start) && RunsKept(idx, res, r, start)
    ensures RunsKept(idx, res, RunSorted(vect, r, start, end, includeRunEnd), end + 1)
  {
    var r' := RunSorted(vect, r, start, end, includeRunEnd);
    WidenBlock(r, r', start, SortEnd(start, end, includeRunEnd), end + 1);
    assert !Tied(res, idx, start - 1);
    RunsKeptStep(idx, res, r, r', start, end);
  }

  lemma {:induction false} PermutedStep(vect: seq<int>, idx: seq<nat>, res: seq<nat>, r: seq<nat>, start: nat, end: nat, includeRunEnd: bool)
    requires InRange(idx, |res|) && Permuted(vect, idx, r, start) && IsRun(idx, res, start, end)
    ensures Permuted(vect, idx, RunSorted(vect, r, start, end, includeRunEnd), end + 1)
  {
  }

  lemma {:induction false} RanksStep(vect: seq<int>, idx: seq<nat>, res: seq<nat>, r: seq<nat>, start: nat, end: nat, includeRunEnd: bool)
    requires |vect| <= |res| && InRange(idx, |vect|) && Permuted(vect, idx, r, start) && IsRun(idx, res, start, end)
    requires RanksKept(idx, res, r, start)
    ensures InRange(idx, |res|) && InRange(RunSorted(vect, r, start, end, includeRunEnd), |res|)
    ensures RanksKept(idx, res, RunSorted(vect, r, start, end, includeRunEnd), end + 1)
  {
    var hi := SortEnd(start, end, includeRunEnd);
    var r' := RunSorted(vect, r, start, end, includeRunEnd);
    forall k | 0 <= k < end + 1 ensures res[r'[k]] == res[idx[k]] {
      if start <= k < hi {
        SortedRunKeepsRanks(res, r, r', start, hi, k, res[idx[start]]);
      } else {
        assert r'[k] == r[k];
      }
    }
    forall k | Tied(res, idx, k) ensures k + 1 != end + 1 {
      if k == end {
        assert false;
      }
    }
  }

  lemma {:induction false} FixedAsWrittenStep(vect: seq<int>, idx: seq<nat>, res: seq<nat>, r: seq<nat>, start: nat, end: nat)
    requires |vect| <= |res| && InRange(idx, |vect|) && Permuted(vect, idx, r, start) && IsRun(idx, res, start, end)
    requires FixedAsWritten(idx, res, r, start)
    ensures FixedAsWritten(idx, res, RunSorted(vect, r, start, end, false), end + 1)
  {
    var r' := RunSorted(vect, r, start, end, false);
    forall j | 0 <= j < end + 1 && !Tied(res, idx, j) ensures r'[j] == idx[j] {
      if j >= start {
        assert j == end;
      }
    }
  }

  lemma {:induction false} OrderedAsWrittenStep(vect: seq<int>, idx: seq<nat>, res: seq<nat>, r: seq<nat>, start: nat, end: nat)
    requires |vect| <= |res| && InRange(idx, |vect|) && Permuted(vect, idx, r, start) && IsRun(idx, res, start, end)
    requires RanksKept(idx, res, r, start) && OrderedAsWritten(vect, idx, res, r, start)
    ensures OrderedAsWritten(vect, idx, res, RunSorted(vect, r, start, end, false), end + 1)
  {
    var r' := RunSorted(vect, r, start, end, false);
    forall k | k + 1 < end + 1 && Tied(res, idx, k) && Tied(res, idx, k + 1) ensures OrderedAt(vect, r', k) {
      if k + 1 < start {
        assert OrderedAt(vect, r, k);
        assert r'[k] == r[k] && r'[k + 1] == r[k + 1];
      } else {
        assert start <= k && k + 1 < end;
        assert k + 1 < SortEnd(start, end, false);
      }
    }
  }

  lemma {:induction false} FixedCorrectedStep(vect: seq<int>, idx: seq<nat>, res: seq<nat>, r: seq<nat>, start: nat, end: nat)
    requires |vect| <= |res| && InRange(idx, |vect|) && Permuted(vect, idx, r, start) && IsRun(idx, res, start, end)
    requires FixedCorrected(idx, res, r, start)
    ensures FixedCorrected(idx, res, RunSorted(vect, r, start, end, true), end + 1)
  {
    var r' := RunSorted(vect, r, start, end, true);
    forall j | 0 <= j < end + 1 && !Tied(res, idx, j) && !Tied(res, idx, j - 1) ensures r'[j] == idx[j] {
      if j >= start {
        assert j == end && end == start;
      }
    }
  }

  lemma {:induction false} OrderedCorrectedStep(vect: seq<int>, idx: seq<nat>, res: seq<nat>, r: seq<nat>, start: nat, end: nat)
    requires |vect| <= |res| && InRange(idx, |vect|) && Permuted(vect, idx, r, start) && IsRun(idx, res, start, end)
    requires RanksKept(idx, res, r, start) && OrderedCorrected(vect, idx, res, r, start)
    ensures OrderedCorrected(vect, idx, res, RunSorted(vect, r, start, end, true), end + 1)
  {
    var r' := RunSorted(vect, r, start, end, true);
    forall k | k + 1 < end + 1 && Tied(res, idx, k) ensures OrderedAt(vect, r', k) {
      if k + 1 < start {
        assert OrderedAt(vect, r, k);
        assert r'[k] == r[k] && r'[k + 1] == r[k + 1];
      } else {
        assert start <= k < end;
        assert k + 1 < SortEnd(start, end, true);
      }
    }
  }

  /** Handling one run keeps the loop invariant of SortRuns. */
  lemma {:induction false} RunStep(vect: seq<int>, idx: seq<nat>, res: seq<nat>, r: seq<nat>, start: nat, end: nat, includeRunEnd: bool)
    requires |vect| <= |res| && InRange(idx, |vect|) && Permuted(vect, idx, r, start) && IsRun(idx, res, start, end)
    requires RanksKept(idx, res, r, start)
    requires !includeRunEnd ==> FixedAsWritten(idx, res, r, start) && OrderedAsWritten(vect, idx, res, r, start)
    requires includeRunEnd ==> FixedCorrected(idx, res, r, start) && OrderedCorrected(vect, idx, res, r, start)
    ensures var r' := RunSorted(vect, r, start, end, includeRunEnd);
      && Permuted(vect, idx, r', end + 1) && InRange(idx, |res|) && InRange(r', |res|)
      && RanksKept(idx, res, r', end + 1)
      && (!includeRunEnd ==> FixedAsWritten(idx, res, r', end + 1) && OrderedAsWritten(vect, idx, res, r', end + 1))
      && (includeRunEnd ==> FixedCorrected(idx, res, r', end + 1) && OrderedCorrected(vect, idx, res, r', end + 1))
  {
    PermutedStep(vect, idx, res, r, start, end, includeRunEnd);
    RanksStep(vect, idx, res, r, start, end, includeRunEnd);
    if includeRunEnd {
      FixedCorrectedStep(vect, idx, res, r, start, end);
      OrderedCorrectedStep(vect, idx, res, r, start, end);
    } else {
      FixedAsWrittenStep(vect, idx, res, r, start, end);
      OrderedAsWrittenStep(vect, idx, res, r, start, end);
    }
  }

  /** The re-sorting loop of the incremental branch, for either sort range. */
  method SortRuns(vect: seq<int>, idx: seq<nat>, res: seq<nat>, includeRunEnd: bool) returns (r: seq<nat>)
    requires |idx| == |vect| && |res| >= |vect| && InRange(idx, |vect|)
    ensures Permuted(vect, idx, r, |idx|) && InRange(idx, |res|) && InRange(r, |res|)
    ensures RanksKept(idx, res, r, |idx|)
    ensures !includeRunEnd ==> FixedAsWritten(idx, res, r, |idx|) && OrderedAsWritten(vect, idx, res, r, |idx|)
    ensures includeRunEnd ==> FixedCorrected(idx, res, r, |idx|) && OrderedCorrected(vect, idx, res, r, |idx|)
    ensures RunsKept(idx, res, r, |idx|)
  {
    var n := |vect|;
    r := idx;
    var start := 0;
    while start < n
      invariant Permuted(vect, idx, r, start) && InRange(idx, |res|) && InRange(r, |res|)
      invariant RanksKept(idx, res, r, start)
      invariant !includeRunEnd ==> FixedAsWritten(idx, res, r, start) && OrderedAsWritten(vect, idx, res, r, start)
      invariant includeRunEnd ==> FixedCorrected(idx, res, r, start) && OrderedCorrected(vect, idx, res, r, start)
      invariant RunsKept(idx, res, r, start)
      decreases n - start
    {
      var end := start;
      while end < n - 1 && res[r[end]] == res[r[end + 1]]
        invariant start <= end < n
        invariant forall k :: start <= k < end ==> Tied(res, idx, k)
        invariant forall k :: start <= k <= end ==> res[idx[k]] == res[idx[start]]
        decreases n - end
      {
        end := end + 1;
      }
      assert IsRun(idx, res, start, end);
      RunStep(vect, idx, res, r, start, end, includeRunEnd);
      RunsKeptAfterRun(vect, idx, res, r, start, end, includeRunEnd);
      r := RunSorted(vect, r, start, end, includeRunEnd);
      start := end + 1;
    }
  }

  /** The incremental branch as written: each run's last position stays put. */
  method SortTiedRuns(vect: seq<int>, idx: seq<nat>, res: seq<nat>) returns (r: seq<nat>)
    requires |idx| == |vect| && |res| >= |vect| && InRange(idx, |vect|)
    ensures |r| == |idx| && InRange(r, |vect|) && multiset(r) == multiset(idx)
    ensures forall k :: 0 <= k < |idx| ==> res[r[k]] == res[idx[k]]
    ensures forall k :: 0 <= k < |idx| && !Tied(res, idx, k) ==> r[k] == idx[k]
    ensures forall k :: Tied(res, idx, k) && Tied(res, idx, k + 1) ==> OrderedAt(vect, r, k)
    ensures forall a, b {:trigger WholeRun(res, idx, a, b)} :: WholeRun(res, idx, a, b) ==> multiset(r[a..b + 1]) == multiset(idx[a..b + 1])
  {
    r := SortRuns(vect, idx, res, false);
  }

  /** The incremental branch with each whole run sorted. */
  method SortTiedRunsCorrected(vect: seq<int>, idx: seq<nat>, res: seq<nat>) returns (r: seq<nat>)
    requires |idx| == |vect| && |res| >= |vect| && InRange(idx, |vect|)
    ensures |r| == |idx| && InRange(r, |vect|) && multiset(r) == multiset(idx)
    ensures forall k :: 0 <= k < |idx| ==> res[r[k]] == res[idx[k]]
    ensures forall k :: 0 <= k < |idx| && !Tied(res, idx, k) && !Tied(res, idx, k - 1) ==> r[k] == idx[k]
    ensures forall k :: Tied(res, idx, k) ==> OrderedAt(vect, r, k)
    ensures forall a, b {:trigger WholeRun(res, idx, a, b)} :: WholeRun(res, idx, a, b) ==> multiset(r[a..b + 1]) == multiset(idx[a..b + 1])
  {
    r := SortRuns(vect, idx, res, true);
  }

  // ---------------------------------------------------------------------
  // Rank counting

  /** How many times the value changes between consecutive positions 1..i of idx. */
  function Changes(vect: seq<int>, idx: seq<nat>, i: nat): (c: nat)
    requires i < |idx| && InRange(idx, |vect|)
    ensures c <= i
  {
    if i == 0 then 0
    else Changes(vect, idx, i - 1) + (if vect[idx[i]] != vect[idx[i - 1]] then 1 else 0)
  }

  /** Writing the rank of position i keeps the ranks already written. */
  lemma {:induction false} RankStep(vect: seq<int>, idx: seq<nat>, r: seq<nat>, i: nat)
    requires |idx| == |vect| && |r| >= |vect| && InRange(idx, |vect|) && Distinct(idx)
    requires 1 <= i < |idx|
    requires forall j {:trigger r[idx[j]]} :: 1 <= j < i ==> r[idx[j]] == Changes(vect, idx, j)
    ensures var r' := r[idx[i] := Changes(vect, idx, i)];
      forall j {:trigger r'[idx[j]]} :: 1 <= j <= i ==> r'[idx[j]] == Changes(vect, idx, j)
  {
    var r' := r[idx[i] := Changes(vect, idx, i)];
    forall j | 1 <= j <= i ensures r'[idx[j]] == Changes(vect, idx, j) {
      if j < i {
        assert idx[j] != idx[i];
      }
    }
  }

  /**
    The rank loop from position 1 on, over a result vector `r0` whose earlier
    writes are already done: position idx[i] receives the number of value
    changes up to i; the first index and the positions past the end keep what r0 had.
  */
  method CountRanks(vect: seq<int>, idx: seq<nat>, r0: seq<nat>) returns (r: seq<nat>)
    requires |idx| == |vect| && |r0| >= |vect| && InRange(idx, |vect|) && Distinct(idx)
    ensures |r| == |r0|
    ensures forall i {:trigger r[idx[i]]} :: 1 <= i < |idx| ==> r[idx[i]] == Changes(vect, idx, i)
    ensures |idx| > 0 ==> r[idx[0]] == r0[idx[0]]
    ensures forall p :: |idx| <= p < |r0| ==> r[p] == r0[p]
  {
    var n := |vect|;
    r := r0;
    if n == 0 {
      return;
    }
    var currRank := 0;
    var i := 1;
    while i < n
      invariant 1 <= i <= n && |r| == |r0|
      invariant currRank == Changes(vect, idx, i - 1)
      invariant forall j {:trigger r[idx[j]]} :: 1 <= j < i ==> r[idx[j]] == Changes(vect, idx, j)
      invariant r[idx[0]] == r0[idx[0]]
      invariant forall p :: n <= p < |r0| ==> r[p] == r0[p]
    {
      var x := idx[i];
      if vect[x] != vect[idx[i - 1]] {
        currRank := currRank + 1;
      }
      assert currRank == Changes(vect, idx, i);
      RankStep(vect, idx, r, i);
      assert x != idx[0];
      r := r[x := currRank];
      i := i + 1;
    }
  }

  /**
    The rank loop as written: `res[0] = 0` first, then the loop. Position
    idx[0] is written only when it is 0; otherwise it keeps its old value,
    and position 0 is overwritten later by the loop.
  */
  method AssignRanks(vect: seq<int>, idx: seq<nat>, res: seq<nat>) returns (r: seq<nat>)
    requires |idx| == |vect| && |res| >= |vect| && |res| >= 1 && IsPermutation(idx, |vect|)
    ensures |r| == |res|
    ensures forall i {:trigger r[idx[i]]} :: 1 <= i < |idx| ==> r[idx[i]] == Changes(vect, idx, i)
    ensures |idx| > 0 ==> r[idx[0]] == (if idx[0] == 0 then 0 else res[idx[0]])
    ensures forall p :: |idx| <= p < |res| && p != 0 ==> r[p] == res[p]
    ensures |idx| == 0 ==> r == res[0 := 0]
  {
    r := CountRanks(vect, idx, res[0 := 0]);
  }

  /** The rank loop with the first index's own slot set to 0. */
  method AssignRanksCorrected(vect: seq<int>, idx: seq<nat>, res: seq<nat>) returns (r: seq<nat>)
    requires |idx| == |vect| && |res| >= |vect| && IsPermutation(idx, |vect|)
    ensures |r| == |res|
    ensures forall i {:trigger r[idx[i]]} :: 0 <= i < |idx| ==> r[idx[i]] == Changes(vect, idx, i)
    ensures forall p :: |idx| <= p < |res| ==> r[p] == res[p]
  {
    if |idx| == 0 {
      return res;
    }
    r := CountRanks(vect, idx, res[idx[0] := 0]);
  }

  // ---------------------------------------------------------------------
  // Dense ranks: the reference the rank loop is measured against

  /** The distinct values strictly smaller than vect[p]. */
  function Smaller(vect: seq<int>, p: nat): set<int>
    requires p < |vect|
  {
    set q | 0 <= q < |vect| && vect[q] < vect[p] :: vect[q]
  }

  /** The dense rank of entry p: how many distinct values lie below vect[p]. */
  function DenseRank(vect: seq<int>, p: nat): nat
    requires p < |vect|
  {
    |Smaller(vect, p)|
  }

  /** Dense ranks order entries exactly as their values do, ties included. */
  lemma {:induction false} DenseRankOrder(vect: seq<int>, p: nat, q: nat)
    requires p < |vect| && q < |vect|
    ensures vect[p] < vect[q] <==> DenseRank(vect, p) < DenseRank(vect, q)
    ensures vect[p] == vect[q] <==> DenseRank(vect, p) == DenseRank(vect, q)
  {
    if vect[p] < vect[q] {
      SmallerGrows(vect, p, q);
    } else if vect[q] < vect[p] {
      SmallerGrows(vect, q, p);
    } else {
      assert Smaller(vect, p) == Smaller(vect, q);
    }
  }

  lemma {:induction false} SmallerGrows(vect: seq<int>, p: nat, q: nat)
    requires p < |vect| && q < |vect| && vect[p] < vect[q]
    ensures DenseRank(vect, p) < DenseRank(vect, q)
  {
    var a, b := Smaller(vect, p), Smaller(vect, q);
    assert a <= b;
    assert vect[p] in b - a;
    assert b == a + (b - a);
  }

  /** The distinct values at positions 0..i of idx. */
  ghost function Prefix(vect: seq<int>, idx: seq<nat>, i: nat): set<int>
    requires i < |idx| && InRange(idx, |vect|)
  {
    set k | 0 <= k <= i :: vect[idx[k]]
  }

  /** The values at positions 0..i are those at 0..i-1 plus the one at i. */
  lemma {:induction false} PrefixGrows(vect: seq<int>, idx: seq<nat>, i: nat)
    requires 0 < i < |idx| && InRange(idx, |vect|)
    ensures Prefix(vect, idx, i) == Prefix(vect, idx, i - 1) + {vect[idx[i]]}
  {
  }

  /** Along a sorted order, positions 0..i hold one more distinct value than there are changes. */
  lemma {:induction false} PrefixSize(vect: seq<int>, idx: seq<nat>, i: nat)
    requires i < |idx| && SortedBy(vect, idx)
    ensures |Prefix(vect, idx, i)| == Changes(vect, idx, i) + 1
  {
    var v := vect[idx[i]];
    if i == 0 {
      assert Prefix(vect, idx, 0) == {v};
    } else {
      PrefixSize(vect, idx, i - 1);
      var before := Prefix(vect, idx, i - 1);
      PrefixGrows(vect, idx, i);
      if v == vect[idx[i - 1]] {
        assert v in before;
        assert before + {v} == before;
      } else {
        forall x | x in before ensures x < v {
          var k :| 0 <= k <= i - 1 && x == vect[idx[k]];
          assert vect[idx[k]] <= vect[idx[i - 1]] <= v;
        }
      }
    }
  }

  /** Along a sorted permutation, the values below position i's are those before it. */
  lemma {:induction false} SmallerIsPrefix(vect: seq<int>, idx: seq<nat>, i: nat)
    requires i < |idx| && SortedBy(vect, idx) && IsPermutation(idx, |vect|)
    ensures Smaller(vect, idx[i]) == Prefix(vect, idx, i) - {vect[idx[i]]}
  {
    var v := vect[idx[i]];
    PermutationCovers(idx, |vect|);
    forall x | x in Smaller(vect, idx[i]) ensures x in Prefix(vect, idx, i) {
      var q :| 0 <= q < |vect| && vect[q] < v && x == vect[q];
      assert q in idx;
      var k :| 0 <= k < |idx| && idx[k] == q;
    }
    forall x | x in Prefix(vect, idx, i) - {v} ensures x in Smaller(vect, idx[i]) {
      var k :| 0 <= k <= i && x == vect[idx[k]];
      assert vect[idx[k]] < v;
    }
  }

  /**
    Walking a sorted permutation, the number of value changes up to i is the
    dense rank of the entry at i.
  */
  lemma {:induction false} ChangesAreDenseRanks(vect: seq<int>, idx: seq<nat>)
    requires SortedBy(vect, idx) && IsPermutation(idx, |vect|)
    ensures forall i :: 0 <= i < |idx| ==> Changes(vect, idx, i) == DenseRank(vect, idx[i])
  {
    forall i | 0 <= i < |idx| ensures Changes(vect, idx, i) == DenseRank(vect, idx[i]) {
      PrefixSize(vect, idx, i);
      SmallerIsPrefix(vect, idx, i);
    }
  }

  /**
    Rank writes along a sorted permutation are the dense ranks: every entry
    but the first index's one from the writes, and the first index's dense
    rank is 0.
  */
  lemma {:induction false} WritesAreDenseRanks(vect: seq<int>, idx: seq<nat>, r: seq<nat>, from: nat)
    requires SortedBy(vect, idx) && IsPermutation(idx, |vect|) && |r| >= |vect| && from <= 1
    requires forall i {:trigger r[idx[i]]} :: from <= i < |idx| ==> r[idx[i]] == Changes(vect, idx, i)
    ensures |idx| > 0 ==> DenseRank(vect, idx[0]) == 0
    ensures forall p :: 0 <= p < |vect| && (from == 0 || p != idx[0]) ==> r[p] == DenseRank(vect, p)
  {
    ChangesAreDenseRanks(vect, idx);
    PermutationCovers(idx, |vect|);
    forall p | 0 <= p < |vect| && (from == 0 || p != idx[0]) ensures r[p] == DenseRank(vect, p) {
      assert p in idx;
      var i :| 0 <= i < |idx| && idx[i] == p;
    }
  }

  /** Consecutive order along s gives order between any two positions. */
  lemma {:induction false} AdjacentSorted(vect: seq<int>, s: seq<nat>)
    requires InRange(s, |vect|)
    requires forall k :: 0 <= k && k + 1 < |s| ==> OrderedAt(vect, s, k)
    ensures SortedBy(vect, s)
  {
    forall i, j | 0 <= i < j < |s| ensures vect[s[i]] <= vect[s[j]] {
      var m := i;
      while m < j
        invariant i <= m <= j && vect[s[i]] <= vect[s[m]]
      {
        assert OrderedAt(vect, s, m);
        m := m + 1;
      }
    }
  }

  /**
    A previous state the incremental mode can build on: idx is ordered by
    the previous ranks, and the new values refine those ranks.
  */
  ghost predicate Consistent(vect: seq<int>, idx: seq<nat>, res: seq<nat>)
    requires |idx| == |vect| <= |res| && InRange(idx, |vect|)
  {
    && (forall k :: 0 <= k && k + 1 < |idx| ==> OrderedAt(res, idx, k))
    && (forall p, q :: 0 <= p < |vect| && 0 <= q < |vect| && res[p] < res[q] ==> vect[p] < vect[q])
  }

  /**
    From a consistent previous state, sorting every whole run of tied
    indices leaves the entire permutation sorted by value.
  */
  lemma {:induction false} WholeRunsSortAll(vect: seq<int>, idx: seq<nat>, res: seq<nat>, r: seq<nat>)
    requires |idx| == |vect| <= |res| && InRange(idx, |vect|) && Consistent(vect, idx, res)
    requires |r| == |idx| && InRange(r, |vect|)
    requires forall k :: 0 <= k < |idx| ==> res[r[k]] == res[idx[k]]
    requires forall k :: Tied(res, idx, k) ==> OrderedAt(vect, r, k)
    ensures SortedBy(vect, r)
  {
    forall k | 0 <= k && k + 1 < |r| ensures OrderedAt(vect, r, k) {
      if !Tied(res, idx, k) {
        assert OrderedAt(res, idx, k);
        assert res[r[k]] < res[r[k + 1]];
      }
    }
    AdjacentSorted(vect, r);
  }

  // ---------------------------------------------------------------------
  // rankVect

  /**
    rankVect(vect, indices, res, reset_indices) as written. With
    reset_indices the indices are 0..n-1 sorted by value; otherwise only the
    runs tied under the previous ranks are re-sorted, minus each run's last
    position. Then `res[0] = 0` and the rank loop: every index but the first
    gets its count of value changes, and the first index's entry keeps its
    old value unless that index is 0.
  */
  method RankVect(vect: seq<int>, indices: seq<nat>, res: seq<nat>, resetIndices: bool)
    returns (indices': seq<nat>, res': seq<nat>)
    requires |res| >= |vect| && |indices| == |vect| && |res| >= 1
    requires !resetIndices ==> IsPermutation(indices, |vect|)
    ensures IsPermutation(indices', |vect|) && |res'| == |res|
    ensures resetIndices ==> SortedBy(vect, indices')
    ensures !resetIndices ==> forall k :: 0 <= k < |vect| ==> res[indices'[k]] == res[indices[k]]
    ensures !resetIndices ==> forall k :: 0 <= k < |vect| && !Tied(res, indices, k) ==> indices'[k] == indices[k]
    ensures !resetIndices ==> forall k :: Tied(res, indices, k) && Tied(res, indices, k + 1) ==> OrderedAt(vect, indices', k)
    ensures !resetIndices ==> forall a, b {:trigger WholeRun(res, indices, a, b)} :: WholeRun(res, indices, a, b) ==> multiset(indices'[a..b + 1]) == multiset(indices[a..b + 1])
    ensures forall i {:trigger res'[indices'[i]]} :: 1 <= i < |vect| ==> res'[indices'[i]] == Changes(vect, indices', i)
    ensures |vect| > 0 ==> res'[indices'[0]] == (if indices'[0] == 0 then 0 else res[indices'[0]])
    ensures |vect| == 0 ==> res' == res[0 := 0]
    ensures forall p :: |vect| <= p < |res| && p != 0 ==> res'[p] == res[p]
    ensures resetIndices && |vect| > 0 ==> DenseRank(vect, indices'[0]) == 0
    ensures resetIndices ==> forall p {:trigger res'[p]} :: 0 <= p < |vect| ==> res'[p] == (if p == indices'[0] && p != 0 then res[p] else DenseRank(vect, p))
  {
    var n := |vect|;
    if resetIndices {
      indices' := SortByValue(vect, Iota(n));
      IotaPermutation(indices', n);
    } else {
      indices' := SortTiedRuns(vect, indices, res);
      PermutedPermutation(indices, indices', n);
    }
    res' := AssignRanks(vect, indices', res);
    if resetIndices {
      WritesAreDenseRanks(vect, indices', res', 1);
    }
  }

  /**
    rankVect with both defects repaired: whole runs are re-sorted and the
    first index's own entry is set to 0. The result is the dense ranking of
    vect whenever the indices are freshly sorted or the previous state is
    consistent.
  */
  method RankVectCorrected(vect: seq<int>, indices: seq<nat>, res: seq<nat>, resetIndices: bool)
    returns (indices': seq<nat>, res': seq<nat>)
    requires |res| >= |vect| && |indices| == |vect|
    requires !resetIndices ==> IsPermutation(indices, |vect|)
    ensures IsPermutation(indices', |vect|) && |res'| == |res|
    ensures !resetIndices ==> forall k :: 0 <= k < |vect| ==> res[indices'[k]] == res[indices[k]]
    ensures forall i {:trigger res'[indices'[i]]} :: 0 <= i < |vect| ==> res'[indices'[i]] == Changes(vect, indices', i)
    ensures forall p :: |vect| <= p < |res| ==> res'[p] == res[p]
    ensures resetIndices || Consistent(vect, indices, res) ==> SortedBy(vect, indices')
    ensures resetIndices || Consistent(vect, indices, res) ==>
      forall p {:trigger res'[p]} :: 0 <= p < |vect| ==> res'[p] == DenseRank(vect, p)
  {
    var n := |vect|;
    if resetIndices {
      indices' := SortByValue(vect, Iota(n));
      IotaPermutation(indices', n);
    } else {
      indices' := SortTiedRunsCorrected(vect, indices, res);
      PermutedPermutation(indices, indices', n);
      if Consistent(vect, indices, res) {
        WholeRunsSortAll(vect, indices, res, indices');
      }
    }
    res' := AssignRanksCorrected(vect, indices', res);
    if resetIndices || Consistent(vect, indices, res) {
      assert forall p {:trigger res'[p]} :: 0 <= p < |vect| ==> res'[p] == DenseRank(vect, p) by {
        WritesAreDenseRanks(vect, indices', res', 0);
      }
    }
  }

  /**
    rankVect(vect, res): a fresh zero-filled indices vector and a full sort.
    Every entry is its dense rank except possibly one entry of smallest
    value other than entry 0, which keeps its old value.
  */
  method RankVectAll(vect: seq<int>, res: seq<nat>) returns (res': seq<nat>)
    requires |res| >= |vect| && |res| >= 1
    ensures |res'| == |res|
    ensures forall p :: 0 <= p < |vect| && res'[p] != DenseRank(vect, p) ==> p != 0 && DenseRank(vect, p) == 0 && res'[p] == res[p]
    ensures forall p, q :: 0 <= p < q < |vect| && res'[p] != DenseRank(vect, p) ==> res'[q] == DenseRank(vect, q)
    ensures forall p :: |vect| <= p < |res| && p != 0 ==> res'[p] == res[p]
    ensures |vect| == 0 ==> res'[0] == 0
  {
    var indices: seq<nat> := seq(|vect|, _ => 0);
    var sorted;
    sorted, res' := RankVect(vect, indices, res, true);
    forall p | 0 <= p < |vect| && res'[p] != DenseRank(vect, p)
      ensures p != 0 && DenseRank(vect, p) == 0 && res'[p] == res[p]
    {
      assert p == sorted[0] && p != 0;
    }
    forall p, q | 0 <= p < q < |vect| && res'[p] != DenseRank(vect, p)
      ensures res'[q] == DenseRank(vect, q)
    {
      assert p == sorted[0];
    }
  }

  /** rankVect(vect, res) with the first rank written to the right entry. */
  method RankVectAllCorrected(vect: seq<int>, res: seq<nat>) returns (res': seq<nat>)
    requires |res| >= |vect|
    ensures |res'| == |res|
    ensures forall p :: 0 <= p < |vect| ==> res'[p] == DenseRank(vect, p)
    ensures forall p :: |vect| <= p < |res| ==> res'[p] == res[p]
  {
    var indices: seq<nat> := seq(|vect|, _ => 0);
    var sorted;
    sorted, res' := RankVectCorrected(vect, indices, res, true);
  }

  // ---------------------------------------------------------------------
  // Inputs that show the two defects

  /** The only sorted order of the indices of [1, 0]. */
  lemma {:induction false} SortedIndicesOfOneZero(s: seq<nat>)
    requires IsPermutation(s, 2) && SortedBy([1, 0], s)
    ensures s == [1, 0]
  {
    assert s[0] != s[1] && s[0] < 2 && s[1] < 2;
    var vect := [1, 0];
    assert vect[s[0]] <= vect[s[1]];
  }

  /** Both indices of [1, 0] with their changes and dense ranks. */
  lemma {:induction false} RanksOfOneZero()
    ensures Changes([1, 0], [1, 0], 1) == 1 && Changes([1, 0], [0, 1], 1) == 1
    ensures DenseRank([1, 0], 0) == 1 && DenseRank([1, 0], 1) == 0
  {
    var vect := [1, 0];
    assert vect[1] in Smaller(vect, 0);
    assert Smaller(vect, 0) == {0};
    assert Smaller(vect, 1) == {};
  }

  /**
    vect = [1, 0], res = [7, 7], full sort: the indices become [1, 0] and
    entry 1, of dense rank 0, keeps its stale 7.
  */
  method StaleFirstRankExample() returns (res': seq<nat>)
    ensures |res'| == 2 && res'[0] == 1 && res'[1] == 7
    ensures res'[1] != DenseRank([1, 0], 1)
  {
    var sorted;
    sorted, res' := RankVect([1, 0], [0, 0], [7, 7], true);
    SortedIndicesOfOneZero(sorted);
    RanksOfOneZero();
  }

  /** The previous state of the incremental example is a valid, consistent one. */
  lemma {:induction false} OneZeroPreviousState()
    ensures IsPermutation([0, 1], 2) && Consistent([1, 0], [0, 1], [0, 0])
    ensures !Tied([0, 0], [0, 1], 1) && !SortedBy([1, 0], [0, 1])
  {
    assert Iota(2) == [0, 1];
    var vect: seq<int>, idx: seq<nat> := [1, 0], [0, 1];
    assert vect[idx[0]] > vect[idx[1]];
  }

  /**
    vect = [1, 0], indices = [0, 1], res = [0, 0], incremental: the run is
    positions 0..1 but only position 0 is sorted, so nothing moves and the
    ranks come out reversed, although the previous state is consistent.
  */
  method UnsortedRunExample() returns (indices': seq<nat>, res': seq<nat>)
    ensures |indices'| == 2 && indices'[0] == 0 && indices'[1] == 1
    ensures |res'| == 2 && res'[0] == 0 && res'[1] == 1
    ensures res'[0] != DenseRank([1, 0], 0)
  {
    OneZeroPreviousState();
    indices', res' := RankVect([1, 0], [0, 1], [0, 0], false);
    assert indices'[1] == 1;
    assert indices'[0] == 0;
    assert indices' == [0, 1];
    RanksOfOneZero();
    assert res'[indices'[1]] == 1;
  }

  /** The previous state of RunsStayApartExample: runs 0..1, 2 and 3..4. */
  lemma {:induction false} TwoRunsPreviousState()
    ensures IsPermutation([0, 1, 2, 3, 4], 5)
    ensures !Tied([0, 0, 1, 0, 0], [0, 1, 2, 3, 4], 1) && !Tied([0, 0, 1, 0, 0], [0, 1, 2, 3, 4], 2)
    ensures WholeRun([0, 0, 1, 0, 0], [0, 1, 2, 3, 4], 0, 1) && WholeRun([0, 0, 1, 0, 0], [0, 1, 2, 3, 4], 3, 4)
  {
  }

  /** Two two-element blocks with the same contents and the same second element agree on the first. */
  lemma {:induction false} SamePairFirst(s: seq<nat>, t: seq<nat>)
    requires |s| == |t| == 2 && s[1] == t[1] && multiset(s) == multiset(t)
    ensures s[0] == t[0]
  {
    assert s == [s[0]] + [s[1]] && t == [t[0]] + [t[1]];
    assert multiset(s) == multiset{s[0]} + multiset{s[1]};
    assert multiset(t) == multiset{t[0]} + multiset{s[1]};
    assert multiset(s)[s[0]] == multiset(t)[s[0]];
  }

  /** Each two-position run that kept its contents and its last index kept its first index too. */
  lemma {:induction false} TwoRunsStayPut(r: seq<nat>, idx: seq<nat>)
    requires |r| == |idx| == 5 && r[1] == idx[1] && r[4] == idx[4]
    requires multiset(r[0..2]) == multiset(idx[0..2]) && multiset(r[3..5]) == multiset(idx[3..5])
    ensures r[0] == idx[0] && r[3] == idx[3]
  {
    SamePairFirst(r[0..2], idx[0..2]);
    SamePairFirst(r[3..5], idx[3..5]);
  }

  /** The change counts along [0, 1, 2, 3, 4] for vect [1, 5, 5, 0, 5]. */
  lemma {:induction false} TwoRunsChanges()
    ensures Changes([1, 5, 5, 0, 5], [0, 1, 2, 3, 4], 1) == 1
    ensures Changes([1, 5, 5, 0, 5], [0, 1, 2, 3, 4], 2) == 1
    ensures Changes([1, 5, 5, 0, 5], [0, 1, 2, 3, 4], 3) == 2
    ensures Changes([1, 5, 5, 0, 5], [0, 1, 2, 3, 4], 4) == 3
  {
  }

  /**
    vect = [1, 5, 5, 0, 5], indices = [0, 1, 2, 3, 4], res = [0, 0, 1, 0, 0],
    incremental: the runs 0..1 and 3..4 share previous rank 0, each is two
    long so only its first position is sorted, and no index moves into the
    other run. The indices stay put and the ranks follow the change counts.
  */
  method RunsStayApartExample() returns (indices': seq<nat>, res': seq<nat>)
    ensures indices' == [0, 1, 2, 3, 4]
    ensures res' == [0, 1, 1, 2, 3]
  {
    TwoRunsPreviousState();
    indices', res' := RankVect([1, 5, 5, 0, 5], [0, 1, 2, 3, 4], [0, 0, 1, 0, 0], false);
    TwoRunsStayPut(indices', [0, 1, 2, 3, 4]);
    assert indices' == [0, 1, 2, 3, 4];
    TwoRunsChanges();
    assert res'[indices'[1]] == 1 && res'[indices'[2]] == 1 && res'[indices'[3]] == 2 && res'[indices'[4]] == 3;
  }
}
