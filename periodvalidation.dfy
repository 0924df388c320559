/**
 * `validatePeriods` of the period controller: every period must have start <= end
 * (in minutes), and, once a copy is sorted by start, no period may end after the next
 * one starts.
 */
module PeriodValidation {
  import opened Wrappers
  import opened JsNumber
  import opened Store
  import opened TimeOfDay

  /** One element of the request body's `period` array. */
  datatype Period = Period(id: Option<Id>, start: string, end: string, description: string)

  function StartOf(p: Period): Num {
    GetTimeInMinutes(p.start)
  }

  function EndOf(p: Period): Num {
    GetTimeInMinutes(p.end)
  }

  /** `start > end`; false when either side is NaN. */
  predicate IsInverted(p: Period) {
    Greater(StartOf(p), EndOf(p))
  }

  predicate AnyInverted(ps: seq<Period>) {
    exists i :: 0 <= i < |ps| && IsInverted(ps[i])
  }

  /** Both clock texts of every period read as numbers. */
  predicate AllParsed(ps: seq<Period>) {
    forall i :: 0 <= i < |ps| ==> StartOf(ps[i]).Finite? && EndOf(ps[i]).Finite?
  }

  /** The sort comparator `startTimeA - startTimeB` is positive (a NaN result is a tie). */
  predicate StartsAfter(a: Period, b: Period) {
    Greater(StartOf(a), StartOf(b))
  }

  /**
   * Inserts `x` behind every element that does not sort after it: one step of the
   * stable insertion sort that stands for `Array.prototype.sort`.
   */
  function InsertByStart(sorted: seq<Period>, x: Period): (r: seq<Period>)
    ensures |r| == |sorted| + 1
    ensures multiset(r) == multiset(sorted) + multiset{x}
  {
    if |sorted| == 0 then [x]
    else if StartsAfter(sorted[|sorted| - 1], x) then
      assert sorted == sorted[..|sorted| - 1] + [sorted[|sorted| - 1]];
      InsertByStart(sorted[..|sorted| - 1], x) + [sorted[|sorted| - 1]]
    else sorted + [x]
  }

  /** `periods.slice().sort((a, b) => start(a) - start(b))`. */
  function SortByStart(ps: seq<Period>): (r: seq<Period>)
    ensures |r| == |ps|
    ensures multiset(r) == multiset(ps)
  {
    if |ps| == 0 then []
    else
      assert ps == ps[..|ps| - 1] + [ps[|ps| - 1]];
      InsertByStart(SortByStart(ps[..|ps| - 1]), ps[|ps| - 1])
  }

  /** The `currentEnd > nextStart` test at position `k` of the sorted copy. */
  predicate OverlapsNext(s: seq<Period>, k: int)
    requires 0 <= k < |s| - 1
  {
    Greater(EndOf(s[k]), StartOf(s[k + 1]))
  }

  predicate AnyAdjacentOverlap(s: seq<Period>) {
    exists k :: 0 <= k < |s| - 1 && OverlapsNext(s, k)
  }

  /** The request passes `validatePeriods`. */
  predicate PeriodsAccepted(ps: seq<Period>) {
    !AnyInverted(ps) && !AnyAdjacentOverlap(SortByStart(ps))
  }

  /** `validatePeriods`: the inverted check over all periods first, then the sorted check. */
  method ValidatePeriods(periods: seq<Period>) returns (r: Outcome<Failure>)
    ensures r == Fail(InvertedPeriod) <==> AnyInverted(periods)
    ensures r == Fail(OverlappingPeriods) <==>
      !AnyInverted(periods) && AnyAdjacentOverlap(SortByStart(periods))
    ensures r == Pass <==> PeriodsAccepted(periods)
  {
    var inverted := FindInverted(periods);
    if inverted {
      return Fail(InvertedPeriod);
    }
    var sorted := SortByStart(periods);
    var overlap := FindAdjacentOverlap(sorted);
    if overlap {
      return Fail(OverlappingPeriods);
    }
    return Pass;
  }

  /** The first loop of `validatePeriods`: does some period have `start > end`? */
  method FindInverted(periods: seq<Period>) returns (found: bool)
    ensures found <==> AnyInverted(periods)
  {
    var i := 0;
    while i < |periods|
      invariant 0 <= i <= |periods|
      invariant forall k :: 0 <= k < i ==> !IsInverted(periods[k])
    {
      var start := GetTimeInMinutes(periods[i].start);
      var end := GetTimeInMinutes(periods[i].end);
      if Greater(start, end) {
        assert IsInverted(periods[i]);
        return true;
      }
      i := i + 1;
    }
    return false;
  }

  /** The loop over the sorted copy: does some period end after the next one starts? */
  method FindAdjacentOverlap(sorted: seq<Period>) returns (found: bool)
    ensures found <==> AnyAdjacentOverlap(sorted)
  {
    var k := 0;
    while k < |sorted| - 1
      invariant 0 <= k <= |sorted|
      invariant forall j :: 0 <= j < k && j < |sorted| - 1 ==> !OverlapsNext(sorted, j)
    {
      var currentEnd := GetTimeInMinutes(sorted[k].end);
      var nextStart := GetTimeInMinutes(sorted[k + 1].start);
      if Greater(currentEnd, nextStart) {
        assert OverlapsNext(sorted, k);
        return true;
      }
      k := k + 1;
    }
    return false;
  }

  // ---------------------------------------------------------------------------
  // What a passing validation guarantees.

  /** Sorted by start, every start being a number. */
  predicate SortedByStart(s: seq<Period>) {
    forall i, j :: 0 <= i < j < |s| ==> LessEq(StartOf(s[i]), StartOf(s[j]))
  }

  predicate StartsParsed(s: seq<Period>) {
    forall i :: 0 <= i < |s| ==> StartOf(s[i]).Finite?
  }

  /**
   * Two periods are disjoint as half-open intervals in the sense the validator enforces:
   * one of them ends no later than the other begins.
   */
  predicate Disjoint(a: Period, b: Period) {
    LessEq(EndOf(a), StartOf(b)) || LessEq(EndOf(b), StartOf(a))
  }

  /** Every element of an insertion is the inserted one or comes from the sequence. */
  lemma InsertedFrom(s: seq<Period>, x: Period, i: int)
    requires 0 <= i < |InsertByStart(s, x)|
    ensures InsertByStart(s, x)[i] == x || InsertByStart(s, x)[i] in s
  {
    var t := InsertByStart(s, x);
    assert t[i] in multiset(t);
  }

  /** When `x` sorts before the last element, everything inserted before it starts no later. */
  lemma BelowLast(s: seq<Period>, x: Period, i: int)
    requires SortedByStart(s) && |s| > 0 && StartsAfter(s[|s| - 1], x)
    requires 0 <= i < |InsertByStart(s[..|s| - 1], x)|
    ensures LessEq(StartOf(InsertByStart(s[..|s| - 1], x)[i]), StartOf(s[|s| - 1]))
  {
    var init := s[..|s| - 1];
    InsertedFrom(init, x, i);
    var y := InsertByStart(init, x)[i];
    if y != x {
      var k :| 0 <= k < |init| && init[k] == y;
      assert s[k] == y;
    }
  }

  lemma {:induction false} InsertByStartSorted(s: seq<Period>, x: Period)
    requires SortedByStart(s) && StartsParsed(s) && StartOf(x).Finite?
    ensures SortedByStart(InsertByStart(s, x))
  {
    if |s| > 0 && StartsAfter(s[|s| - 1], x) {
      var init, last := s[..|s| - 1], s[|s| - 1];
      InsertByStartSorted(init, x);
      var t := InsertByStart(init, x);
      var r := t + [last];
      forall i, j | 0 <= i < j < |r| ensures LessEq(StartOf(r[i]), StartOf(r[j])) {
        if j == |t| {
          assert r[i] == t[i];
          BelowLast(s, x, i);
        } else {
          assert r[i] == t[i] && r[j] == t[j];
        }
      }
      assert InsertByStart(s, x) == r;
    } else if |s| > 0 {
      AppendSorted(s, x);
    }
  }

  /** Appending an element that does not sort before the last one keeps the order. */
  lemma AppendSorted(s: seq<Period>, x: Period)
    requires SortedByStart(s) && StartsParsed(s) && StartOf(x).Finite?
    requires |s| > 0 && !StartsAfter(s[|s| - 1], x)
    ensures SortedByStart(s + [x])
  {
    var r := s + [x];
    forall i, j | 0 <= i < j < |r| ensures LessEq(StartOf(r[i]), StartOf(r[j])) {
      if j == |s| {
        assert LessEq(StartOf(s[i]), StartOf(s[|s| - 1]));
      } else {
        assert r[i] == s[i] && r[j] == s[j];
      }
    }
  }

  lemma {:induction false} SortByStartSorted(ps: seq<Period>)
    requires StartsParsed(ps)
    ensures SortedByStart(SortByStart(ps))
  {
    if |ps| > 0 {
      var init := ps[..|ps| - 1];
      SortByStartSorted(init);
      SortKeepsParsed(init);
      InsertByStartSorted(SortByStart(init), ps[|ps| - 1]);
    }
  }

  /** Sorting keeps every start parsed. */
  lemma SortKeepsParsed(ps: seq<Period>)
    requires StartsParsed(ps)
    ensures StartsParsed(SortByStart(ps))
  {
    var s := SortByStart(ps);
    forall i | 0 <= i < |s| ensures StartOf(s[i]).Finite? {
      assert s[i] in multiset(ps);
      var k :| 0 <= k < |ps| && ps[k] == s[i];
    }
  }

  /** Two distinct positions holding one value make it occur at least twice. */
  lemma CountTwo<T>(a: seq<T>, p: int, q: int)
    requires 0 <= p < q < |a| && a[p] == a[q]
    ensures multiset(a)[a[p]] >= 2
  {
    assert a == a[..p] + [a[p]] + a[p + 1..];
    assert a[p + 1..][q - p - 1] == a[q];
    assert a[q] in multiset(a[p + 1..]);
  }

  /** A value occurring twice sits at two distinct positions. */
  lemma TwoPositions<T>(b: seq<T>, v: T) returns (i: int, j: int)
    requires multiset(b)[v] >= 2
    ensures 0 <= i < |b| && 0 <= j < |b| && i != j && b[i] == v && b[j] == v
  {
    assert v in multiset(b);
    i :| 0 <= i < |b| && b[i] == v;
    assert b == b[..i] + [b[i]] + b[i + 1..];
    var rest := b[..i] + b[i + 1..];
    assert multiset(b) == multiset(rest) + multiset{v};
    assert v in multiset(rest);
    var k :| 0 <= k < |rest| && rest[k] == v;
    j := if k < i then k else k + 1;
  }

  /**
   * Permuting a sequence keeps two of its positions apart: the elements at two distinct
   * positions of `a` sit at two distinct positions of `b`.
   */
  lemma DistinctPositions<T>(a: seq<T>, b: seq<T>, p: int, q: int) returns (i: int, j: int)
    requires multiset(a) == multiset(b)
    requires 0 <= p < |a| && 0 <= q < |a| && p != q
    ensures 0 <= i < |b| && 0 <= j < |b| && i != j && b[i] == a[p] && b[j] == a[q]
  {
    if a[p] != a[q] {
      assert a[p] in multiset(a) && a[q] in multiset(a);
      i :| 0 <= i < |b| && b[i] == a[p];
      j :| 0 <= j < |b| && b[j] == a[q];
    } else {
      if p < q { CountTwo(a, p, q); } else { CountTwo(a, q, p); }
      i, j := TwoPositions(b, a[p]);
    }
  }

  /** Along a sorted, validated sequence every period ends before any later one starts. */
  lemma {:induction false} SortedChain(s: seq<Period>, i: int, j: int)
    requires AllParsed(s) && SortedByStart(s)
    requires forall k :: 0 <= k < |s| ==> !IsInverted(s[k])
    requires !AnyAdjacentOverlap(s)
    requires 0 <= i < j < |s|
    ensures LessEq(EndOf(s[i]), StartOf(s[j]))
    decreases j - i
  {
    assert !OverlapsNext(s, i);
    if i + 1 < j {
      SortedChain(s, i + 1, j);
      assert !IsInverted(s[i + 1]);
    }
  }

  /**
   * The sorted-adjacent check is enough: when every time parses and validation passes,
   * any two submitted periods are disjoint, whatever order they were submitted in.
   */
  lemma AcceptedPeriodsAreDisjoint(ps: seq<Period>)
    requires AllParsed(ps) && PeriodsAccepted(ps)
    ensures forall p, q :: 0 <= p < |ps| && 0 <= q < |ps| && p != q ==> Disjoint(ps[p], ps[q])
  {
    var s := SortByStart(ps);
    forall k | 0 <= k < |s| ensures StartOf(s[k]).Finite? && EndOf(s[k]).Finite? && !IsInverted(s[k]) {
      assert s[k] in multiset(ps);
      var m :| 0 <= m < |ps| && ps[m] == s[k];
    }
    SortByStartSorted(ps);
    forall p, q | 0 <= p < |ps| && 0 <= q < |ps| && p != q ensures Disjoint(ps[p], ps[q]) {
      var i, j := DistinctPositions(ps, s, p, q);
      if i < j { SortedChain(s, i, j); } else { SortedChain(s, j, i); }
    }
  }

  /** Sorting keeps every period parsed and non-empty. */
  lemma SortKeepsNonEmpty(ps: seq<Period>)
    requires forall i :: 0 <= i < |ps| ==> StartOf(ps[i]).Finite? && Less(StartOf(ps[i]), EndOf(ps[i]))
    ensures forall k :: 0 <= k < |SortByStart(ps)| ==>
      StartOf(SortByStart(ps)[k]).Finite? && Less(StartOf(SortByStart(ps)[k]), EndOf(SortByStart(ps)[k]))
  {
    var s := SortByStart(ps);
    forall k | 0 <= k < |s| ensures StartOf(s[k]).Finite? && Less(StartOf(s[k]), EndOf(s[k])) {
      assert s[k] in multiset(ps);
      var m :| 0 <= m < |ps| && ps[m] == s[k];
    }
  }

  /**
   * Conversely, non-empty periods that are pairwise disjoint always pass; with every
   * period non-empty, validation passes exactly when the periods are pairwise disjoint.
   */
  lemma DisjointPeriodsAreAccepted(ps: seq<Period>)
    requires AllParsed(ps)
    requires forall i :: 0 <= i < |ps| ==> Less(StartOf(ps[i]), EndOf(ps[i]))
    requires forall p, q :: 0 <= p < |ps| && 0 <= q < |ps| && p != q ==> Disjoint(ps[p], ps[q])
    ensures PeriodsAccepted(ps)
  {
    var s := SortByStart(ps);
    SortKeepsNonEmpty(ps);
    SortByStartSorted(ps);
    forall k | 0 <= k < |s| - 1 ensures !OverlapsNext(s, k) {
      var p, q := DistinctPositions(s, ps, k, k + 1);
      assert Disjoint(ps[p], ps[q]);
      NeighboursApart(s, k);
    }
    assert !AnyInverted(ps);
  }

  /** Sorted, non-empty and disjoint neighbours do not overlap. */
  lemma NeighboursApart(s: seq<Period>, k: int)
    requires 0 <= k < |s| - 1 && SortedByStart(s) && Disjoint(s[k], s[k + 1])
    requires Less(StartOf(s[k]), EndOf(s[k])) && Less(StartOf(s[k + 1]), EndOf(s[k + 1]))
    ensures !OverlapsNext(s, k)
  {
    assert LessEq(StartOf(s[k]), StartOf(s[k + 1]));
  }

  // ---------------------------------------------------------------------------
  // Concrete requests.

  function Clock(h: nat, m: nat): string {
    ClockText(h, m)
  }

  lemma MinutesOf(h: nat, m: nat)
    requires h <= 23 && m <= 59
    ensures GetTimeInMinutes(Clock(h, m)) == Finite(h * 60 + m)
  {
    ClockTextValidity(h, m);
  }

  /** Validation of a two-period request, spelled out. */
  lemma PairAccepted(a: Period, b: Period)
    ensures PeriodsAccepted([a, b]) <==>
      !IsInverted(a) && !IsInverted(b) &&
      if StartsAfter(a, b) then !Greater(EndOf(b), StartOf(a)) else !Greater(EndOf(a), StartOf(b))
  {
    SortPair(a, b);
    if StartsAfter(a, b) {
      AdjacentPair(b, a);
    } else {
      AdjacentPair(a, b);
    }
    InvertedPair(a, b);
  }

  lemma AdjacentPair(x: Period, y: Period)
    ensures AnyAdjacentOverlap([x, y]) <==> Greater(EndOf(x), StartOf(y))
  {
    assert OverlapsNext([x, y], 0) <==> Greater(EndOf(x), StartOf(y));
  }

  lemma InvertedPair(a: Period, b: Period)
    ensures AnyInverted([a, b]) <==> IsInverted(a) || IsInverted(b)
  {
    assert [a, b][0] == a && [a, b][1] == b;
  }

  /** Two periods are swapped exactly when the first starts after the second. */
  lemma SortPair(a: Period, b: Period)
    ensures SortByStart([a, b]) == if StartsAfter(a, b) then [b, a] else [a, b]
  {
    assert [a, b][..1] == [a];
    assert SortByStart([a]) == [a];
    assert SortByStart([a, b]) == InsertByStart([a], b);
    if StartsAfter(a, b) {
      assert InsertByStart([a], b) == InsertByStart([], b) + [a];
    }
  }

  /** Periods that only touch are accepted: the comparison is a strict `>`. */
  lemma TouchingPeriodsAccepted()
    ensures PeriodsAccepted([Period(None, Clock(9, 0), Clock(12, 0), ""),
                             Period(None, Clock(12, 0), Clock(13, 0), "")])
  {
    MinutesOf(9, 0); MinutesOf(12, 0); MinutesOf(13, 0);
    PairAccepted(Period(None, Clock(9, 0), Clock(12, 0), ""), Period(None, Clock(12, 0), Clock(13, 0), ""));
  }

  /** 09:00-13:00 and 12:00-17:00 share an hour and are rejected as overlapping. */
  lemma OverlappingPeriodsRejected()
    ensures !PeriodsAccepted([Period(None, Clock(9, 0), Clock(13, 0), ""),
                              Period(None, Clock(12, 0), Clock(17, 0), "")])
  {
    MinutesOf(9, 0); MinutesOf(12, 0); MinutesOf(13, 0); MinutesOf(17, 0);
    PairAccepted(Period(None, Clock(9, 0), Clock(13, 0), ""), Period(None, Clock(12, 0), Clock(17, 0), ""));
  }

  /**
   * An empty period placed at the start of another is accepted or rejected depending on
   * the order of submission, because the stable sort keeps equal starts in input order.
   */
  lemma EmptyPeriodOrderMatters()
    ensures PeriodsAccepted([Period(None, Clock(10, 0), Clock(10, 0), ""),
                             Period(None, Clock(10, 0), Clock(12, 0), "")])
    ensures !PeriodsAccepted([Period(None, Clock(10, 0), Clock(12, 0), ""),
                              Period(None, Clock(10, 0), Clock(10, 0), "")])
  {
    MinutesOf(10, 0); MinutesOf(12, 0);
    var e, f := Period(None, Clock(10, 0), Clock(10, 0), ""), Period(None, Clock(10, 0), Clock(12, 0), "");
    PairAccepted(e, f);
    PairAccepted(f, e);
  }
}
