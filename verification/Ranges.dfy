/**
 * Byte ranges (sections 14.1.2 and 14.2 of RFC 9110): what a Range request
 * means, when the server refuses it, and how it merges what it accepts.
 */
module Ranges {

  const RANGE_MAX_COUNT := 1024

  /** A range as parsed: -1 stands for an absent end. */
  datatype Range = Range(first: int, last: int)

  /** The same range with its ends replaced by positions, as range_error does in place. */
  function Normal(r: Range, len: nat): Range {
    var r := if r == Range(-1, -1) then Range(0, len) else r;
    var r := if r.first == -1 then Range(len - r.last, len - 1) else r;
    if r.last == -1 || r.last >= len then r.(last := len - 1) else r
  }

  predicate InBounds(r: Range, len: nat) {
    0 <= r.first <= r.last <= len - 1
  }

  /** The byte positions a range asks for, in a representation of `len` bytes. */
  predicate AsksFor(r: Range, len: nat, p: int) {
    0 <= p < len &&
    if r.first == -1 && r.last == -1 then true
    else if r.first == -1 then len - r.last <= p
    else r.first <= p && (r.last == -1 || p <= r.last)
  }

  lemma NormalKeepsMeaning(r: Range, len: nat, p: int)
    requires InBounds(Normal(r, len), len)
    ensures AsksFor(r, len, p) <==> Holds(Normal(r, len), p)
  {
  }

  lemma NormalTwice(r: Range, len: nat)
    requires InBounds(r, len)
    ensures Normal(r, len) == r
  {
  }

  function AllNormal(rs: seq<Range>, len: nat): seq<Range> {
    seq(|rs|, i requires 0 <= i < |rs| => Normal(rs[i], len))
  }

  predicate AllInBounds(rs: seq<Range>, len: nat) {
    forall i :: 0 <= i < |rs| ==> InBounds(rs[i], len)
  }

  predicate Overlap(a: Range, b: Range) {
    !(a.last < b.first || a.first > b.last)
  }

  predicate OverlapsEarlier(rs: seq<Range>, i: nat)
    requires i < |rs|
  {
    exists j :: 0 <= j < i && Overlap(rs[i], rs[j])
  }

  /** How many of the first `n` ranges overlap an earlier one. */
  function Overlapping(rs: seq<Range>, n: nat): (c: nat)
    requires n <= |rs|
    ensures c <= n
  {
    if n == 0 then 0 else Overlapping(rs, n - 1) + (if OverlapsEarlier(rs, n - 1) then 1 else 0)
  }

  /** When a request is refused: too many ranges, one out of bounds, or more than two overlapping ones. */
  predicate Refused(rs: seq<Range>, len: nat) {
    var ns := AllNormal(rs, len);
    |rs| > RANGE_MAX_COUNT || !AllInBounds(ns, len) || Overlapping(ns, |ns|) > 2
  }

  predicate Holds(r: Range, p: int) {
    r.first <= p <= r.last
  }

  predicate Covers(rs: seq<Range>, p: int) {
    exists i :: 0 <= i < |rs| && Holds(rs[i], p)
  }

  function Length(r: Range): int {
    r.last - r.first + 1
  }

  function Total(rs: seq<Range>): int {
    if rs == [] then 0 else Total(rs[..|rs| - 1]) + Length(rs[|rs| - 1])
  }

  predicate Sorted(rs: seq<Range>) {
    forall i, j :: 0 <= i < j < |rs| ==> rs[i].first <= rs[j].first
  }

  predicate Gapped(rs: seq<Range>) {
    forall i, j :: 0 <= i < j < |rs| ==> rs[i].last + 1 < rs[j].first
  }

  ghost predicate Distinct(rs: seq<Range>) {
    forall r :: multiset(rs)[r] <= 1
  }

  // -------------------------------------------------------------- refusals

  /** Two ranges overlap when some position is in both. */
  lemma OverlapIsShared(a: Range, b: Range)
    requires a.first <= a.last && b.first <= b.last
    ensures Overlap(a, b) <==> exists p :: Holds(a, p) && Holds(b, p)
  {
    if Overlap(a, b) {
      var p := if a.first < b.first then b.first else a.first;
      assert Holds(a, p) && Holds(b, p);
    }
  }

  /** A range that can be served, by its ends as they were sent. */
  predicate Satisfiable(r: Range, len: nat) {
    if r.first == -1 && r.last == -1 then len > 0
    else if r.first == -1 then 1 <= r.last <= len
    else 0 <= r.first < len && (r.last == -1 || r.first <= r.last)
  }

  lemma SatisfiableExactly(r: Range, len: nat)
    ensures InBounds(Normal(r, len), len) <==> Satisfiable(r, len)
  {
  }

  /** Range `i` asks for a position some earlier range asks for. */
  ghost predicate AsksAgain(rs: seq<Range>, len: nat, i: nat)
    requires i < |rs|
  {
    exists j, p :: 0 <= j < i && AsksFor(rs[i], len, p) && AsksFor(rs[j], len, p)
  }

  ghost function AskingAgain(rs: seq<Range>, len: nat): set<nat> {
    set i: nat | i < |rs| && AsksAgain(rs, len, i)
  }

  function Overlappers(rs: seq<Range>, n: nat): set<nat>
    requires n <= |rs|
  {
    set i: nat | i < n && OverlapsEarlier(rs, i)
  }

  lemma {:induction false} OverlappingCounts(rs: seq<Range>, n: nat)
    requires n <= |rs|
    ensures Overlapping(rs, n) == |Overlappers(rs, n)|
  {
    if n > 0 {
      OverlappingCounts(rs, n - 1);
      var before := Overlappers(rs, n - 1);
      if OverlapsEarlier(rs, n - 1) {
        assert Overlappers(rs, n) == before + {n - 1};
      } else {
        assert Overlappers(rs, n) == before;
      }
    }
  }

  lemma OverlapAsks(a: Range, b: Range, len: nat)
    requires Satisfiable(a, len) && Satisfiable(b, len)
    ensures Overlap(Normal(a, len), Normal(b, len)) <==> exists p :: AsksFor(a, len, p) && AsksFor(b, len, p)
  {
    SatisfiableExactly(a, len);
    SatisfiableExactly(b, len);
    OverlapIsShared(Normal(a, len), Normal(b, len));
    forall p
      ensures AsksFor(a, len, p) <==> Holds(Normal(a, len), p)
      ensures AsksFor(b, len, p) <==> Holds(Normal(b, len), p)
    {
      NormalKeepsMeaning(a, len, p);
      NormalKeepsMeaning(b, len, p);
    }
  }

  lemma OverlapsAsAsked(rs: seq<Range>, len: nat, i: nat)
    requires i < |rs| && forall j :: 0 <= j < |rs| ==> Satisfiable(rs[j], len)
    ensures OverlapsEarlier(AllNormal(rs, len), i) <==> AsksAgain(rs, len, i)
  {
    forall j | 0 <= j < i
      ensures Overlap(AllNormal(rs, len)[i], AllNormal(rs, len)[j])
              <==> exists p :: AsksFor(rs[i], len, p) && AsksFor(rs[j], len, p)
    {
      OverlapAsks(rs[i], rs[j], len);
    }
  }

  /**
   * A request is refused exactly when it has more than 1024 ranges, one that
   * cannot be served, or more than two that ask again for what was asked for.
   */
  lemma RefusedExactly(rs: seq<Range>, len: nat)
    ensures Refused(rs, len) <==>
            || |rs| > 1024
            || (exists i :: 0 <= i < |rs| && !Satisfiable(rs[i], len))
            || |AskingAgain(rs, len)| > 2
  {
    var ns := AllNormal(rs, len);
    forall i | 0 <= i < |rs| ensures InBounds(ns[i], len) <==> Satisfiable(rs[i], len) {
      SatisfiableExactly(rs[i], len);
    }
    if forall i :: 0 <= i < |rs| ==> Satisfiable(rs[i], len) {
      OverlappingCounts(ns, |ns|);
      forall i: nat | i < |rs| ensures OverlapsEarlier(ns, i) <==> AsksAgain(rs, len, i) {
        OverlapsAsAsked(rs, len, i);
      }
      assert Overlappers(ns, |ns|) == AskingAgain(rs, len);
    } else {
      assert !AllInBounds(ns, len);
    }
  }

  // ------------------------------------------------------------ coalescing

  /** Extends the last range if `r` overlaps or touches it, but keeps a repeated range apart. */
  function Merge(acc: seq<Range>, r: Range): seq<Range> {
    if acc == [] then [r]
    else
      var prev := acc[|acc| - 1];
      if r.first <= prev.last + 1 && r != prev
      then acc[..|acc| - 1] + [prev.(last := if prev.last < r.last then r.last else prev.last)]
      else acc + [r]
  }

  /** The merging pass over a list in sorted order. */
  function Coalesced(rs: seq<Range>, len: nat): seq<Range> {
    if rs == [] then []
    else
      var acc := Coalesced(rs[..|rs| - 1], len);
      var r := Normal(rs[|rs| - 1], len);
      if InBounds(r, len) then Merge(acc, r) else acc
  }

  /** What the merging pass keeps to, having read `rs` and built `acc`. */
  ghost predicate Follows(acc: seq<Range>, rs: seq<Range>, len: nat) {
    && AllInBounds(acc, len) && Sorted(acc) && Total(acc) <= Total(rs)
    && (rs != [] ==> acc != [] && acc[|acc| - 1].first <= rs[|rs| - 1].first)
    && (rs == [] ==> acc == [])
    && (forall p :: Covers(acc, p) <==> Covers(rs, p))
  }

  lemma CoversSnoc(rs: seq<Range>, r: Range)
    ensures forall p :: Covers(rs + [r], p) <==> Covers(rs, p) || Holds(r, p)
  {
    var all := rs + [r];
    forall p ensures Covers(all, p) <==> Covers(rs, p) || Holds(r, p) {
      if Covers(rs, p) {
        var i :| 0 <= i < |rs| && Holds(rs[i], p);
        assert all[i] == rs[i];
      }
      if Holds(r, p) {
        assert all[|rs|] == r;
      }
    }
  }

  lemma TotalSnoc(rs: seq<Range>, r: Range)
    ensures Total(rs + [r]) == Total(rs) + Length(r)
  {
    assert (rs + [r])[..|rs|] == rs;
  }

  lemma MergeAdds(acc: seq<Range>, rs: seq<Range>, r: Range, len: nat)
    requires Follows(acc, rs, len) && InBounds(r, len) && (rs != [] ==> rs[|rs| - 1].first <= r.first)
    ensures Follows(acc + [r], rs + [r], len)
  {
    CoversSnoc(rs, r);
    TotalSnoc(rs, r);
    CoversSnoc(acc, r);
    TotalSnoc(acc, r);
  }

  lemma WidenCovers(head: seq<Range>, prev: Range, r: Range, last: int, p: int)
    requires prev.first <= r.first <= prev.last + 1 && last == (if prev.last < r.last then r.last else prev.last)
    ensures Covers(head + [prev.(last := last)], p) <==> Covers(head + [prev], p) || Holds(r, p)
  {
    CoversSnoc(head, prev);
    CoversSnoc(head, prev.(last := last));
  }

  lemma MergeWidens(acc: seq<Range>, rs: seq<Range>, r: Range, len: nat)
    requires Follows(acc, rs, len) && InBounds(r, len) && rs != [] && rs[|rs| - 1].first <= r.first
    requires r.first <= acc[|acc| - 1].last + 1 && r != acc[|acc| - 1]
    ensures Follows(Merge(acc, r), rs + [r], len)
  {
    var head, prev := acc[..|acc| - 1], acc[|acc| - 1];
    var last := if prev.last < r.last then r.last else prev.last;
    assert acc == head + [prev];
    CoversSnoc(rs, r);
    TotalSnoc(rs, r);
    TotalSnoc(head, prev);
    TotalSnoc(head, prev.(last := last));
    forall p ensures Covers(Merge(acc, r), p) <==> Covers(rs + [r], p) {
      WidenCovers(head, prev, r, last, p);
    }
  }

  lemma {:induction false} CoalescedFollows(rs: seq<Range>, len: nat)
    requires Sorted(rs) && AllInBounds(rs, len)
    ensures Follows(Coalesced(rs, len), rs, len)
    decreases |rs|
  {
    if rs != [] {
      var before, r := rs[..|rs| - 1], rs[|rs| - 1];
      assert rs == before + [r];
      CoalescedFollows(before, len);
      NormalTwice(r, len);
      var acc := Coalesced(before, len);
      if acc != [] && r.first <= acc[|acc| - 1].last + 1 && r != acc[|acc| - 1] {
        MergeWidens(acc, before, r, len);
      } else {
        MergeAdds(acc, before, r, len);
      }
    }
  }

  /** The last range built ends where some range read so far ends. */
  ghost predicate EndsLikeSome(acc: seq<Range>, rs: seq<Range>) {
    acc == [] || exists j :: 0 <= j < |rs| && rs[j].last == acc[|acc| - 1].last && acc[|acc| - 1].first <= rs[j].first
  }

  /** Repeated ranges do no harm when another range covers the position in front of them. */
  predicate GapSafe(rs: seq<Range>) {
    forall i :: 0 <= i < |rs| && multiset(rs)[rs[i]] >= 2 ==> Covers(rs, rs[i].first - 1)
  }

  lemma DistinctIsSafe(rs: seq<Range>)
    requires Distinct(rs)
    ensures GapSafe(rs)
  {
    forall i | 0 <= i < |rs| ensures multiset(rs)[rs[i]] < 2 {
      assert multiset(rs)[rs[i]] <= 1;
    }
  }

  /** A range equal to the last one built cannot have anything in front of it covered. */
  lemma NotTheLast(acc: seq<Range>, rs: seq<Range>, r: Range, len: nat)
    requires Follows(acc, rs, len) && Gapped(acc) && acc != [] && Covers(rs, r.first - 1)
    ensures r != acc[|acc| - 1]
  {
    assert Covers(acc, r.first - 1);
    var i :| 0 <= i < |acc| && Holds(acc[i], r.first - 1);
    assert i < |acc| - 1 ==> acc[i].last + 1 < acc[|acc| - 1].first;
  }

  lemma MergeStaysGapped(acc: seq<Range>, r: Range)
    requires Gapped(acc) && (acc != [] ==> r != acc[|acc| - 1])
    requires forall i :: 0 <= i < |acc| ==> acc[i].first <= acc[i].last
    ensures Gapped(Merge(acc, r))
  {
    if acc != [] {
      var prev := acc[|acc| - 1];
      assert forall i :: 0 <= i < |acc| - 1 ==> acc[i].last + 1 < prev.first;
    }
  }

  lemma MergeEndsLikeSome(acc: seq<Range>, rs: seq<Range>, r: Range)
    requires EndsLikeSome(acc, rs) && (acc != [] ==> acc[|acc| - 1].first <= r.first)
    ensures EndsLikeSome(Merge(acc, r), rs + [r])
  {
    var all, out := rs + [r], Merge(acc, r);
    if out[|out| - 1].last == r.last {
      assert all[|rs|] == r;
    } else {
      var j :| 0 <= j < |rs| && rs[j].last == acc[|acc| - 1].last && acc[|acc| - 1].first <= rs[j].first;
      assert all[j] == rs[j];
    }
  }

  lemma MergeKeepsGaps(acc: seq<Range>, rs: seq<Range>, r: Range, len: nat)
    requires Follows(acc, rs, len) && Gapped(acc) && EndsLikeSome(acc, rs)
    requires Sorted(rs + [r]) && InBounds(r, len) && (r in rs ==> Covers(rs, r.first - 1))
    ensures Gapped(Merge(acc, r)) && EndsLikeSome(Merge(acc, r), rs + [r])
  {
    var all := rs + [r];
    assert all[|rs|] == r;
    if acc != [] {
      var prev := acc[|acc| - 1];
      var j :| 0 <= j < |rs| && rs[j].last == prev.last && prev.first <= rs[j].first;
      assert all[j] == rs[j] && rs[j] in rs && rs[j].first <= r.first;
      if r in rs {
        NotTheLast(acc, rs, r, len);
      }
      assert r != prev;
    }
    MergeStaysGapped(acc, r);
    MergeEndsLikeSome(acc, rs, r);
  }

  lemma OccursTwice(rs: seq<Range>, n: nat)
    requires n < |rs| && rs[n] in rs[..n]
    ensures multiset(rs)[rs[n]] >= 2
  {
    assert rs == rs[..n] + [rs[n]] + rs[n + 1..];
    assert rs[n] in multiset(rs[..n]);
  }

  /** Whatever covers the position in front of a range stands before it in sorted order. */
  lemma CoveredBefore(rs: seq<Range>, n: nat)
    requires Sorted(rs) && GapSafe(rs) && n < |rs| && rs[n] in rs[..n]
    ensures Covers(rs[..n], rs[n].first - 1)
  {
    var r := rs[n];
    OccursTwice(rs, n);
    var i :| 0 <= i < |rs| && Holds(rs[i], r.first - 1);
    assert i < n;
    assert rs[..n][i] == rs[i];
  }

  lemma SortedTake(rs: seq<Range>, n: nat, len: nat)
    requires Sorted(rs) && AllInBounds(rs, len) && n <= |rs|
    ensures Sorted(rs[..n]) && AllInBounds(rs[..n], len)
  {
  }

  lemma CoalescedSnoc(rs: seq<Range>, r: Range, len: nat)
    requires InBounds(r, len)
    ensures Coalesced(rs + [r], len) == Merge(Coalesced(rs, len), r)
  {
    NormalTwice(r, len);
    assert (rs + [r])[..|rs|] == rs;
  }

  lemma GapStep(before: seq<Range>, r: Range, len: nat)
    requires Sorted(before + [r]) && AllInBounds(before, len) && InBounds(r, len)
    requires Gapped(Coalesced(before, len)) && EndsLikeSome(Coalesced(before, len), before)
    requires r in before ==> Covers(before, r.first - 1)
    ensures Gapped(Coalesced(before + [r], len)) && EndsLikeSome(Coalesced(before + [r], len), before + [r])
  {
    SortedInit(before, r);
    CoalescedFollows(before, len);
    CoalescedSnoc(before, r, len);
    MergeKeepsGaps(Coalesced(before, len), before, r, len);
  }

  lemma SortedInit(before: seq<Range>, r: Range)
    requires Sorted(before + [r])
    ensures Sorted(before)
  {
    var all := before + [r];
    assert forall i :: 0 <= i < |before| ==> all[i] == before[i];
  }

  /** What the merging pass meets next, in a sorted list. */
  lemma NextInOrder(rs: seq<Range>, len: nat, n: nat) returns (before: seq<Range>, r: Range)
    requires Sorted(rs) && AllInBounds(rs, len) && GapSafe(rs) && 0 < n <= |rs|
    ensures before == rs[..n - 1] && rs[..n] == before + [r]
    ensures Sorted(before + [r]) && AllInBounds(before, len) && InBounds(r, len)
    ensures r in before ==> Covers(before, r.first - 1)
  {
    before, r := rs[..n - 1], rs[n - 1];
    SortedTake(rs, n, len);
    SortedTake(rs, n - 1, len);
    assert rs[..n] == before + [r];
    if r in before {
      CoveredBefore(rs, n - 1);
    }
  }

  /** Without harmful repetitions the result has a real gap between neighbours. */
  lemma {:induction false} CoalescedIsGapped(rs: seq<Range>, len: nat, n: nat)
    requires Sorted(rs) && AllInBounds(rs, len) && GapSafe(rs) && n <= |rs|
    ensures Gapped(Coalesced(rs[..n], len)) && EndsLikeSome(Coalesced(rs[..n], len), rs[..n])
  {
    if n > 0 {
      var before, r := NextInOrder(rs, len, n);
      CoalescedIsGapped(rs, len, n - 1);
      GapStep(before, r, len);
    }
  }

  // ------------------------------------------------------------ cost bound

  function Positions(r: Range): set<int> {
    set p | r.first <= p <= r.last && Holds(r, p)
  }

  lemma {:induction false} PositionsSize(r: Range)
    requires r.first <= r.last + 1
    ensures |Positions(r)| == Length(r)
    decreases r.last - r.first + 1
  {
    if r.first > r.last {
      assert Positions(r) == {};
    } else {
      PositionsSize(r.(last := r.last - 1));
      assert Positions(r) == Positions(r.(last := r.last - 1)) + {r.last};
    }
  }

  /** The positions of those among the first `n` ranges that overlap no earlier one. */
  function Fresh(rs: seq<Range>, n: nat): set<int>
    requires n <= |rs|
  {
    if n == 0 then {}
    else Fresh(rs, n - 1) + (if OverlapsEarlier(rs, n - 1) then {} else Positions(rs[n - 1]))
  }

  lemma {:induction false} FreshComesFrom(rs: seq<Range>, n: nat, p: int)
    requires n <= |rs| && p in Fresh(rs, n)
    ensures exists j :: 0 <= j < n && Holds(rs[j], p)
  {
    if p in Fresh(rs, n - 1) {
      FreshComesFrom(rs, n - 1, p);
    }
  }

  lemma FreshIsDisjoint(rs: seq<Range>, n: nat)
    requires 0 < n <= |rs| && !OverlapsEarlier(rs, n - 1)
    ensures Fresh(rs, n - 1) !! Positions(rs[n - 1])
  {
    var before, r := Fresh(rs, n - 1), Positions(rs[n - 1]);
    forall p | p in before ensures p !in r {
      FreshComesFrom(rs, n - 1, p);
      var j :| 0 <= j < n - 1 && Holds(rs[j], p);
      assert !Overlap(rs[n - 1], rs[j]);
    }
  }

  function Times(c: nat, len: nat): nat {
    if c == 0 then 0 else Times(c - 1, len) + len
  }

  lemma FreshSize(rs: seq<Range>, len: nat, n: nat)
    requires AllInBounds(rs, len) && 0 < n <= |rs|
    ensures |Fresh(rs, n)| == |Fresh(rs, n - 1)| + if OverlapsEarlier(rs, n - 1) then 0 else Length(rs[n - 1])
  {
    if OverlapsEarlier(rs, n - 1) {
      assert Fresh(rs, n) == Fresh(rs, n - 1);
    } else {
      assert InBounds(rs[n - 1], len);
      PositionsSize(rs[n - 1]);
      FreshIsDisjoint(rs, n);
    }
  }

  lemma TotalStep(rs: seq<Range>, n: nat)
    requires 0 < n <= |rs|
    ensures Total(rs[..n]) == Total(rs[..n - 1]) + Length(rs[n - 1])
  {
    assert rs[..n] == rs[..n - 1] + [rs[n - 1]];
    TotalSnoc(rs[..n - 1], rs[n - 1]);
  }

  /** Fresh ranges are disjoint, so their lengths add up to the positions they cover. */
  lemma {:induction false} TotalOfPrefix(rs: seq<Range>, len: nat, n: nat)
    requires AllInBounds(rs, len) && n <= |rs|
    ensures Total(rs[..n]) <= |Fresh(rs, n)| + Times(Overlapping(rs, n), len)
  {
    if n > 0 {
      TotalOfPrefix(rs, len, n - 1);
      TotalStep(rs, n);
      FreshSize(rs, len, n);
      assert InBounds(rs[n - 1], len);
    }
  }

  lemma FreshInBounds(rs: seq<Range>, len: nat)
    requires AllInBounds(rs, len)
    ensures forall p :: p in Fresh(rs, |rs|) ==> 0 <= p < len
  {
    var all := Fresh(rs, |rs|);
    forall p | p in all ensures 0 <= p < len {
      FreshComesFrom(rs, |rs|, p);
    }
  }

  lemma AtMostAll(s: set<int>, len: nat)
    requires forall p :: p in s ==> 0 <= p < len
    ensures |s| <= len
  {
    var all := Positions(Range(0, len - 1));
    PositionsSize(Range(0, len - 1));
    assert s <= all;
    SubsetSize(s, all);
  }

  lemma SubsetSize(a: set<int>, b: set<int>)
    requires a <= b
    ensures |a| <= |b|
  {
    assert b == a + (b - a);
  }

  /** What an accepted request can cost: three times the content, whatever its ranges. */
  lemma CostBound(rs: seq<Range>, len: nat)
    requires AllInBounds(rs, len) && Overlapping(rs, |rs|) <= 2
    ensures Total(rs) <= 3 * len
  {
    TotalOfPrefix(rs, len, |rs|);
    assert rs[..|rs|] == rs;
    FreshInBounds(rs, len);
    AtMostAll(Fresh(rs, |rs|), len);
    TwiceAtMost(Overlapping(rs, |rs|), len);
  }

  lemma TwiceAtMost(c: nat, len: nat)
    requires c <= 2
    ensures Times(c, len) <= len + len
  {
    assert Times(0, len) == 0 && Times(1, len) == len && Times(2, len) == len + len;
  }

  /** The bound is met: the whole content asked for three times is accepted. */
  lemma CostBoundIsTight(len: nat)
    requires len > 0
    ensures var rs := [Range(-1, -1), Range(0, -1), Range(0, len)];
            !Refused(rs, len) && Total(AllNormal(rs, len)) == 3 * len
  {
    var rs := [Range(-1, -1), Range(0, -1), Range(0, len)];
    var whole := Range(0, len - 1);
    var ns := AllNormal(rs, len);
    assert ns == [whole, whole, whole];
    assert Overlapping(ns, 1) == 0;
    assert Overlapping(ns, 3) <= Overlapping(ns, 2) + 1 <= Overlapping(ns, 1) + 2;
    TotalStep(ns, 1);
    TotalStep(ns, 2);
    TotalStep(ns, 3);
    assert ns[..0] == [] && ns[..3] == ns;
  }
}
