/** Exactly when merging leaves a gap between neighbours: repeated ranges, and equal starts in any order. */
module RangeGaps {
  import opened Ranges
  import opened RangeRequests

  // ------------------------------------------------------- sorted orders

  lemma SortedSnoc(rs: seq<Range>, r: Range)
    requires Sorted(rs) && (rs == [] || rs[|rs| - 1].first <= r.first)
    ensures Sorted(rs + [r])
  {
    forall i | 0 <= i < |rs| ensures rs[i].first <= r.first {
      assert i < |rs| - 1 ==> rs[i].first <= rs[|rs| - 1].first;
    }
  }

  lemma {:induction false} InsertInOrder(rs: seq<Range>, r: Range) returns (out: seq<Range>)
    requires Sorted(rs)
    ensures Sorted(out) && multiset(out) == multiset(rs) + multiset{r}
    ensures out != [] && (out[|out| - 1] == r || (rs != [] && out[|out| - 1] == rs[|rs| - 1]))
    decreases |rs|
  {
    if rs == [] || rs[|rs| - 1].first <= r.first {
      SortedSnoc(rs, r);
      out := rs + [r];
    } else {
      var init, last := rs[..|rs| - 1], rs[|rs| - 1];
      assert rs == init + [last];
      SortedInit(init, last);
      var inserted := InsertInOrder(init, r);
      assert inserted[|inserted| - 1].first <= last.first;
      SortedSnoc(inserted, last);
      out := inserted + [last];
    }
  }

  lemma {:induction false} SomeOrder(rs: seq<Range>) returns (sorted: seq<Range>)
    ensures SortsTo(rs, sorted)
    decreases |rs|
  {
    if rs == [] {
      sorted := [];
    } else {
      var init, last := rs[..|rs| - 1], rs[|rs| - 1];
      assert rs == init + [last];
      var before := SomeOrder(init);
      sorted := InsertInOrder(before, last);
    }
  }

  /** Where the ranges that start at `first` or later begin. */
  lemma {:induction false} StartsAt(rs: seq<Range>, first: int) returns (k: nat)
    requires Sorted(rs)
    ensures k <= |rs| && (forall i :: 0 <= i < k ==> rs[i].first < first)
    ensures forall i :: k <= i < |rs| ==> rs[i].first >= first
    decreases |rs|
  {
    if rs == [] || rs[|rs| - 1].first < first {
      k := |rs|;
    } else {
      k := StartsAt(rs[..|rs| - 1], first);
    }
  }

  lemma TakeOutSorted(rs: seq<Range>, r: Range) returns (rest: seq<Range>)
    requires Sorted(rs) && r in multiset(rs)
    ensures Sorted(rest) && multiset(rest) == multiset(rs) - multiset{r}
  {
    var k :| 0 <= k < |rs| && rs[k] == r;
    TakeOut(rs, k);
    rest := rs[..k] + rs[k + 1..];
  }

  /** An order in which two occurrences of `r` come first among the ranges with its start. */
  lemma TwiceFirst(ns: seq<Range>, r: Range) returns (head: seq<Range>, tail: seq<Range>)
    requires multiset(ns)[r] >= 2
    ensures SortsTo(ns, head + [r] + [r] + tail) && forall i :: 0 <= i < |head| ==> head[i].first < r.first
  {
    var sorted := SomeOrder(ns);
    var k := StartsAt(sorted, r.first);
    head := sorted[..k];
    var later := sorted[k..];
    assert sorted == head + later;
    assert r !in multiset(head);
    assert multiset(later)[r] >= 2;
    var once := TakeOutSorted(later, r);
    tail := TakeOutSorted(once, r);
    InOneList(sorted, head, r, tail, k);
  }

  lemma SortedConcat(a: seq<Range>, b: seq<Range>, first: int)
    requires Sorted(a) && Sorted(b)
    requires (forall i :: 0 <= i < |a| ==> a[i].first <= first) && forall i :: 0 <= i < |b| ==> b[i].first >= first
    ensures Sorted(a + b)
  {
  }

  lemma InOneList(sorted: seq<Range>, head: seq<Range>, r: Range, tail: seq<Range>, k: nat)
    requires Sorted(sorted) && k <= |sorted| && head == sorted[..k] && Sorted(tail)
    requires forall i :: 0 <= i < k ==> sorted[i].first < r.first
    requires forall i :: k <= i < |sorted| ==> sorted[i].first >= r.first
    requires multiset(tail) == multiset(sorted[k..]) - multiset{r} - multiset{r} && multiset(sorted[k..])[r] >= 2
    ensures SortsTo(sorted, head + [r] + [r] + tail)
  {
    var later := sorted[k..];
    assert sorted == head + later;
    forall i | 0 <= i < |tail| ensures tail[i].first >= r.first {
      assert tail[i] in multiset(tail);
      assert tail[i] in multiset(later);
    }
    SortedConcat(head, [r], r.first);
    SortedConcat(head + [r], [r], r.first);
    SortedConcat(head + [r] + [r], tail, r.first);
    SameElements(head, later, r, tail);
  }

  lemma SameElements(head: seq<Range>, later: seq<Range>, r: Range, tail: seq<Range>)
    requires multiset(tail) == multiset(later) - multiset{r} - multiset{r} && multiset(later)[r] >= 2
    ensures multiset(head + [r] + [r] + tail) == multiset(head + later)
  {
    assert multiset(later) == multiset(tail) + multiset{r} + multiset{r};
  }

  // -------------------------------------------------- repetitions that show

  /** What is read later changes at most the end of the last range built. */
  lemma {:induction false} LaterRanges(rs: seq<Range>, more: seq<Range>, len: nat)
    requires Coalesced(rs, len) != []
    ensures var acc, out := Coalesced(rs, len), Coalesced(rs + more, len);
            && |acc| <= |out| && out[..|acc| - 1] == acc[..|acc| - 1]
            && out[|acc| - 1].first == acc[|acc| - 1].first
    decreases |more|
  {
    if more == [] {
      assert rs + more == rs;
    } else {
      var init := more[..|more| - 1];
      assert (rs + more)[..|rs + more| - 1] == rs + init;
      LaterRanges(rs, init, len);
    }
  }

  lemma NothingTouches(head: seq<Range>, r: Range, len: nat)
    requires Sorted(head) && AllInBounds(head, len) && InBounds(r, len) && !Covers(head, r.first - 1)
    requires forall i :: 0 <= i < |head| ==> head[i].first < r.first
    ensures Coalesced(head + [r] + [r], len) == Coalesced(head, len) + [r] + [r]
  {
    var acc := Coalesced(head, len);
    CoalescedFollows(head, len);
    CoalescedSnoc(head, r, len);
    CoalescedSnoc(head + [r], r, len);
    if acc != [] {
      var prev := acc[|acc| - 1];
      assert !Covers(acc, r.first - 1) && !Holds(prev, r.first - 1);
      assert prev.first < r.first;
    } else {
      assert acc + [r] == [r];
    }
  }

  lemma FreeOnItsLeft(ns: seq<Range>, sorted: seq<Range>, len: nat, r: Range, head: seq<Range>, more: seq<Range>)
    requires AllInBounds(ns, len) && !Covers(ns, r.first - 1) && SortsTo(ns, sorted)
    requires sorted == head + more && more != [] && more[0] == r
    ensures Sorted(head) && AllInBounds(head, len) && InBounds(r, len) && !Covers(head, r.first - 1)
  {
    MeaningOfPermutation(ns, sorted, len);
    MeaningOfPermutation(sorted, ns, len);
    assert sorted[|head|] == r;
    HeadOf(head, more, len);
  }

  lemma StaysApart(head: seq<Range>, r: Range, tail: seq<Range>, len: nat)
    requires Sorted(head) && AllInBounds(head, len) && InBounds(r, len) && !Covers(head, r.first - 1)
    requires forall i :: 0 <= i < |head| ==> head[i].first < r.first
    ensures !Gapped(Coalesced(head + [r] + [r] + tail, len))
  {
    NothingTouches(head, r, len);
    LaterRanges(head + [r] + [r], tail, len);
    TwoAlike(Coalesced(head + [r] + [r] + tail, len), Coalesced(head, len), r);
  }

  /** An order with two of `r` in front, and nothing that touches them, leaves them apart. */
  lemma ShownInOrder(ns: seq<Range>, sorted: seq<Range>, len: nat, r: Range, head: seq<Range>, tail: seq<Range>)
    requires AllInBounds(ns, len) && |ns| > 1 && !Covers(ns, r.first - 1)
    requires SortsTo(ns, sorted) && sorted == head + [r] + [r] + tail
    requires forall i :: 0 <= i < |head| ==> head[i].first < r.first
    ensures CoalescesTo(ns, Coalesced(sorted, len), len) && !Gapped(Coalesced(sorted, len))
  {
    var more := [r] + [r] + tail;
    assert sorted == head + more;
    FreeOnItsLeft(ns, sorted, len, r, head, more);
    StaysApart(head, r, tail, len);
  }

  lemma RepetitionShows(ns: seq<Range>, len: nat, r: Range) returns (out: seq<Range>)
    requires AllInBounds(ns, len) && multiset(ns)[r] >= 2 && !Covers(ns, r.first - 1)
    ensures CoalescesTo(ns, out, len) && !Gapped(out)
  {
    assert |multiset(ns)| == |ns| >= 2;
    var head, tail := TwiceFirst(ns, r);
    var sorted := head + [r] + [r] + tail;
    ShownInOrder(ns, sorted, len, r, head, tail);
    out := Coalesced(sorted, len);
  }

  lemma HeadOf(head: seq<Range>, more: seq<Range>, len: nat)
    requires Sorted(head + more) && AllInBounds(head + more, len)
    ensures Sorted(head) && AllInBounds(head, len)
    ensures forall p :: Covers(head, p) ==> Covers(head + more, p)
  {
    var all := head + more;
    assert forall i :: 0 <= i < |head| ==> all[i] == head[i];
    forall p | Covers(head, p) ensures Covers(all, p) {
      var i :| 0 <= i < |head| && Holds(head[i], p);
      assert Holds(all[i], p);
    }
  }

  lemma TwoAlike(out: seq<Range>, acc: seq<Range>, r: Range)
    requires |acc| + 2 <= |out| && out[..|acc| + 1] == (acc + [r] + [r])[..|acc| + 1]
    requires out[|acc| + 1].first == r.first <= r.last
    ensures !Gapped(out)
  {
    assert out[|acc|] == out[..|acc| + 1][|acc|] == (acc + [r] + [r])[..|acc| + 1][|acc|] == r;
    assert out[|acc|].last + 1 > out[|acc| + 1].first;
  }

  /** Every result has its gaps exactly when no repeated range stands free on its left. */
  lemma GapsExactly(ns: seq<Range>, len: nat)
    requires AllInBounds(ns, len)
    ensures (forall out :: CoalescesTo(ns, out, len) ==> Gapped(out)) <==> GapSafe(ns)
  {
    if GapSafe(ns) {
      forall out | CoalescesTo(ns, out, len) ensures Gapped(out) {
        CoalescingLeavesGaps(ns, out, len);
      }
    } else {
      var i :| 0 <= i < |ns| && multiset(ns)[ns[i]] >= 2 && !Covers(ns, ns[i].first - 1);
      var out := RepetitionShows(ns, len, ns[i]);
      assert CoalescesTo(ns, out, len) && !Gapped(out);
    }
  }
}
