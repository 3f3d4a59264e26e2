/**
 * How the server treats the ranges of a request: range_error rewrites them in
 * place, refuses the request or merges what it keeps, and
 * get_range_offset_and_length turns each range into a slice of the body.
 */
module RangeRequests {
  import opened Ranges

  // ---------------------------------------------------------- permutations

  lemma {:induction false} TotalConcat(a: seq<Range>, b: seq<Range>)
    ensures Total(a + b) == Total(a) + Total(b)
    decreases |b|
  {
    if b == [] {
      assert a + b == a;
    } else {
      var init, r := b[..|b| - 1], b[|b| - 1];
      assert a + b == (a + init) + [r];
      TotalConcat(a, init);
      TotalSnoc(a + init, r);
    }
  }

  lemma TotalMiddle(head: seq<Range>, r: Range, tail: seq<Range>)
    ensures Total(head + [r] + tail) == Total(head + tail) + Length(r)
  {
    TotalConcat(head + [r], tail);
    TotalSnoc(head, r);
    TotalConcat(head, tail);
  }

  lemma TakeOut(b: seq<Range>, k: nat)
    requires k < |b|
    ensures b == b[..k] + [b[k]] + b[k + 1..]
    ensures multiset(b[..k] + b[k + 1..]) == multiset(b) - multiset{b[k]}
  {
    assert b == b[..k] + [b[k]] + b[k + 1..];
  }

  lemma TakenOut(b: seq<Range>, r: Range) returns (head: seq<Range>, tail: seq<Range>)
    requires r in multiset(b)
    ensures b == head + [r] + tail && multiset(head + tail) == multiset(b) - multiset{r}
  {
    var k :| 0 <= k < |b| && b[k] == r;
    TakeOut(b, k);
    head, tail := b[..k], b[k + 1..];
  }

  lemma {:induction false} TotalOfPermutation(a: seq<Range>, b: seq<Range>)
    requires multiset(a) == multiset(b)
    ensures Total(a) == Total(b)
    decreases |a|
  {
    if a == [] {
      assert |multiset(b)| == |b|;
    } else {
      var init, r := a[..|a| - 1], a[|a| - 1];
      assert a == init + [r];
      assert r in multiset(b);
      var head, tail := TakenOut(b, r);
      TotalMiddle(head, r, tail);
      TotalSnoc(init, r);
      TotalOfPermutation(init, head + tail);
    }
  }

  lemma MeaningOfPermutation(a: seq<Range>, b: seq<Range>, len: nat)
    requires multiset(a) == multiset(b)
    ensures AllInBounds(a, len) ==> AllInBounds(b, len)
    ensures forall p :: Covers(a, p) ==> Covers(b, p)
  {
    forall i | 0 <= i < |b| ensures b[i] in a {
      assert b[i] in multiset(a);
    }
    forall p | Covers(a, p) ensures Covers(b, p) {
      var i :| 0 <= i < |a| && Holds(a[i], p);
      assert a[i] in multiset(b);
      var j :| 0 <= j < |b| && b[j] == a[i];
      assert Holds(b[j], p);
    }
  }

  lemma GapSafeInAnyOrder(a: seq<Range>, b: seq<Range>, len: nat)
    requires multiset(a) == multiset(b) && GapSafe(a)
    ensures GapSafe(b)
  {
    MeaningOfPermutation(a, b, len);
    forall i | 0 <= i < |b| && multiset(b)[b[i]] >= 2 ensures Covers(b, b[i].first - 1) {
      assert b[i] in multiset(a);
      var j :| 0 <= j < |a| && a[j] == b[i];
      assert Covers(a, a[j].first - 1);
    }
  }

  // ------------------------------------------------------- the two passes

  ghost predicate SortsTo(rs: seq<Range>, sorted: seq<Range>) {
    Sorted(sorted) && multiset(sorted) == multiset(rs)
  }

  /** Two lists are related when coalescing may turn one into the other: equal starts sort in any order. */
  ghost predicate CoalescesTo(rs: seq<Range>, out: seq<Range>, len: nat) {
    if |rs| <= 1 then out == rs
    else exists sorted :: SortsTo(rs, sorted) && out == Coalesced(sorted, len)
  }

  lemma {:induction false} OverlappingGrows(rs: seq<Range>, m: nat, n: nat)
    requires m <= n <= |rs|
    ensures Overlapping(rs, m) <= Overlapping(rs, n)
    decreases n
  {
    if m < n {
      OverlappingGrows(rs, m, n - 1);
    }
  }

  lemma CoalescingKeepsMeaning(ns: seq<Range>, out: seq<Range>, len: nat)
    requires AllInBounds(ns, len) && CoalescesTo(ns, out, len)
    ensures AllInBounds(out, len) && Sorted(out) && Total(out) <= Total(ns)
    ensures forall p :: Covers(out, p) <==> Covers(ns, p)
  {
    if |ns| > 1 {
      var sorted :| SortsTo(ns, sorted) && out == Coalesced(sorted, len);
      MeaningOfPermutation(ns, sorted, len);
      MeaningOfPermutation(sorted, ns, len);
      TotalOfPermutation(ns, sorted);
      CoalescedFollows(sorted, len);
    }
  }

  lemma CoalescingLeavesGaps(ns: seq<Range>, out: seq<Range>, len: nat)
    requires AllInBounds(ns, len) && CoalescesTo(ns, out, len) && GapSafe(ns)
    ensures Gapped(out)
  {
    if |ns| > 1 {
      var sorted :| SortsTo(ns, sorted) && out == Coalesced(sorted, len);
      MeaningOfPermutation(ns, sorted, len);
      GapSafeInAnyOrder(ns, sorted, len);
      CoalescedIsGapped(sorted, len, |sorted|);
      assert sorted[..|sorted|] == sorted;
    }
  }

  /** What the ranges of an accepted request become. */
  lemma AcceptedRanges(raw: seq<Range>, out: seq<Range>, len: nat)
    requires !Refused(raw, len) && CoalescesTo(AllNormal(raw, len), out, len)
    ensures AllInBounds(out, len) && Sorted(out)
    ensures forall p :: Covers(out, p) <==> exists i :: 0 <= i < |raw| && AsksFor(raw[i], len, p)
    ensures Total(out) <= Total(AllNormal(raw, len)) <= 3 * len
    ensures GapSafe(AllNormal(raw, len)) ==> Gapped(out)
  {
    var ns := AllNormal(raw, len);
    CostBound(ns, len);
    CoalescingKeepsMeaning(ns, out, len);
    forall p ensures Covers(out, p) <==> exists i :: 0 <= i < |raw| && AsksFor(raw[i], len, p) {
      NormalRangesKeepMeaning(raw, len, p);
    }
    if GapSafe(ns) {
      CoalescingLeavesGaps(ns, out, len);
    }
  }

  lemma NormalRangesKeepMeaning(raw: seq<Range>, len: nat, p: int)
    requires AllInBounds(AllNormal(raw, len), len)
    ensures Covers(AllNormal(raw, len), p) <==> exists i :: 0 <= i < |raw| && AsksFor(raw[i], len, p)
  {
    var ns := AllNormal(raw, len);
    forall i | 0 <= i < |raw| ensures AsksFor(raw[i], len, p) <==> Holds(ns[i], p) {
      assert InBounds(ns[i], len);
      NormalKeepsMeaning(raw[i], len, p);
    }
  }

  /**
   * Coalescing alone, on ranges nobody normalised, sorts on the wrong starts: of
   * a suffix of `n` bytes and a range `a`-`b` it keeps the range exactly when the
   * suffix does not begin behind the range's start.
   */
  lemma CoalescingNeedsNormalRanges(n: nat, a: nat, b: nat, len: nat, out: seq<Range>)
    requires 1 <= n <= len && a <= b < len && CoalescesTo([Range(-1, n), Range(a, b)], out, len)
    ensures (forall p :: AsksFor(Range(a, b), len, p) ==> Covers(out, p)) <==> len - n <= a
  {
    var suffix, r := Range(-1, n), Range(a, b);
    var sorted :| SortsTo([suffix, r], sorted) && out == Coalesced(sorted, len);
    SortOfTwo(suffix, r, sorted);
    CoalescedInRawOrder(n, r, len);
    var last := Range(len - n, len - 1);
    assert out[0] == last;
    if len - n <= a {
      forall p | AsksFor(r, len, p) ensures Covers(out, p) {
        assert Holds(out[0], p);
      }
    } else {
      assert AsksFor(r, len, a);
      assert forall i :: 0 <= i < |out| ==> !Holds(out[i], a);
    }
  }

  lemma CoalescedInRawOrder(n: nat, r: Range, len: nat)
    requires 1 <= n <= len && InBounds(r, len)
    ensures var last := Range(len - n, len - 1);
            Coalesced([Range(-1, n), r], len) == if r == last then [last, last] else [last]
  {
    var suffix, last := Range(-1, n), Range(len - n, len - 1);
    assert [suffix, r] == [suffix] + [r];
    CoalescedSnoc([suffix], r, len);
    assert [suffix][..0] == [] && Coalesced([suffix], len) == [last];
    assert last.(last := len - 1) == last;
  }

  lemma SortOfTwo(a: Range, b: Range, sorted: seq<Range>)
    requires SortsTo([a, b], sorted) && a.first < b.first
    ensures sorted == [a, b]
  {
    assert |multiset(sorted)| == 2;
    assert a in multiset(sorted) && b in multiset(sorted);
    assert sorted[0] in multiset([a, b]) && sorted[1] in multiset([a, b]);
  }

  /** A suffix range is served only when the content is at least that long. */
  lemma SuffixRanges(n: int, len: nat)
    requires n != -1
    ensures Refused([Range(-1, n)], len) <==> !(1 <= n <= len)
  {
    var ns := AllNormal([Range(-1, n)], len);
    assert ns == [Range(len - n, len - 1)];
    assert Overlapping(ns, 1) <= 1;
    assert AllInBounds(ns, len) <==> InBounds(ns[0], len);
  }

  // ------------------------------------------------------------- the code

  /** Stands for the library's sort: ordered by start, equal starts in any order. */
  method SortByStart(rs: seq<Range>) returns (sorted: seq<Range>)
    ensures SortsTo(rs, sorted)
  {
    sorted := [];
    for i := 0 to |rs|
      invariant SortsTo(rs[..i], sorted)
    {
      assert rs[..i + 1] == rs[..i] + [rs[i]];
      sorted := Insert(sorted, rs[i]);
    }
    assert rs[..|rs|] == rs;
  }

  method Insert(rs: seq<Range>, r: Range) returns (out: seq<Range>)
    requires Sorted(rs)
    ensures Sorted(out) && multiset(out) == multiset(rs) + multiset{r}
  {
    var k := 0;
    while k < |rs| && rs[k].first <= r.first
      invariant 0 <= k <= |rs|
      invariant forall j :: 0 <= j < k ==> rs[j].first <= r.first
    {
      k := k + 1;
    }
    out := rs[..k] + [r] + rs[k..];
    InsertedSorted(rs, k, r, out);
    InsertedElements(rs[..k], r, rs[k..]);
    assert rs == rs[..k] + rs[k..];
  }

  lemma InsertedElements(before: seq<Range>, r: Range, behind: seq<Range>)
    ensures multiset(before + [r] + behind) == multiset(before + behind) + multiset{r}
  {
  }

  lemma InsertedSorted(rs: seq<Range>, k: nat, r: Range, out: seq<Range>)
    requires Sorted(rs) && k <= |rs| && |out| == |rs| + 1 && out[k] == r
    requires forall i :: 0 <= i < k ==> out[i] == rs[i] && rs[i].first <= r.first
    requires forall i :: k < i < |out| ==> out[i] == rs[i - 1]
    requires k < |rs| ==> r.first <= rs[k].first
    ensures Sorted(out)
  {
    forall i | k < i < |out| ensures r.first <= out[i].first {
      assert rs[k].first <= rs[i - 1].first;
    }
    forall i, j | 0 <= i < j < |out| ensures out[i].first <= out[j].first {
      if i < k && k < j {
        assert rs[i].first <= rs[j - 1].first;
      } else if k < i {
        assert rs[i - 1].first <= rs[j - 1].first;
      }
    }
  }

  class Request {
    var ranges: seq<Range>

    constructor (ranges: seq<Range>)
      ensures this.ranges == ranges
    {
      this.ranges := ranges;
    }

    method CoalesceRanges(contentLength: nat)
      modifies this
      ensures CoalescesTo(old(ranges), ranges, contentLength)
    {
      if |ranges| <= 1 {
        return;
      }
      var sorted := SortByStart(ranges);
      var coalesced: seq<Range> := [];
      for i := 0 to |sorted|
        invariant coalesced == Coalesced(sorted[..i], contentLength)
        invariant ranges == old(ranges)
      {
        assert sorted[..i + 1][..i] == sorted[..i];
        var first, last := sorted[i].first, sorted[i].last;
        if first == -1 && last == -1 {
          first, last := 0, contentLength;
        }
        if first == -1 {
          first, last := contentLength - last, contentLength - 1;
        }
        if last == -1 || last >= contentLength {
          last := contentLength - 1;
        }
        assert Range(first, last) == Normal(sorted[i], contentLength);
        if !(0 <= first <= last < contentLength) {
          continue;
        }
        if coalesced != [] {
          var prev := coalesced[|coalesced| - 1];
          if first <= prev.last + 1 && !(first == prev.first && last == prev.last) {
            coalesced := coalesced[|coalesced| - 1 := prev.(last := if prev.last < last then last else prev.last)];
            continue;
          }
        }
        coalesced := coalesced + [Range(first, last)];
      }
      assert sorted[..|sorted|] == sorted;
      ranges := coalesced;
    }

    /** The loop over processed_ranges: is there one that `r` overlaps? */
    method OverlapsProcessed(processed: seq<Range>, r: Range) returns (found: bool)
      ensures found <==> exists j :: 0 <= j < |processed| && Overlap(r, processed[j])
    {
      found := false;
      for j := 0 to |processed|
        invariant forall k :: 0 <= k < j ==> !Overlap(r, processed[k])
      {
        if !(r.last < processed[j].first || r.first > processed[j].last) {
          assert Overlap(r, processed[j]);
          return true;
        }
      }
    }

    /** The rewriting of one range in place. */
    method Normalize(i: nat, contentLength: nat)
      requires i < |ranges|
      modifies this
      ensures ranges == old(ranges)[i := Normal(old(ranges)[i], contentLength)]
    {
      if ranges[i].first == -1 && ranges[i].last == -1 {
        ranges := ranges[i := Range(0, contentLength)];
      }
      if ranges[i].first == -1 {
        ranges := ranges[i := Range(contentLength - ranges[i].last, contentLength - 1)];
      }
      if ranges[i].last == -1 || ranges[i].last >= contentLength {
        ranges := ranges[i := ranges[i].(last := contentLength - 1)];
      }
    }

    /** One turn of the checking loop. */
    method CheckOne(i: nat, len: nat, processed: seq<Range>, overlapping: nat, ghost raw: seq<Range>)
      returns (error: bool, processed': seq<Range>, overlapping': nat)
      requires i < |raw| && ranges == HalfNormal(raw, len, i) && SoFar(raw, len, i, processed, overlapping)
      modifies this
      ensures error ==> Refused(raw, len)
      ensures !error ==> ranges == HalfNormal(raw, len, i + 1) && SoFar(raw, len, i + 1, processed', overlapping')
    {
      Rewritten(raw, len, i);
      Normalize(i, len);
      var r := ranges[i];
      processed', overlapping' := processed + [r], overlapping;
      if !(0 <= r.first <= r.last <= len - 1) {
        OneOutOfBounds(raw, len, i, r);
        return true, processed', overlapping';
      }
      var found := OverlapsProcessed(processed, r);
      OneMore(raw, len, i, processed, overlapping, found, r);
      if found {
        overlapping' := overlapping + 1;
      }
      error := overlapping' > 2;
    }

    /** The checking loop; a refusal may leave the list half rewritten. */
    method CheckRanges(len: nat) returns (error: bool)
      modifies this
      ensures error <==> Refused(old(ranges), len)
      ensures !error ==> ranges == AllNormal(old(ranges), len)
    {
      if |ranges| > RANGE_MAX_COUNT {
        return true;
      }
      ghost var raw := ranges;
      var n := |ranges|;
      var processed: seq<Range> := [];
      var overlapping := 0;
      NoneYet(raw, len);
      for i := 0 to n
        invariant ranges == HalfNormal(raw, len, i) && SoFar(raw, len, i, processed, overlapping)
      {
        error, processed, overlapping := CheckOne(i, len, processed, overlapping, raw);
        if error {
          return;
        }
      }
      NoneLeft(raw, len, processed, overlapping);
      return false;
    }

    /**
     * Refuses exactly the lists described by Refused, for 2xx answers only;
     * otherwise leaves the coalesced normal ranges behind.
     */
    method RangeError(status: int, contentLength: nat, bodySize: nat) returns (error: bool)
      modifies this
      ensures var len := if contentLength != 0 then contentLength else bodySize;
              var applies := old(ranges) != [] && 200 <= status < 300;
              && (error <==> applies && Refused(old(ranges), len))
              && (!applies ==> ranges == old(ranges))
              && (applies && !error ==> CoalescesTo(AllNormal(old(ranges), len), ranges, len))
    {
      error := false;
      if ranges != [] && 200 <= status < 300 {
        var len := if contentLength != 0 then contentLength else bodySize;
        error := CheckRanges(len);
        if !error {
          CoalesceRanges(len);
        }
      }
    }
  }

  /** The list with its first `i` ranges rewritten. */
  function HalfNormal(raw: seq<Range>, len: nat, i: nat): seq<Range>
    requires i <= |raw|
  {
    AllNormal(raw, len)[..i] + raw[i..]
  }

  /** What range_error knows after `i` ranges. */
  ghost predicate SoFar(raw: seq<Range>, len: nat, i: nat, processed: seq<Range>, overlapping: nat) {
    var ns := AllNormal(raw, len);
    && i <= |raw| && processed == ns[..i] && AllInBounds(processed, len)
    && overlapping == Overlapping(ns, i) <= 2
  }

  lemma NoneYet(raw: seq<Range>, len: nat)
    ensures HalfNormal(raw, len, 0) == raw && SoFar(raw, len, 0, [], 0)
  {
    assert AllNormal(raw, len)[..0] == [] && raw[0..] == raw;
  }

  lemma OneOutOfBounds(raw: seq<Range>, len: nat, i: nat, r: Range)
    requires i < |raw| && r == Normal(raw[i], len) && !InBounds(r, len)
    ensures Refused(raw, len)
  {
    var ns := AllNormal(raw, len);
    assert !InBounds(ns[i], len);
  }

  lemma OneMore(raw: seq<Range>, len: nat, i: nat, processed: seq<Range>, overlapping: nat, found: bool, r: Range)
    requires i < |raw| && SoFar(raw, len, i, processed, overlapping) && r == Normal(raw[i], len) && InBounds(r, len)
    requires found <==> exists j :: 0 <= j < |processed| && Overlap(r, processed[j])
    ensures found && overlapping == 2 ==> Refused(raw, len)
    ensures !(found && overlapping == 2) ==>
              SoFar(raw, len, i + 1, processed + [r], overlapping + if found then 1 else 0)
  {
    OneMoreNormal(AllNormal(raw, len), i, processed, overlapping, found, r);
  }

  lemma OneMoreNormal(ns: seq<Range>, i: nat, processed: seq<Range>, overlapping: nat, found: bool, r: Range)
    requires i < |ns| && ns[i] == r && processed == ns[..i] && overlapping == Overlapping(ns, i)
    requires found <==> exists j :: 0 <= j < |processed| && Overlap(r, processed[j])
    ensures processed + [r] == ns[..i + 1]
    ensures Overlapping(ns, i + 1) == overlapping + (if found then 1 else 0) <= Overlapping(ns, |ns|)
  {
    FoundMeans(ns, i, processed, r, found);
    OverlappingGrows(ns, i + 1, |ns|);
  }

  lemma FoundMeans(ns: seq<Range>, i: nat, processed: seq<Range>, r: Range, found: bool)
    requires i < |ns| && ns[i] == r && processed == ns[..i]
    requires found <==> exists j :: 0 <= j < |processed| && Overlap(r, processed[j])
    ensures found <==> OverlapsEarlier(ns, i)
  {
    if found {
      var j :| 0 <= j < |processed| && Overlap(r, processed[j]);
      assert Overlap(ns[i], ns[j]);
    }
    if OverlapsEarlier(ns, i) {
      var j :| 0 <= j < i && Overlap(ns[i], ns[j]);
      assert Overlap(r, processed[j]);
    }
  }

  lemma NoneLeft(raw: seq<Range>, len: nat, processed: seq<Range>, overlapping: nat)
    requires |raw| <= RANGE_MAX_COUNT && SoFar(raw, len, |raw|, processed, overlapping)
    ensures !Refused(raw, len) && HalfNormal(raw, len, |raw|) == AllNormal(raw, len)
  {
    var ns := AllNormal(raw, len);
    assert ns[..|raw|] == ns;
  }

  lemma Rewritten(raw: seq<Range>, len: nat, i: nat)
    requires i < |raw|
    ensures HalfNormal(raw, len, i)[i] == raw[i]
    ensures HalfNormal(raw, len, i)[i := Normal(raw[i], len)] == HalfNormal(raw, len, i + 1)
  {
    Shift(AllNormal(raw, len), raw, i);
  }

  lemma Shift(ns: seq<Range>, raw: seq<Range>, i: nat)
    requires i < |raw| == |ns|
    ensures (ns[..i] + raw[i..])[i := ns[i]] == ns[..i + 1] + raw[i + 1..]
  {
  }

  datatype Slice = Slice(offset: nat, length: nat)

  /** The slice of the body that answers one range; its asserts are the precondition. */
  function GetRangeOffsetAndLength(r: Range, contentLength: nat): (s: Slice)
    requires InBounds(r, contentLength)
    ensures s.offset + s.length <= contentLength
    ensures forall p :: Holds(r, p) <==> s.offset <= p < s.offset + s.length
  {
    Slice(r.first, r.last - r.first + 1)
  }

  /** Serving a request: each range kept has a slice inside the body, and together they hold what was asked for. */
  method Serve(request: Request, status: int, body: seq<int>) returns (error: bool, slices: seq<Slice>)
    requires request.ranges != [] && 200 <= status < 300
    modifies request
    ensures error <==> Refused(old(request.ranges), |body|)
    ensures !error ==> forall i :: 0 <= i < |slices| ==> slices[i].offset + slices[i].length <= |body|
    ensures !error ==> forall p :: InSlices(slices, p) <==>
              exists i :: 0 <= i < |old(request.ranges)| && AsksFor(old(request.ranges)[i], |body|, p)
  {
    error := request.RangeError(status, 0, |body|);
    slices := [];
    if !error {
      AcceptedRanges(old(request.ranges), request.ranges, |body|);
      slices := SlicesOf(request.ranges, |body|);
    }
  }

  method SlicesOf(rs: seq<Range>, len: nat) returns (slices: seq<Slice>)
    requires AllInBounds(rs, len)
    ensures forall j :: 0 <= j < |slices| ==> slices[j].offset + slices[j].length <= len
    ensures forall p :: InSlices(slices, p) <==> Covers(rs, p)
  {
    slices := [];
    for i := 0 to |rs|
      invariant |slices| == i
      invariant forall j :: 0 <= j < i ==> slices[j] == GetRangeOffsetAndLength(rs[j], len)
    {
      slices := slices + [GetRangeOffsetAndLength(rs[i], len)];
    }
    SlicesHold(slices, rs, len);
  }

  lemma SlicesHold(slices: seq<Slice>, rs: seq<Range>, len: nat)
    requires AllInBounds(rs, len) && |slices| == |rs|
    requires forall j :: 0 <= j < |rs| ==> slices[j] == GetRangeOffsetAndLength(rs[j], len)
    ensures forall j :: 0 <= j < |slices| ==> slices[j].offset + slices[j].length <= len
    ensures forall p :: InSlices(slices, p) <==> Covers(rs, p)
  {
    forall p ensures InSlices(slices, p) <==> Covers(rs, p) {
      if InSlices(slices, p) {
        var i :| 0 <= i < |slices| && InSlice(slices[i], p);
        assert Holds(rs[i], p);
      }
      if Covers(rs, p) {
        var i :| 0 <= i < |rs| && Holds(rs[i], p);
        assert InSlice(slices[i], p);
      }
    }
  }

  predicate InSlice(s: Slice, p: int) {
    s.offset <= p < s.offset + s.length
  }

  predicate InSlices(slices: seq<Slice>, p: int) {
    exists i :: 0 <= i < |slices| && InSlice(slices[i], p)
  }
}
