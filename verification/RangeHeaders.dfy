/** The Range header (section 14.2 of RFC 9110): its printer and its parser. */
module RangeHeaders {
  import opened Decimals
  import opened Ranges
  import opened Splitting
  import opened Strings

  const UNIT := "bytes="

  /** One end; -1 stands for an absent one. */
  function EndText(n: int): string {
    if n == -1 then "" else Decimal(n)
  }

  function RangeText(r: Range): string {
    EndText(r.first) + ['-'] + EndText(r.last)
  }

  function Part(r: Range, i: nat): string {
    (if i == 0 then "" else " ") + RangeText(r)
  }

  function Parts(rs: seq<Range>): seq<string> {
    seq(|rs|, i requires 0 <= i < |rs| => Part(rs[i], i))
  }

  /** The value of the header: the ranges separated by a comma and a space. */
  function HeaderText(rs: seq<Range>): string {
    UNIT + Joined(Parts(rs), ',')
  }

  method MakeRangeHeader(ranges: seq<Range>) returns (field: string)
    ensures field == HeaderText(ranges)
  {
    field := UNIT;
    assert UNIT + Joined(Parts(ranges[..0]), ',') == UNIT;
    for i := 0 to |ranges|
      invariant field == HeaderText(ranges[..i])
    {
      HeaderGrows(ranges, i);
      if i != 0 {
        field := field + ", ";
      }
      field := AppendRange(field, ranges[i]);
    }
    assert ranges[..|ranges|] == ranges;
  }

  method AppendRange(before: string, r: Range) returns (field: string)
    ensures field == before + EndText(r.first) + "-" + EndText(r.last)
  {
    field := before;
    if r.first != -1 {
      field := field + Decimal(r.first);
    }
    field := field + "-";
    if r.last != -1 {
      field := field + Decimal(r.last);
    }
  }

  lemma HeaderGrows(rs: seq<Range>, i: nat)
    requires i < |rs|
    ensures HeaderText(rs[..i + 1]) ==
            HeaderText(rs[..i]) + (if i == 0 then "" else ", ") + EndText(rs[i].first) + "-" + EndText(rs[i].last)
  {
    var before, after := Parts(rs[..i]), Parts(rs[..i + 1]);
    assert after == before + [Part(rs[i], i)];
    assert after[..|after| - 1] == before;
    Appended(UNIT, Joined(before, ','), EndText(rs[i].first), EndText(rs[i].last));
  }

  lemma Appended(unit: string, before: string, first: string, last: string)
    ensures unit + (before + [','] + (" " + (first + ['-'] + last))) == unit + before + ", " + first + "-" + last
    ensures unit + ("" + (first + ['-'] + last)) == unit + "" + "" + first + "-" + last
  {
  }

  // ------------------------------------------------------------ the parser

  /** One range, or None where the code refuses it or the library throws. */
  function ParsedRange(field: string): Option<Range> {
    var (lhs, rhs, found) := Divided(field, '-');
    if !found || !AllDigits(lhs) || !AllDigits(rhs) then None
    else
      match (if lhs == "" then Some(-1) else StoLl(lhs), if rhs == "" then Some(-1) else StoLl(rhs))
      case (Some(first), Some(last)) =>
        if (first == -1 && last == -1) || (first != -1 && last != -1 && first > last) then None
        else Some(Range(first, last))
      case _ => None
  }

  function AllParsed(fields: seq<string>): Option<seq<Range>> {
    if fields == [] then Some([])
    else
      match (AllParsed(fields[..|fields| - 1]), ParsedRange(fields[|fields| - 1]))
      case (Some(rs), Some(r)) => Some(rs + [r])
      case _ => None
  }

  /** The list a header stands for. */
  function ParsedHeader(s: string): Option<seq<Range>> {
    if |s| > 7 && s[..6] == UNIT then
      match AllParsed(Fields(s[6..], ','))
      case None => None
      case Some(rs) => if rs == [] then None else Some(rs)
    else None
  }

  lemma AllParsedSnoc(fields: seq<string>, field: string)
    ensures AllParsed(fields + [field]) ==
            match (AllParsed(fields), ParsedRange(field))
            case (Some(rs), Some(r)) => Some(rs + [r])
            case _ => None
  {
    var all := fields + [field];
    assert all[..|all| - 1] == fields && all[|all| - 1] == field;
  }

  lemma AllParsedTake(fields: seq<string>, i: nat)
    requires i < |fields|
    ensures AllParsed(fields[..i + 1]) ==
            match (AllParsed(fields[..i]), ParsedRange(fields[i]))
            case (Some(rs), Some(r)) => Some(rs + [r])
            case _ => None
  {
    assert fields[..i + 1] == fields[..i] + [fields[i]];
    AllParsedSnoc(fields[..i], fields[i]);
  }

  method ParseRangeHeader(s: string) returns (ranges: Option<seq<Range>>)
    ensures ranges == ParsedHeader(s)
  {
    if |s| > 7 && s[..6] == UNIT {
      var fields := Split(s[6..], ',');
      ranges := ParseFields(fields);
      if ranges == Some([]) {
        ranges := None;
      }
    } else {
      ranges := None;
    }
  }

  /** The callbacks of split: after the first refusal nothing is added, and the answer is no. */
  method ParseFields(fields: seq<string>) returns (parsed: Option<seq<Range>>)
    ensures parsed == AllParsed(fields)
  {
    var ranges: seq<Range>, allValid := [], true;
    for i := 0 to |fields|
      invariant AllParsed(fields[..i]) == if allValid then Some(ranges) else None
    {
      AllParsedTake(fields, i);
      if allValid {
        var range := ParseOne(fields[i]);
        if range.Some? {
          ranges := ranges + [range.value];
        } else {
          allValid := false;
        }
      }
    }
    assert fields[..|fields|] == fields;
    parsed := if allValid then Some(ranges) else None;
  }

  /** The callback of split; None when it clears all_valid_ranges or stoll throws. */
  method ParseOne(field: string) returns (r: Option<Range>)
    ensures r == ParsedRange(field)
  {
    var k := IndexOf(field, '-');
    if k == |field| {
      return None;
    }
    var lhs, rhs := field[..k], field[k + 1..];
    if !AllDigits(lhs) || !AllDigits(rhs) {
      return None;
    }
    var first, last := -1, -1;
    if lhs != "" {
      var number := StoLl(lhs);
      if number.None? {
        return None;
      }
      first := number.value;
    }
    if rhs != "" {
      var number := StoLl(rhs);
      if number.None? {
        return None;
      }
      last := number.value;
    }
    if (first == -1 && last == -1) || (first != -1 && last != -1 && first > last) {
      return None;
    }
    return Some(Range(first, last));
  }

  // ---------------------------------------------------- what a header means

  /** One end of a range in a header; an absent one stands for -1. */
  predicate SaysEnd(text: string, n: int) {
    AllDigits(text) && if text == "" then n == -1 else n == Value(text) && n <= LLONG_MAX
  }

  /** The range-spec of section 14.1.1 of RFC 9110, with ends that fit a long long. */
  ghost predicate SaysRange(field: string, r: Range) {
    exists lhs, rhs ::
      && field == lhs + "-" + rhs && SaysEnd(lhs, r.first) && SaysEnd(rhs, r.last)
      && (lhs != "" || rhs != "")
      && (lhs != "" && rhs != "" ==> r.first <= r.last)
  }

  lemma DashDivides(lhs: string, rhs: string)
    requires AllDigits(lhs)
    ensures Divided(lhs + "-" + rhs, '-') == (lhs, rhs, true)
  {
    NoDashInDigits(lhs);
    DividedIs(lhs, rhs, '-');
  }

  lemma ParsedSays(field: string, r: Range)
    requires ParsedRange(field) == Some(r)
    ensures SaysRange(field, r)
  {
    var (lhs, rhs, found) := Divided(field, '-');
    assert field == lhs + "-" + rhs;
    assert SaysEnd(lhs, r.first) && SaysEnd(rhs, r.last);
  }

  lemma SaidIsParsed(field: string, r: Range)
    requires SaysRange(field, r)
    ensures ParsedRange(field) == Some(r)
  {
    var lhs, rhs :|
      && field == lhs + "-" + rhs && SaysEnd(lhs, r.first) && SaysEnd(rhs, r.last)
      && (lhs != "" || rhs != "")
      && (lhs != "" && rhs != "" ==> r.first <= r.last);
    DashDivides(lhs, rhs);
  }

  ghost predicate AllSay(fields: seq<string>, rs: seq<Range>) {
    |fields| == |rs| && forall i :: 0 <= i < |fields| ==> SaysRange(fields[i], rs[i])
  }

  lemma SaySnoc(fields: seq<string>, field: string, rs: seq<Range>, r: Range)
    ensures AllSay(fields + [field], rs + [r]) <==> AllSay(fields, rs) && SaysRange(field, r)
  {
    var all, sayable := fields + [field], rs + [r];
    if AllSay(all, sayable) {
      assert all[|fields|] == field && sayable[|rs|] == r;
      forall i | 0 <= i < |fields| ensures SaysRange(fields[i], rs[i]) {
        assert all[i] == fields[i] && sayable[i] == rs[i];
      }
    }
  }

  lemma ParsedLast(fields: seq<string>, rs: seq<Range>)
    returns (init: seq<string>, last: string, before: seq<Range>, r: Range)
    requires fields != [] && AllParsed(fields) == Some(rs)
    ensures fields == init + [last] && rs == before + [r]
    ensures AllParsed(init) == Some(before) && ParsedRange(last) == Some(r)
  {
    init, last := fields[..|fields| - 1], fields[|fields| - 1];
    before, r := AllParsed(init).value, ParsedRange(last).value;
  }

  lemma {:induction false} ParsedSay(fields: seq<string>, rs: seq<Range>)
    requires AllParsed(fields) == Some(rs)
    ensures AllSay(fields, rs)
    decreases |fields|
  {
    if fields != [] {
      var init, last, before, r := ParsedLast(fields, rs);
      ParsedSay(init, before);
      ParsedSays(last, r);
      SaySnoc(init, last, before, r);
    }
  }

  lemma {:induction false} SaidAreParsed(fields: seq<string>, rs: seq<Range>)
    requires AllSay(fields, rs)
    ensures AllParsed(fields) == Some(rs)
    decreases |fields|
  {
    if fields != [] {
      var init, last := fields[..|fields| - 1], fields[|fields| - 1];
      var before, r := rs[..|rs| - 1], rs[|rs| - 1];
      assert fields == init + [last] && rs == before + [r];
      SaySnoc(init, last, before, r);
      SaidAreParsed(init, before);
      SaidIsParsed(last, r);
    }
  }

  /** A header is read as a list exactly when its fields say the ranges of the list, one each. */
  lemma ReadsExactly(s: string, rs: seq<Range>)
    ensures ParsedHeader(s) == Some(rs) <==>
            |s| > 7 && s[..6] == "bytes=" && rs != [] && AllSay(Fields(s[6..], ','), rs)
  {
    if |s| > 7 && s[..6] == UNIT {
      var fields := Fields(s[6..], ',');
      if AllSay(fields, rs) {
        SaidAreParsed(fields, rs);
      } else if AllParsed(fields) == Some(rs) {
        ParsedSay(fields, rs);
      }
    }
  }

  /** The header of one range. */
  lemma HeaderOfOne(r: Range)
    ensures HeaderText([r]) == "bytes=" + EndText(r.first) + "-" + EndText(r.last)
  {
    var first, last := EndText(r.first), EndText(r.last);
    assert Parts([r]) == [Part(r, 0)] && Part(r, 0) == "" + (first + ['-'] + last);
    assert "bytes=" + ("" + (first + ['-'] + last)) == "bytes=" + first + "-" + last;
  }

  /** And of one range more. */
  lemma HeaderOfMore(rs: seq<Range>, r: Range)
    requires rs != []
    ensures HeaderText(rs + [r]) == HeaderText(rs) + ", " + EndText(r.first) + "-" + EndText(r.last)
  {
    var all := rs + [r];
    HeaderGrows(all, |rs|);
    assert all[..|rs| + 1] == all && all[..|rs|] == rs && all[|rs|] == r;
  }

  // ------------------------------------------------------------ round trip

  /** A range a header can say: not without both ends, not backwards. */
  predicate Sayable(r: Range) {
    && r.first >= -1 && r.last >= -1 && !(r.first == -1 && r.last == -1)
    && (r.first != -1 && r.last != -1 ==> r.first <= r.last)
  }

  predicate AllSayable(rs: seq<Range>) {
    forall i :: 0 <= i < |rs| ==> Sayable(rs[i])
  }

  predicate FitsSsize(r: Range) {
    -LLONG_MAX - 1 <= r.first <= LLONG_MAX && -LLONG_MAX - 1 <= r.last <= LLONG_MAX
  }

  lemma EndReads(n: int)
    ensures n >= -1 ==> AllDigits(EndText(n))
    ensures n < -1 ==> EndText(n) != "" && EndText(n)[0] == '-'
    ensures n >= 0 ==> EndText(n) != "" && AllDigits(EndText(n)) && Value(EndText(n)) == n
  {
    NaturalReads(if n < 0 then -n else n);
  }

  lemma NoDashInDigits(s: string)
    requires AllDigits(s)
    ensures '-' !in s
  {
  }

  lemma RangeReads(r: Range)
    requires FitsSsize(r)
    ensures ParsedRange(RangeText(r)) == if Sayable(r) then Some(r) else None
  {
    var lhs, rhs := EndText(r.first), EndText(r.last);
    EndReads(r.first);
    EndReads(r.last);
    if r.first >= -1 {
      NoDashInDigits(lhs);
      DividedIs(lhs, rhs, '-');
    } else {
      var rest := lhs[1..] + ['-'] + rhs;
      assert RangeText(r) == "" + ['-'] + rest;
      DividedIs("", rest, '-');
      assert rest[|lhs| - 1] == '-';
    }
  }

  lemma TextIsSolid(r: Range)
    ensures ',' !in RangeText(r) && Solid(RangeText(r))
  {
    EndIsPlain(r.first);
    EndIsPlain(r.last);
    var t := RangeText(r);
    assert t[|EndText(r.first)|] == '-';
  }

  lemma EndIsPlain(n: int)
    ensures forall i :: 0 <= i < |EndText(n)| ==> IsDigit(EndText(n)[i]) || EndText(n)[i] == '-'
  {
    NaturalReads(if n < 0 then -n else n);
  }

  lemma KeptPart(t: string)
    requires Solid(t)
    ensures Kept(t) == [t] && Kept(" " + t) == [t]
  {
    KeptAsIs(t);
    assert (" " + t)[1..] == t;
  }

  function Texts(rs: seq<Range>): seq<string> {
    seq(|rs|, i requires 0 <= i < |rs| => RangeText(rs[i]))
  }

  lemma PartKept(r: Range, i: nat)
    ensures ',' !in Part(r, i) && Kept(Part(r, i)) == [RangeText(r)]
  {
    TextIsSolid(r);
    KeptPart(RangeText(r));
    assert "" + RangeText(r) == RangeText(r);
  }

  lemma PartsSnoc(rs: seq<Range>, r: Range)
    ensures Parts(rs + [r]) == Parts(rs) + [Part(r, |rs|)]
    ensures Texts(rs + [r]) == Texts(rs) + [RangeText(r)]
  {
  }

  lemma {:induction false} PartsKept(rs: seq<Range>)
    ensures AllKept(Parts(rs)) == Texts(rs)
    decreases |rs|
  {
    if rs != [] {
      var init, last := rs[..|rs| - 1], rs[|rs| - 1];
      assert rs == init + [last];
      PartsKept(init);
      PartsSnoc(init, last);
      PartKept(last, |init|);
      AllKeptSnoc(Parts(init), Part(last, |init|));
    }
  }

  lemma FieldsOfHeader(rs: seq<Range>)
    ensures Fields(HeaderText(rs)[6..], ',') == Texts(rs) && HeaderText(rs)[..6] == UNIT
  {
    var parts := Parts(rs);
    forall i | 0 <= i < |parts| ensures ',' !in parts[i] {
      PartKept(rs[i], i);
    }
    FieldsOfJoined(parts, ',');
    PartsKept(rs);
    assert HeaderText(rs)[6..] == Joined(parts, ',');
  }

  lemma AllSayableSnoc(rs: seq<Range>, r: Range)
    ensures AllSayable(rs + [r]) <==> AllSayable(rs) && Sayable(r)
  {
    var all := rs + [r];
    assert all[|rs|] == r && forall i :: 0 <= i < |rs| ==> all[i] == rs[i];
  }

  lemma {:induction false} TextsParse(rs: seq<Range>)
    requires forall i :: 0 <= i < |rs| ==> FitsSsize(rs[i])
    ensures AllParsed(Texts(rs)) == if AllSayable(rs) then Some(rs) else None
    decreases |rs|
  {
    if rs != [] {
      var init, last := rs[..|rs| - 1], rs[|rs| - 1];
      assert rs == init + [last];
      TextsParse(init);
      RangeReads(last);
      PartsSnoc(init, last);
      AllSayableSnoc(init, last);
      AllParsedSnoc(Texts(init), RangeText(last));
    }
  }

  /** The parser gives the printed list back exactly when it is not empty and every range can be said. */
  lemma RangeHeaderRoundTrip(rs: seq<Range>)
    requires forall i :: 0 <= i < |rs| ==> FitsSsize(rs[i])
    ensures ParsedHeader(HeaderText(rs)) == Some(rs) <==> rs != [] && AllSayable(rs)
  {
    FieldsOfHeader(rs);
    TextsParse(rs);
    if rs == [] {
      assert Joined(Parts(rs), ',') == "";
    } else if AllSayable(rs) {
      HeaderIsLong(rs);
    }
  }

  lemma {:induction false} JoinedLength(parts: seq<string>, d: char)
    requires parts != []
    ensures |Joined(parts, d)| >= |parts[0]|
    decreases |parts|
  {
    if |parts| > 1 {
      JoinedLength(parts[..|parts| - 1], d);
    }
  }

  lemma HeaderIsLong(rs: seq<Range>)
    requires rs != [] && Sayable(rs[0])
    ensures |HeaderText(rs)| > 7
  {
    EndReads(rs[0].first);
    EndReads(rs[0].last);
    JoinedLength(Parts(rs), ',');
    assert Parts(rs)[0] == Part(rs[0], 0);
  }
}
