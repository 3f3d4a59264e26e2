/**
 * The multimap of query parameters: ordered by key, equal keys in the order
 * they came; its query string, and what parsing a query string adds to it.
 */
module QueryParams {
  import opened PercentCoding
  import opened Queries
  import opened Splitting
  import opened Strings

  datatype Param = Param(key: string, value: string)

  /** The order of std::string. */
  predicate Less(a: string, b: string) {
    b != "" && (a == "" || a[0] < b[0] || (a[0] == b[0] && Less(a[1..], b[1..])))
  }

  /** Lexicographic: a proper prefix, or smaller at the first difference. */
  lemma {:induction false} LessIsLexicographic(a: string, b: string)
    ensures Less(a, b) <==>
            exists k :: 0 <= k <= |a| && k < |b| && a[..k] == b[..k] && (k == |a| || a[k] < b[k])
  {
    if a != "" && b != "" && a[0] == b[0] {
      LessIsLexicographic(a[1..], b[1..]);
      if Less(a[1..], b[1..]) {
        var k :| 0 <= k <= |a[1..]| && k < |b[1..]| && a[1..][..k] == b[1..][..k]
                 && (k == |a[1..]| || a[1..][k] < b[1..][k]);
        assert a[..k + 1] == [a[0]] + a[1..][..k] && b[..k + 1] == [b[0]] + b[1..][..k];
      }
      if k :| 0 <= k <= |a| && k < |b| && a[..k] == b[..k] && (k == |a| || a[k] < b[k]) {
        assert k > 0;
        assert a[1..][..k - 1] == a[..k][1..] && b[1..][..k - 1] == b[..k][1..];
      }
    } else if b != "" && (a == "" || a[0] < b[0]) {
      assert a[..0] == b[..0];
    } else if a != "" && b != "" {
      assert forall k :: 0 < k <= |a| && k < |b| ==> a[..k][0] != b[..k][0];
    }
  }

  predicate Sorted(ps: seq<Param>) {
    forall i, j :: 0 <= i < j < |ps| ==> !Less(ps[j].key, ps[i].key)
  }

  /** emplace: behind everything that is not greater. */
  function Emplaced(ps: seq<Param>, p: Param): seq<Param> {
    if ps == [] || !Less(p.key, ps[|ps| - 1].key) then ps + [p]
    else Emplaced(ps[..|ps| - 1], p) + [ps[|ps| - 1]]
  }

  lemma {:induction false} LessChain(a: string, b: string, c: string)
    requires !Less(b, a) && !Less(c, b)
    ensures !Less(c, a)
  {
    if a != "" && b != "" && c != "" && a[0] == b[0] == c[0] {
      LessChain(a[1..], b[1..], c[1..]);
    }
  }

  lemma {:induction false} LessOneWay(a: string, b: string)
    requires Less(a, b)
    ensures !Less(b, a)
  {
    if a != "" && a[0] == b[0] {
      LessOneWay(a[1..], b[1..]);
    }
  }

  lemma SortedSnoc(ps: seq<Param>, p: Param)
    requires Sorted(ps) && (ps == [] || !Less(p.key, ps[|ps| - 1].key))
    ensures Sorted(ps + [p])
  {
    forall i | 0 <= i < |ps| ensures !Less(p.key, ps[i].key) {
      if i < |ps| - 1 {
        LessChain(ps[i].key, ps[|ps| - 1].key, p.key);
      }
    }
  }

  /** The map stays ordered, and emplace adds exactly the new pair. */
  lemma {:induction false} EmplacedIsSorted(ps: seq<Param>, p: Param)
    requires Sorted(ps)
    ensures Sorted(Emplaced(ps, p)) && multiset(Emplaced(ps, p)) == multiset(ps) + multiset{p}
    ensures |Emplaced(ps, p)| == |ps| + 1
    ensures Emplaced(ps, p)[|ps|] == p || (ps != [] && Emplaced(ps, p)[|ps|] == ps[|ps| - 1])
    decreases |ps|
  {
    if ps == [] || !Less(p.key, ps[|ps| - 1].key) {
      SortedSnoc(ps, p);
    } else {
      var init, last := ps[..|ps| - 1], ps[|ps| - 1];
      assert ps == init + [last];
      EmplacedIsSorted(init, p);
      LessOneWay(p.key, last.key);
      SortedSnoc(Emplaced(init, p), last);
    }
  }

  // ------------------------------------------------------------ the parser

  /** What the fields of a query add: a text seen before is passed over. */
  function Added(fields: seq<string>, params: seq<Param>): seq<Param> {
    if fields == [] then params
    else
      var init, field := fields[..|fields| - 1], fields[|fields| - 1];
      var before := Added(init, params);
      if field in init || EntryOf(field).None? then before
      else Emplaced(before, Param(EntryOf(field).value.key, EntryOf(field).value.value))
  }

  lemma AddedSnoc(fields: seq<string>, field: string, params: seq<Param>)
    ensures Added(fields + [field], params) ==
            if field in fields || EntryOf(field).None? then Added(fields, params)
            else Emplaced(Added(fields, params), Param(EntryOf(field).value.key, EntryOf(field).value.value))
  {
    var all := fields + [field];
    assert all[..|all| - 1] == fields && all[|all| - 1] == field;
  }

  lemma {:induction false} AddedIsSorted(fields: seq<string>, params: seq<Param>)
    requires Sorted(params)
    ensures Sorted(Added(fields, params))
    decreases |fields|
  {
    if fields != [] {
      var init, field := fields[..|fields| - 1], fields[|fields| - 1];
      AddedIsSorted(init, params);
      if field !in init && EntryOf(field).Some? {
        EmplacedIsSorted(Added(init, params), Param(EntryOf(field).value.key, EntryOf(field).value.value));
      }
    }
  }

  lemma AddedTake(fields: seq<string>, i: nat, params: seq<Param>)
    requires i < |fields|
    ensures Added(fields[..i + 1], params) ==
            var before, entry := Added(fields[..i], params), EntryOf(fields[i]);
            if fields[i] in fields[..i] || entry.None? then before
            else Emplaced(before, Param(entry.value.key, entry.value.value))
  {
    assert fields[..i + 1] == fields[..i] + [fields[i]];
    AddedSnoc(fields[..i], fields[i], params);
  }

  /** What a field adds that was not seen before. */
  method AddField(kv: string, before: seq<Param>) returns (params: seq<Param>)
    ensures params == if EntryOf(kv).None? then before
                      else Emplaced(before, Param(EntryOf(kv).value.key, EntryOf(kv).value.value))
  {
    var key, value, _ := Divide(kv, '=');
    params := before;
    if key != "" {
      var decodedKey := DecodeQueryComponent(key, true);
      var decodedValue := DecodeQueryComponent(value, true);
      params := Emplaced(params, Param(decodedKey, decodedValue));
    }
  }

  ghost predicate Cached(cache: set<string>, fields: seq<string>) {
    forall f :: f in cache <==> f in fields
  }

  lemma CachedOneMore(cache: set<string>, fields: seq<string>, i: nat)
    requires i < |fields| && Cached(cache, fields[..i])
    ensures Cached(cache + {fields[i]}, fields[..i + 1])
  {
    assert fields[..i + 1] == fields[..i] + [fields[i]];
  }

  /** The parser behind the first `i` fields. */
  ghost predicate ParsedTo(fields: seq<string>, i: nat, before: seq<Param>, cache: set<string>, params: seq<Param>) {
    i <= |fields| && params == Added(fields[..i], before) && Cached(cache, fields[..i])
  }

  /** One field: passed over when its text is in the cache. */
  method TakeField(fields: seq<string>, i: nat, ghost before: seq<Param>, seen: set<string>, taken: seq<Param>)
    returns (cache: set<string>, params: seq<Param>)
    requires i < |fields| && ParsedTo(fields, i, before, seen, taken)
    ensures ParsedTo(fields, i + 1, before, cache, params)
  {
    AddedTake(fields, i, before);
    CachedOneMore(seen, fields, i);
    params := taken;
    if fields[i] !in seen {
      params := AddField(fields[i], params);
    }
    cache := seen + {fields[i]};
  }

  method ParseQueryText(s: string, before: seq<Param>) returns (params: seq<Param>)
    requires Sorted(before)
    ensures params == Added(Fields(s, '&'), before) && Sorted(params)
  {
    var fields := Split(s, '&');
    var cache: set<string> := {};
    params := before;
    for i := 0 to |fields|
      invariant ParsedTo(fields, i, before, cache, params)
    {
      cache, params := TakeField(fields, i, before, cache, params);
    }
    assert fields[..|fields|] == fields;
    AddedIsSorted(fields, before);
  }

  // ----------------------------------------------------------- the printer

  predicate AllParams(ps: seq<Param>) {
    forall i :: 0 <= i < |ps| ==> Bytes(ps[i].key) && Bytes(ps[i].value)
  }

  function EntryFor(p: Param): Entry {
    Entry(p.key, p.value, true)
  }

  function AllEntriesFor(ps: seq<Param>): seq<Entry> {
    seq(|ps|, i requires 0 <= i < |ps| => EntryFor(ps[i]))
  }

  function QueryFor(ps: seq<Param>): string
    requires AllParams(ps)
  {
    QueryOf(AllEntriesFor(ps))
  }

  method ParamsToQueryStr(params: seq<Param>) returns (query: string)
    requires AllParams(params)
    ensures query == QueryFor(params)
  {
    query := "";
    for i := 0 to |params|
      invariant query == QueryFor(params[..i])
    {
      QueryForSnoc(params, i);
      if i != 0 {
        query := query + "&";
      }
      query := AppendField(query, params[i].key, params[i].value, true);
    }
    assert params[..|params|] == params;
  }

  lemma QueryForSnoc(params: seq<Param>, i: nat)
    requires AllParams(params) && i < |params|
    ensures QueryFor(params[..i + 1]) ==
            (if i == 0 then "" else QueryFor(params[..i]) + "&") + Printed(EntryFor(params[i]))
    ensures QueryFor(params[..0]) == ""
  {
    var e := EntryFor(params[i]);
    assert AllEntriesFor(params[..i + 1]) == AllEntriesFor(params[..i]) + [e];
    QuerySnoc(AllEntriesFor(params[..i]), e);
    assert "" + Printed(e) == Printed(e);
  }

  // ------------------------------------------------------------ round trip

  /** The parameters without empty keys, and of identical pairs only the first. */
  function Surviving(ps: seq<Param>): seq<Param> {
    if ps == [] then []
    else
      var init, last := ps[..|ps| - 1], ps[|ps| - 1];
      if last.key == "" || last in init then Surviving(init) else Surviving(init) + [last]
  }

  lemma {:induction false} SurvivorsAreParams(ps: seq<Param>)
    ensures forall p :: p in Surviving(ps) <==> p in ps && p.key != ""
    decreases |ps|
  {
    if ps != [] {
      var init, last := ps[..|ps| - 1], ps[|ps| - 1];
      assert ps == init + [last];
      SurvivorsAreParams(init);
    }
  }

  lemma PrintedOnce(p: Param, q: Param)
    requires Bytes(p.key) && Bytes(p.value) && Bytes(q.key) && Bytes(q.value) && p.key != ""
    requires Printed(EntryFor(p)) == Printed(EntryFor(q))
    ensures p == q
  {
    PrintedMeans(EntryFor(p));
    PrintedMeans(EntryFor(q));
  }

  lemma SeenBefore(ps: seq<Param>, p: Param)
    requires AllParams(ps) && Bytes(p.key) && Bytes(p.value) && p.key != ""
    ensures Printed(EntryFor(p)) in AllPrinted(AllEntriesFor(ps)) <==> p in ps
  {
    var fields := AllPrinted(AllEntriesFor(ps));
    if Printed(EntryFor(p)) in fields {
      var i :| 0 <= i < |fields| && fields[i] == Printed(EntryFor(p));
      PrintedOnce(p, ps[i]);
    }
    if p in ps {
      var i :| 0 <= i < |ps| && ps[i] == p;
      assert fields[i] == Printed(EntryFor(p));
    }
  }

  lemma FitsAtTheEnd(ps: seq<Param>, p: Param)
    requires Sorted(ps + [p])
    ensures Emplaced(Surviving(ps), p) == Surviving(ps) + [p]
  {
    var kept := Surviving(ps);
    SurvivorsAreParams(ps);
    if kept != [] {
      assert kept[|kept| - 1] in kept;
      var i :| 0 <= i < |ps| && ps[i] == kept[|kept| - 1];
      assert (ps + [p])[i] == ps[i] && (ps + [p])[|ps|] == p;
    }
  }

  lemma SurvivingSnoc(init: seq<Param>, last: Param)
    ensures Surviving(init + [last]) ==
            if last.key == "" || last in init then Surviving(init) else Surviving(init) + [last]
  {
    var ps := init + [last];
    assert ps[..|ps| - 1] == init && ps[|ps| - 1] == last;
  }

  lemma SurviveOneMore(init: seq<Param>, last: Param)
    requires Sorted(init + [last]) && AllParams(init) && Bytes(last.key) && Bytes(last.value)
    ensures var before := AllPrinted(AllEntriesFor(init));
            Added(before, []) == Surviving(init) ==>
              Added(before + [Printed(EntryFor(last))], []) == Surviving(init + [last])
  {
    AddedSnoc(AllPrinted(AllEntriesFor(init)), Printed(EntryFor(last)), []);
    SurvivingSnoc(init, last);
    PrintedMeans(EntryFor(last));
    if last.key != "" {
      SeenBefore(init, last);
      FitsAtTheEnd(init, last);
    }
  }

  lemma AllPrintedSnoc(init: seq<Param>, last: Param)
    requires AllParams(init) && Bytes(last.key) && Bytes(last.value)
    ensures AllPrinted(AllEntriesFor(init + [last])) == AllPrinted(AllEntriesFor(init)) + [Printed(EntryFor(last))]
  {
    assert AllEntriesFor(init + [last]) == AllEntriesFor(init) + [EntryFor(last)];
  }

  lemma {:induction false} AddedSurvive(ps: seq<Param>)
    requires Sorted(ps) && AllParams(ps)
    ensures Added(AllPrinted(AllEntriesFor(ps)), []) == Surviving(ps)
    decreases |ps|
  {
    if ps != [] {
      var init, last := ps[..|ps| - 1], ps[|ps| - 1];
      assert ps == init + [last];
      AddedSurvive(init);
      SurviveOneMore(init, last);
      AllPrintedSnoc(init, last);
    }
  }

  /** Printing the parameters and parsing the text gives them back, up to empty keys and repeated pairs. */
  lemma QueryRoundTrip(ps: seq<Param>)
    requires Sorted(ps) && AllParams(ps)
    ensures Added(Fields(QueryFor(ps), '&'), []) == Surviving(ps)
    ensures Surviving(ps) == ps <==> NothingToDrop(ps)
  {
    FieldsOfQuery(AllEntriesFor(ps));
    AddedSurvive(ps);
    SurvivingAll(ps);
  }

  ghost predicate NothingToDrop(ps: seq<Param>) {
    && (forall i :: 0 <= i < |ps| ==> ps[i].key != "")
    && (forall i, j :: 0 <= i < j < |ps| ==> ps[i] != ps[j])
  }

  lemma {:induction false} SurvivingAll(ps: seq<Param>)
    ensures |Surviving(ps)| <= |ps|
    ensures Surviving(ps) == ps <==> NothingToDrop(ps)
    decreases |ps|
  {
    if ps != [] {
      var init, last := ps[..|ps| - 1], ps[|ps| - 1];
      assert ps == init + [last];
      SurvivingAll(init);
      if last.key != "" && last !in init {
        SamePrefix(Surviving(init), init, last);
      }
    }
  }

  lemma SamePrefix(a: seq<Param>, b: seq<Param>, p: Param)
    ensures a + [p] == b + [p] <==> a == b
  {
    if a + [p] == b + [p] {
      assert (a + [p])[..|a|] == a && (b + [p])[..|b|] == b;
      assert |a + [p]| == |b + [p]|;
    }
  }
}
