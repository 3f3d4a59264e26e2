/** Query strings: printing and parsing parameters, and the normal form of a query. */
module Queries {
  import opened PercentCoding
  import opened Splitting
  import opened Strings

  /** One decoded field; `hasEquals` says whether it had an `=`. */
  datatype Entry = Entry(key: string, value: string, hasEquals: bool)

  predicate IsEntry(e: Entry) {
    Bytes(e.key) && Bytes(e.value) && (!e.hasEquals ==> e.value == "")
  }

  /** What a field means; nothing without a key. */
  function EntryOf(field: string): Option<Entry> {
    var (key, value, hasEquals) := Divided(field, '=');
    if key == "" then None else Some(Entry(Decoded(key, true), Decoded(value, true), hasEquals))
  }

  function EntriesOf(fields: seq<string>): seq<Entry> {
    if fields == [] then []
    else
      var before := EntriesOf(fields[..|fields| - 1]);
      match EntryOf(fields[|fields| - 1])
      case None => before
      case Some(e) => before + [e]
  }

  /** What a query means: its fields in order, decoded. */
  function Entries(query: string): seq<Entry> {
    EntriesOf(Fields(query, '&'))
  }

  function Printed(e: Entry): string
    requires IsEntry(e)
  {
    Encoded(e.key, true) + if e.hasEquals then "=" + Encoded(e.value, true) else ""
  }

  predicate AllEntries(es: seq<Entry>) {
    forall i :: 0 <= i < |es| ==> IsEntry(es[i])
  }

  function AllPrinted(es: seq<Entry>): seq<string>
    requires AllEntries(es)
  {
    seq(|es|, i requires 0 <= i < |es| => Printed(es[i]))
  }

  function QueryOf(es: seq<Entry>): string
    requires AllEntries(es)
  {
    Joined(AllPrinted(es), '&')
  }

  // ---------------------------------------------------- one field at a time

  /** A printed field survives split as it is, if anything was printed. */
  lemma PrintedIsSolid(e: Entry)
    requires IsEntry(e)
    ensures '&' !in Printed(e) && NoBlank(Printed(e)) && Bytes(Printed(e))
    ensures e.key != "" || e.hasEquals ==> Printed(e) != ""
  {
    EncodedIsClean(e.key, true);
    EncodedIsClean(e.value, true);
    var p := Printed(e);
    forall i | 0 <= i < |p| ensures p[i] != '&' && !Blank(p[i]) && IsByte(p[i]) {
      if i > |Encoded(e.key, true)| {
        assert p[i] == Encoded(e.value, true)[i - |Encoded(e.key, true)| - 1];
      }
    }
  }

  lemma PrintedDivides(e: Entry)
    requires IsEntry(e)
    ensures Divided(Printed(e), '=') == (Encoded(e.key, true), Encoded(e.value, true), e.hasEquals)
  {
    var key, value := Encoded(e.key, true), Encoded(e.value, true);
    EncodedIsClean(e.key, true);
    DividedIs(key, value, '=');
    if e.hasEquals {
      assert Printed(e) == key + ['='] + value;
    } else {
      assert Printed(e) == key && value == "";
    }
  }

  lemma PrintedMeans(e: Entry)
    requires IsEntry(e)
    ensures EntryOf(Printed(e)) == if e.key == "" then None else Some(e)
  {
    PrintedDivides(e);
    EncodedIsClean(e.key, true);
    DecodeEncode(e.key, true, true);
    DecodeEncode(e.value, true, true);
  }

  lemma MeaningIsEntry(field: string)
    requires Bytes(field) && EntryOf(field).Some?
    ensures IsEntry(EntryOf(field).value) && EntryOf(field).value.key != ""
  {
    var (key, value, hasEquals) := Divided(field, '=');
    assert Bytes(key) by {
      forall i | 0 <= i < |key| ensures IsByte(key[i]) {
        assert key[i] == field[i];
      }
    }
    assert Bytes(value) by {
      forall i | 0 <= i < |value| ensures IsByte(value[i]) {
        assert value[i] == field[|key| + 1 + i];
      }
    }
    DecodedBytes(key, true);
    DecodedBytes(value, true);
  }

  lemma {:induction false} PlusMeansSpace(s: string)
    requires Bytes(s)
    ensures '+' in Encoded(s, true) <==> ' ' in s
  {
    if s != "" {
      PlusMeansSpace(s[1..]);
      assert s == [s[0]] + s[1..];
      assert '+' in EncodedChar(s[0], true) <==> s[0] == ' ';
    }
  }

  /** A printed field says plus exactly where its key or its value has a space. */
  lemma SpacesArePrintedAsPlus(e: Entry)
    requires IsEntry(e)
    ensures '+' in Printed(e) <==> ' ' in e.key || ' ' in e.value
  {
    PlusMeansSpace(e.key);
    PlusMeansSpace(e.value);
  }

  // --------------------------------------------------------- whole queries

  predicate AllKeyed(es: seq<Entry>) {
    forall i :: 0 <= i < |es| ==> es[i].key != ""
  }

  lemma FieldsOfQuery(es: seq<Entry>)
    requires AllEntries(es) && forall i :: 0 <= i < |es| ==> es[i].key != "" || es[i].hasEquals
    ensures Fields(QueryOf(es), '&') == AllPrinted(es)
  {
    var ps := AllPrinted(es);
    forall i | 0 <= i < |ps| ensures '&' !in ps[i] && Solid(ps[i]) {
      PrintedIsSolid(es[i]);
    }
    FieldsOfJoined(ps, '&');
    AllKeptAsIs(ps);
  }

  lemma EntriesSnoc(fields: seq<string>, field: string)
    ensures EntriesOf(fields + [field]) ==
            match EntryOf(field)
            case None => EntriesOf(fields)
            case Some(e) => EntriesOf(fields) + [e]
  {
    var all := fields + [field];
    assert all[..|all| - 1] == fields && all[|all| - 1] == field;
  }

  lemma PrintedSnoc(es: seq<Entry>)
    requires AllEntries(es) && es != []
    ensures AllEntries(es[..|es| - 1])
    ensures AllPrinted(es) == AllPrinted(es[..|es| - 1]) + [Printed(es[|es| - 1])]
  {
  }

  lemma {:induction false} PrintedEntriesMean(es: seq<Entry>)
    requires AllEntries(es) && AllKeyed(es)
    ensures EntriesOf(AllPrinted(es)) == es
    decreases |es|
  {
    if es != [] {
      var init, last := es[..|es| - 1], es[|es| - 1];
      assert es == init + [last];
      PrintedSnoc(es);
      PrintedEntriesMean(init);
      PrintedMeans(last);
      EntriesSnoc(AllPrinted(init), Printed(last));
    }
  }

  predicate AllBytes(fields: seq<string>) {
    forall i :: 0 <= i < |fields| ==> Bytes(fields[i])
  }

  lemma {:induction false} FieldsMean(fields: seq<string>)
    requires AllBytes(fields)
    ensures AllEntries(EntriesOf(fields)) && AllKeyed(EntriesOf(fields))
    decreases |fields|
  {
    if fields != [] {
      FieldsMean(fields[..|fields| - 1]);
      if EntryOf(fields[|fields| - 1]).Some? {
        MeaningIsEntry(fields[|fields| - 1]);
      }
    }
  }

  lemma {:induction false} TrimmedBytes(s: string)
    requires Bytes(s)
    ensures Bytes(Trimmed(s))
    decreases |s|
  {
    if s != "" && Blank(s[0]) {
      TrimmedBytes(s[1..]);
    } else if s != "" && Blank(s[|s| - 1]) {
      TrimmedBytes(s[..|s| - 1]);
    }
  }

  lemma {:induction false} ScanBytes(s: string)
    requires Bytes(s)
    ensures AllBytes(Scan(s, '&').0) && Bytes(Scan(s, '&').1)
    decreases |s|
  {
    if s != "" {
      ScanBytes(s[..|s| - 1]);
      TrimmedBytes(Scan(s[..|s| - 1], '&').1);
    }
  }

  lemma EntriesAreEntries(query: string)
    requires Bytes(query)
    ensures AllEntries(Entries(query)) && AllKeyed(Entries(query))
  {
    ScanBytes(query);
    TrimmedBytes(Scan(query, '&').1);
    FieldsMean(Fields(query, '&'));
  }

  /** Printing entries and reading them again gives the same entries. */
  lemma EntriesRoundTrip(es: seq<Entry>)
    requires AllEntries(es) && AllKeyed(es)
    ensures Entries(QueryOf(es)) == es
  {
    FieldsOfQuery(es);
    PrintedEntriesMean(es);
  }

  // ------------------------------------------------------------ normal form

  function Normalized(query: string): string
    requires Bytes(query)
  {
    EntriesAreEntries(query);
    QueryOf(Entries(query))
  }

  lemma {:induction false} JoinedBytes(parts: seq<string>)
    requires AllBytes(parts)
    ensures Bytes(Joined(parts, '&'))
    decreases |parts|
  {
    if |parts| > 1 {
      JoinedBytes(parts[..|parts| - 1]);
    }
  }

  /** The normal form keeps the meaning, is its own normal form, and depends on nothing but the meaning. */
  lemma NormalForm(query: string, other: string)
    requires Bytes(query) && Bytes(other)
    ensures Bytes(Normalized(query))
    ensures Entries(Normalized(query)) == Entries(query)
    ensures Normalized(Normalized(query)) == Normalized(query)
    ensures Normalized(query) == Normalized(other) <==> Entries(query) == Entries(other)
  {
    NormalMeans(query);
    NormalMeans(other);
  }

  lemma NormalMeans(query: string)
    requires Bytes(query)
    ensures Bytes(Normalized(query)) && Entries(Normalized(query)) == Entries(query)
  {
    EntriesAreEntries(query);
    var es := Entries(query);
    EntriesRoundTrip(es);
    forall i | 0 <= i < |es| ensures Bytes(AllPrinted(es)[i]) {
      PrintedIsSolid(es[i]);
    }
    JoinedBytes(AllPrinted(es));
  }

  lemma QuerySnoc(es: seq<Entry>, e: Entry)
    requires AllEntries(es) && IsEntry(e)
    ensures AllEntries(es + [e])
    ensures QueryOf(es + [e]) == if es == [] then Printed(e) else QueryOf(es) + "&" + Printed(e)
  {
    PrintedSnoc(es + [e]);
    assert (es + [e])[..|es|] == es;
    var ps := AllPrinted(es + [e]);
    assert ps[..|ps| - 1] == AllPrinted(es);
  }

  lemma QueryEmpty(es: seq<Entry>)
    requires AllEntries(es) && AllKeyed(es)
    ensures QueryOf(es) == "" <==> es == []
  {
    if es != [] {
      var init, last := es[..|es| - 1], es[|es| - 1];
      assert es == init + [last];
      QuerySnoc(init, last);
      PrintedIsSolid(last);
    }
  }

  /** What normalize_query_string has written when it has read `i` fields. */
  ghost predicate Writes(fields: seq<string>, i: nat, result: string) {
    && i <= |fields| && AllEntries(EntriesOf(fields[..i])) && AllKeyed(EntriesOf(fields[..i]))
    && result == QueryOf(EntriesOf(fields[..i]))
  }

  lemma QueryGrows(es: seq<Entry>, e: Entry)
    requires AllEntries(es) && AllKeyed(es) && IsEntry(e) && e.key != ""
    ensures AllEntries(es + [e]) && AllKeyed(es + [e])
    ensures QueryOf(es + [e]) == (if QueryOf(es) == "" then "" else QueryOf(es) + "&") + Printed(e)
  {
    QueryEmpty(es);
    QuerySnoc(es, e);
    assert "" + Printed(e) == Printed(e);
  }

  lemma WritesNext(fields: seq<string>, i: nat, result: string)
    requires i < |fields| && Bytes(fields[i]) && Writes(fields, i, result)
    ensures EntryOf(fields[i]).None? ==> Writes(fields, i + 1, result)
    ensures EntryOf(fields[i]).Some? ==> IsEntry(EntryOf(fields[i]).value)
    ensures EntryOf(fields[i]).Some? ==>
              Writes(fields, i + 1, (if result == "" then "" else result + "&") + Printed(EntryOf(fields[i]).value))
  {
    var es := EntriesOf(fields[..i]);
    assert fields[..i + 1] == fields[..i] + [fields[i]];
    EntriesSnoc(fields[..i], fields[i]);
    if EntryOf(fields[i]).Some? {
      MeaningIsEntry(fields[i]);
      QueryGrows(es, EntryOf(fields[i]).value);
    }
  }

  lemma FieldsAreBytes(query: string)
    requires Bytes(query)
    ensures AllBytes(Fields(query, '&'))
  {
    ScanBytes(query);
    TrimmedBytes(Scan(query, '&').1);
  }

  method NormalizeQueryString(query: string) returns (result: string)
    requires Bytes(query)
    ensures result == Normalized(query)
  {
    var fields := Split(query, '&');
    FieldsAreBytes(query);
    result := "";
    assert fields[..0] == [];
    for i := 0 to |fields|
      invariant Writes(fields, i, result)
    {
      var key, value, found := Divide(fields[i], '=');
      WritesNext(fields, i, result);
      if key != "" {
        MeaningIsEntry(fields[i]);
        var decodedKey := DecodeQueryComponent(key, true);
        var decodedValue := DecodeQueryComponent(value, true);
        if result != "" {
          result := result + "&";
        }
        result := AppendField(result, decodedKey, decodedValue, value != "" || found);
      }
    }
    assert fields[..|fields|] == fields;
  }

  method AppendField(before: string, key: string, value: string, hasEquals: bool) returns (result: string)
    requires IsEntry(Entry(key, value, hasEquals))
    ensures result == before + Printed(Entry(key, value, hasEquals))
  {
    var encodedKey := EncodeQueryComponent(key, true);
    result := before + encodedKey;
    if hasEquals {
      var encodedValue := EncodeQueryComponent(value, true);
      assert before + encodedKey + "=" + encodedValue == before + (encodedKey + ("=" + encodedValue));
      result := result + "=" + encodedValue;
    }
  }

  /** The code's divide, and whether the separator occurs at all. */
  method Divide(s: string, d: char) returns (lhs: string, rhs: string, found: bool)
    ensures (lhs, rhs, found) == Divided(s, d)
  {
    var it := 0;
    while it < |s| && s[it] != d
      invariant 0 <= it <= |s|
      invariant forall j :: 0 <= j < it ==> s[j] != d
    {
      it := it + 1;
    }
    found := it != |s|;
    lhs := s[..it];
    rhs := if found then s[it + 1..] else s[it..];
    IndexOfIs(s, d, it);
    assert !found ==> lhs == s && rhs == "";
  }
}
