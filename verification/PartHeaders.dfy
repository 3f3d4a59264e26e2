/** The header lines of a form entry: what the code accepts, and what it reads from them. */
module PartHeaders {
  import opened HeaderFields
  import opened PathCoding
  import opened QueryParams
  import opened Splitting
  import opened Strings

  /** The form entry being read, without its content; `headers` in the order they came. */
  datatype FormEntry = FormEntry(name: string, filename: string, contentType: string, headers: seq<(string, string)>)

  const BLANK := FormEntry("", "", "", [])

  // ------------------------------------------------------------ parameters

  function Unquoted(s: string): string {
    if |s| >= 2 && s[0] == '"' && s[|s| - 1] == '"' then s[1..|s| - 1] else s
  }

  /** One parameter: of the pieces between equal signs the first is the key, and the last of the others the value. */
  function ParamOf(kv: string): Option<Param> {
    var pieces := Fields(kv, '=');
    if pieces == [] then None
    else Some(Param(Unquoted(pieces[0]), if |pieces| == 1 then "" else Unquoted(pieces[|pieces| - 1])))
  }

  /** The parameters in the order they are taken in; a text seen before is passed over. */
  function ParamsOf(fields: seq<string>): seq<Param> {
    if fields == [] then []
    else
      var init, kv := fields[..|fields| - 1], fields[|fields| - 1];
      if kv in init || ParamOf(kv).None? then ParamsOf(init) else ParamsOf(init) + [ParamOf(kv).value]
  }

  /** find on a multimap: of equal keys the one taken in first. */
  function Lookup(params: seq<Param>, key: string): Option<string> {
    if params == [] then None
    else if params[0].key == key then Some(params[0].value)
    else Lookup(params[1..], key)
  }

  // ----------------------------------------------------------- header lines

  predicate StartsCaseless(a: string, b: string) {
    |b| <= |a| && forall i :: 0 <= i < |b| ==> Lower(a[i]) == Lower(b[i])
  }

  /** What is captured from a header line by ^Content-Disposition:\s*form-data;\s*(.*)$ without regard to case. */
  function Disposition(line: string): Option<string> {
    if !StartsCaseless(line, "Content-Disposition:") then None
    else
      var rest := WithoutBlanksInFront(line[20..]);
      if StartsCaseless(rest, "form-data;") then Some(WithoutBlanksInFront(rest[10..])) else None
  }

  /** What is captured by ^UTF-8''(.+?)$ without regard to case. */
  function Extended(value: string): Option<string> {
    if StartsCaseless(value, "UTF-8''") && |value| > 7 then Some(value[7..]) else None
  }

  function TakeParams(e: FormEntry, params: seq<Param>): (FormEntry, bool) {
    match Lookup(params, "name")
    case None => (e, false)
    case Some(name) =>
      var e := e.(name := name);
      var e := match Lookup(params, "filename") case None => e case Some(filename) => e.(filename := filename);
      match Lookup(params, "filename*")
      case None => (e, true)
      case Some(value) =>
        match Extended(value)
        case None => (e, false)
        case Some(text) => (e.(filename := DecodedPath(text)), true)
  }

  /** One header line of an entry, and whether it is accepted. */
  function DecodeLine(e: FormEntry, line: string): (FormEntry, bool) {
    match ReadField(line)
    case None => (e, false)
    case Some((name, value)) =>
      var e := e.(headers := e.headers + [(name, ValueOf(name, value))]);
      if StartsCaseless(line, "Content-Type:") then (e.(contentType := Trimmed(line[13..])), true)
      else
        match Disposition(line)
        case None => (e, true)
        case Some(text) => TakeParams(e, ParamsOf(Fields(text, ';')))
  }

  // --------------------------------------------------------------- the code

  method StartWithCaseIgnore(a: string, b: string) returns (starts: bool)
    ensures starts == StartsCaseless(a, b)
  {
    if |a| < |b| {
      return false;
    }
    for i := 0 to |b|
      invariant forall j :: 0 <= j < i ==> Lower(a[j]) == Lower(b[j])
    {
      if Lower(a[i]) != Lower(b[i]) {
        return false;
      }
    }
    starts := true;
  }

  method TrimDoubleQuotes(s: string) returns (r: string)
    ensures r == Unquoted(s)
    ensures |s| >= 2 && s[0] == '"' == s[|s| - 1] ==> s == "\"" + r + "\""
  {
    if |s| >= 2 && s[0] == '"' && s[|s| - 1] == '"' {
      return s[1..|s| - 1];
    }
    r := s;
  }

  /** The inner split, at the equal signs. */
  method ParseParam(kv: string) returns (param: Option<Param>)
    ensures param == ParamOf(kv)
  {
    var pieces := Splitting.Split(kv, '=');
    FieldsAreFree(kv, '=');
    var key, val := "", "";
    for i := 0 to |pieces|
      invariant key == if i == 0 then "" else pieces[0]
      invariant val == if i <= 1 then "" else pieces[i - 1]
    {
      if key == "" {
        key := pieces[i];
      } else {
        val := pieces[i];
      }
    }
    if key == "" {
      return None;
    }
    key := TrimDoubleQuotes(key);
    val := TrimDoubleQuotes(val);
    param := Some(Param(key, val));
  }

  lemma ParamsNext(fields: seq<string>, i: nat)
    requires i < |fields|
    ensures ParamsOf(fields[..i + 1]) ==
            ParamsOf(fields[..i])
            + (if fields[i] in fields[..i] || ParamOf(fields[i]).None? then [] else [ParamOf(fields[i]).value])
  {
    var more := fields[..i + 1];
    assert more[..|more| - 1] == fields[..i];
  }

  /** The callback of the outer split: a text in the cache is passed over. */
  method TakeField(fields: seq<string>, i: nat, seen: set<string>, taken: seq<Param>)
    returns (cache: set<string>, params: seq<Param>)
    requires i < |fields| && taken == ParamsOf(fields[..i]) && Cached(seen, fields[..i])
    ensures params == ParamsOf(fields[..i + 1]) && Cached(cache, fields[..i + 1])
  {
    ParamsNext(fields, i);
    CachedOneMore(seen, fields, i);
    cache, params := seen + {fields[i]}, taken;
    if fields[i] !in seen {
      var param := ParseParam(fields[i]);
      if param.Some? {
        params := params + [param.value];
      }
    }
  }

  method ParseDispositionParams(text: string) returns (params: seq<Param>)
    ensures params == ParamsOf(Fields(text, ';'))
  {
    var fields := Splitting.Split(text, ';');
    var cache: set<string> := {};
    params := [];
    for i := 0 to |fields|
      invariant params == ParamsOf(fields[..i]) && Cached(cache, fields[..i])
    {
      cache, params := TakeField(fields, i, cache, params);
    }
    assert fields[..|fields|] == fields;
  }

  method ReadPartHeader(before: FormEntry, line: string) returns (e: FormEntry, ok: bool)
    ensures (e, ok) == DecodeLine(before, line)
  {
    e := before;
    var field := ParseHeader(line);
    if field.None? {
      return e, false;
    }
    var (name, value) := field.value;
    e := e.(headers := e.headers + [(name, ValueOf(name, value))]);
    var isContentType := StartWithCaseIgnore(line, "Content-Type:");
    if isContentType {
      return e.(contentType := Trimmed(line[13..])), true;
    }
    var text := Disposition(line);
    if text.None? {
      return e, true;
    }
    var params := ParseDispositionParams(text.value);
    if Lookup(params, "name").None? {
      return e, false;
    }
    e := e.(name := Lookup(params, "name").value);
    if Lookup(params, "filename").Some? {
      e := e.(filename := Lookup(params, "filename").value);
    }
    if Lookup(params, "filename*").Some? {
      var extended := Extended(Lookup(params, "filename*").value);
      if extended.None? {
        return e, false;
      }
      e := e.(filename := DecodedPath(extended.value));
    }
    ok := true;
  }

  // --------------------------------------------------- what is captured

  /** The capture in general: any case, and any blanks behind the colon and the semicolon. */
  lemma DispositionMatches(head: string, front: string, kind: string, gap: string, text: string, line: string)
    requires |head| == 20 && StartsCaseless(head, "Content-Disposition:") && AllBlanks(front)
    requires |kind| == 10 && StartsCaseless(kind, "form-data;") && AllBlanks(gap)
    requires (text != "" ==> !Blank(text[0])) && line == head + (front + (kind + (gap + text)))
    ensures Disposition(line) == Some(text)
  {
    var rest, value := front + (kind + (gap + text)), kind + (gap + text);
    assert line[20..] == rest && forall i :: 0 <= i < 20 ==> line[i] == head[i];
    assert Lower(' ') != Lower('f') && Lower('\t') != Lower('f') && !Blank(kind[0]);
    assert rest[|front|] == kind[0] && forall i :: 0 <= i < |front| ==> rest[i] == front[i];
    BlanksInFrontAre(rest, |front|);
    assert rest[|front|..] == value && forall i :: 0 <= i < 10 ==> value[i] == kind[i];
    BehindBlanks(gap, text);
    assert value[10..] == gap + text;
  }

  lemma BehindBlanks(gap: string, text: string)
    requires AllBlanks(gap) && (text != "" ==> !Blank(text[0]))
    ensures WithoutBlanksInFront(gap + text) == text
  {
    BlanksInFrontAre(gap + text, |gap|);
    assert (gap + text)[|gap|..] == text;
  }

  lemma {:induction false} BlanksTaken(s: string) returns (front: string)
    ensures s == front + WithoutBlanksInFront(s) && AllBlanks(front)
    ensures WithoutBlanksInFront(s) != "" ==> !Blank(WithoutBlanksInFront(s)[0])
    decreases |s|
  {
    front := "";
    if s != "" && Blank(s[0]) {
      front := BlanksTaken(s[1..]);
      front := [s[0]] + front;
      assert s == [s[0]] + s[1..];
    }
  }

  lemma StartsSplit(a: string, b: string) returns (head: string, rest: string)
    requires StartsCaseless(a, b)
    ensures a == head + rest && |head| == |b| && StartsCaseless(head, b) && rest == a[|b|..]
  {
    head, rest := a[..|b|], a[|b|..];
  }

  /** Nothing else is captured. */
  lemma DispositionNeeds(line: string) returns (head: string, front: string, kind: string, gap: string)
    requires Disposition(line).Some?
    ensures |head| == 20 && StartsCaseless(head, "Content-Disposition:") && AllBlanks(front)
    ensures |kind| == 10 && StartsCaseless(kind, "form-data;") && AllBlanks(gap)
    ensures line == head + (front + (kind + (gap + Disposition(line).value)))
    ensures var text := Disposition(line).value; text != "" ==> !Blank(text[0])
  {
    var rest, more;
    head, rest := StartsSplit(line, "Content-Disposition:");
    front := BlanksTaken(rest);
    kind, more := StartsSplit(WithoutBlanksInFront(rest), "form-data;");
    gap := BlanksTaken(more);
  }

  lemma DispositionIs(text: string, line: string)
    requires text != "" && !Blank(text[0]) && line == "Content-Disposition" + ": " + ("form-data; " + text)
    ensures Disposition(line) == Some(text) && !StartsCaseless(line, "Content-Type:")
  {
    assert line == "Content-Disposition:" + (" " + ("form-data;" + (" " + text)));
    DispositionMatches("Content-Disposition:", " ", "form-data;", " ", text, line);
    assert line[8] == 'D' && Lower('D') != Lower('T');
  }

  // ------------------------------------------------ what parameters say

  /** No blanks to trim. */
  predicate TightEnds(s: string) {
    s != "" ==> !Blank(s[0]) && !Blank(s[|s| - 1])
  }

  lemma OneBlankTrimmed(s: string)
    requires TightEnds(s)
    ensures Trimmed(" " + s) == s
  {
    assert (" " + s)[1..] == s;
    assert Trimmed(s) == s;
  }

  lemma KeptWhole(s: string, field: string)
    requires field != "" && TightEnds(field) && (s == field || s == " " + field)
    ensures Kept(s) == [field]
  {
    OneBlankTrimmed(field);
    assert Trimmed(field) == field;
  }

  lemma TwoPieces(key: string, value: string, kv: string)
    requires Solid(key) && '=' !in key && '=' !in value && kv == key + ['='] + value
    requires value != "" && !Blank(value[0]) && !Blank(value[|value| - 1])
    ensures Fields(kv, '=') == [key, value]
  {
    FieldsFront(key, value, '=');
    NoSeparatorNoSplit(value, '=');
    KeptAsIs(key);
    assert Trimmed(value) == value;
  }

  lemma UnquotedIs(value: string, quoted: string)
    requires quoted == ['"'] + value + ['"']
    ensures Unquoted(quoted) == value && quoted != "" && !Blank(quoted[0]) && !Blank(quoted[|quoted| - 1])
    ensures '=' !in value ==> '=' !in quoted
  {
    assert quoted[1..|quoted| - 1] == value;
  }

  /** A key with a quoted value is read as it was printed. */
  lemma QuotedParam(key: string, value: string, kv: string)
    requires Solid(key) && key[0] != '"' && '=' !in key && '=' !in value && kv == key + "=\"" + value + "\""
    ensures ParamOf(kv) == Some(Param(key, value))
  {
    var quoted := ['"'] + value + ['"'];
    assert kv == key + ['='] + quoted;
    UnquotedIs(value, quoted);
    TwoPieces(key, quoted, kv);
  }

  /** A value without quotes. */
  lemma PlainParam(key: string, value: string, kv: string)
    requires Solid(key) && key[0] != '"' && '=' !in key && '=' !in value && kv == key + ['='] + value
    requires value != "" && value[0] != '"' && TightEnds(value)
    ensures ParamOf(kv) == Some(Param(key, value))
  {
    TwoPieces(key, value, kv);
  }

  lemma ParamIsFree(kv: string)
    requires ParamOf(kv).Some?
    ensures '=' !in ParamOf(kv).value.value && (';' !in kv ==> ';' !in ParamOf(kv).value.value)
  {
    var pieces := Fields(kv, '=');
    FieldsAreFree(kv, '=');
    var last := pieces[|pieces| - 1];
    PiecesArePart(kv, '=');
    assert last in pieces;
  }

  lemma {:induction false} ScanIsPart(s: string, d: char)
    ensures forall p, c :: p in Scan(s, d).0 && c in p ==> c in s
    ensures forall c :: c in Scan(s, d).1 ==> c in s
    decreases |s|
  {
    if s != "" {
      ScanIsPart(s[..|s| - 1], d);
      TrimmedIsPart(Scan(s[..|s| - 1], d).1);
    }
  }

  lemma PiecesArePart(s: string, d: char)
    ensures forall p, c :: p in Fields(s, d) && c in p ==> c in s
  {
    ScanIsPart(s, d);
    TrimmedIsPart(Scan(s, d).1);
  }

  lemma ParamIsShort(kv: string)
    requires ParamOf(kv).Some?
    ensures var p := ParamOf(kv).value; p.value == "" || |p.key| + 1 + |p.value| <= |kv|
  {
    FieldsAreShort(kv, '=');
  }

  lemma {:induction false} LookupSnoc(params: seq<Param>, p: Param, key: string)
    ensures Lookup(params + [p], key) ==
            if Lookup(params, key).Some? then Lookup(params, key) else if p.key == key then Some(p.value) else None
    decreases |params|
  {
    if params == [] {
      assert ([] + [p])[1..] == [];
    } else {
      assert (params + [p])[1..] == params[1..] + [p];
      LookupSnoc(params[1..], p, key);
    }
  }

  /** A value found under a key is that of some field. */
  lemma {:induction false} LookupComes(fields: seq<string>, key: string, value: string) returns (kv: string)
    requires Lookup(ParamsOf(fields), key) == Some(value)
    ensures kv in fields && ParamOf(kv) == Some(Param(key, value))
    decreases |fields|
  {
    var init, last := fields[..|fields| - 1], fields[|fields| - 1];
    kv := last;
    if last !in init && ParamOf(last).Some? {
      LookupSnoc(ParamsOf(init), ParamOf(last).value, key);
    }
    if Lookup(ParamsOf(init), key).Some? {
      kv := LookupComes(init, key, value);
      assert kv in init;
    }
  }

  lemma LookupTwo(a: Param, b: Param, key: string)
    ensures Lookup([a, b], key) == if a.key == key then Some(a.value) else if b.key == key then Some(b.value) else None
    ensures Lookup([a], key) == if a.key == key then Some(a.value) else None
  {
    assert [a][1..] == [] && [b][1..] == [];
    assert Lookup([b], key) == if b.key == key then Some(b.value) else None;
    assert [a, b][1..] == [b];
  }

  predicate NoSeparator(s: string) {
    ';' !in s && '=' !in s
  }

  lemma ParamsOfOne(kv: string)
    requires ParamOf(kv).Some?
    ensures ParamsOf([kv]) == [ParamOf(kv).value]
  {
    assert [kv][..0] == [];
  }

  lemma ParamsOfTwo(a: string, b: string)
    requires ParamOf(a).Some? && ParamOf(b).Some? && a != b
    ensures ParamsOf([a, b]) == [ParamOf(a).value, ParamOf(b).value]
  {
    ParamsOfOne(a);
    assert [a, b][..1] == [a];
  }

  lemma ValuesAreFree(text: string, key: string)
    ensures var found := Lookup(ParamsOf(Fields(text, ';')), key); found.Some? ==> NoSeparator(found.value)
  {
    var fields := Fields(text, ';');
    if Lookup(ParamsOf(fields), key).Some? {
      var kv := LookupComes(fields, key, Lookup(ParamsOf(fields), key).value);
      FieldsAreFree(text, ';');
      ParamIsFree(kv);
    }
  }

  lemma KeysDiffer()
    ensures "name" != "filename" && "filename" != "filename*" && "name" != "filename*"
  {
    assert |"name"| == 4 && |"filename"| == 8 && |"filename*"| == 9;
  }

  lemma Different(first: string, second: string)
    requires "n" <= first && "f" <= second
    ensures first != second
  {
    assert first[0] == 'n' && second[0] == 'f';
  }

  lemma NameParam(name: string, first: string)
    requires NoSeparator(name) && first == "name=\"" + name + "\""
    ensures ParamOf(first) == Some(Param("name", name))
  {
    QuotedParam("name", name, first);
  }

  lemma FieldsOfTwo(first: string, second: string, text: string)
    requires ';' !in first && ';' !in second && first != "" && second != "" && TightEnds(first) && TightEnds(second)
    requires text == first + [';'] + (" " + second)
    ensures Fields(text, ';') == [first, second]
  {
    FieldsFront(first, " " + second, ';');
    NoSeparatorNoSplit(" " + second, ';');
    KeptWhole(first, first);
    KeptWhole(" " + second, second);
  }

  // ------------------------------------------------------- single lines

  lemma ThreePieces(key: string, middle: string, last: string, kv: string)
    requires Solid(key) && '=' !in key && '=' !in middle && '=' !in last
    requires last != "" && TightEnds(last)
    requires kv == key + ['='] + (middle + ['='] + last)
    ensures Fields(kv, '=') == [key] + (Kept(middle) + [last])
  {
    FieldsFront(key, middle + ['='] + last, '=');
    FieldsFront(middle, last, '=');
    NoSeparatorNoSplit(last, '=');
    KeptAsIs(key);
    KeptWhole(last, last);
  }

  lemma ParamOfPieces(key: string, middle: seq<string>, last: string, kv: string)
    requires Fields(kv, '=') == [key] + (middle + [last]) && key != "" && key[0] != '"' && last != "" && last[0] != '"'
    ensures ParamOf(kv) == Some(Param(key, last))
  {
    var pieces := [key] + (middle + [last]);
    assert pieces[|pieces| - 1] == last;
  }

  /** A name with an equal sign is read as what follows the sign, closing quote included. */
  lemma EqualSignCutsName(a: string, b: string, kv: string)
    requires '=' !in a && '=' !in b && b != "" && !Blank(b[0]) && b[0] != '"'
    requires kv == "name=\"" + a + "=" + b + "\""
    ensures ParamOf(kv) == Some(Param("name", b + "\""))
  {
    var middle, last := ['"'] + a, b + ['"'];
    assert kv == "name" + ['='] + (middle + ['='] + last);
    ThreePieces("name", middle, last, kv);
    ParamOfPieces("name", Kept(middle), last, kv);
  }

  lemma OneField(field: string)
    requires ';' !in field && field != "" && TightEnds(field)
    ensures Fields(field, ';') == [field]
  {
    KeptWhole(field, field);
    NoSeparatorNoSplit(field, ';');
  }

  lemma FilenameOnly(filename: string, text: string)
    requires NoSeparator(filename) && text == "filename=\"" + filename + "\""
    ensures Fields(text, ';') == [text] && ParamOf(text) == Some(Param("filename", filename))
  {
    OneField(text);
    QuotedParam("filename", filename, text);
  }

  lemma Nameless(e: FormEntry, filename: string, text: string)
    requires Fields(text, ';') == [text] && ParamOf(text) == Some(Param("filename", filename))
    ensures !TakeParams(e, ParamsOf(Fields(text, ';'))).1
  {
    ParamsOfOne(text);
    KeysDiffer();
    LookupTwo(Param("filename", filename), Param("filename", filename), "name");
  }

  lemma DispositionDecides(e: FormEntry, text: string, line: string)
    requires Disposition(line) == Some(text) && !StartsCaseless(line, "Content-Type:")
    requires forall e' :: !TakeParams(e', ParamsOf(Fields(text, ';'))).1
    ensures !DecodeLine(e, line).1
  {
  }

  /** A part without a name is refused. */
  lemma NamelessIsRefused(e: FormEntry, filename: string, text: string)
    requires NoSeparator(filename) && text == "filename=\"" + filename + "\""
    ensures !DecodeLine(e, "Content-Disposition" + ": " + ("form-data; " + text)).1
  {
    FilenameOnly(filename, text);
    DispositionIs(text, "Content-Disposition" + ": " + ("form-data; " + text));
    forall e' ensures !TakeParams(e', ParamsOf(Fields(text, ';'))).1 {
      Nameless(e', filename, text);
    }
    DispositionDecides(e, text, "Content-Disposition" + ": " + ("form-data; " + text));
  }

  lemma ExtendedIs(enc: string, value: string)
    requires value == "UTF-8''" + enc
    ensures Extended(value) == if enc == "" then None else Some(enc)
  {
    assert value[..7] == "UTF-8''" && value[7..] == enc;
  }

  lemma TakesExtended(e: FormEntry, name: string, value: string)
    ensures TakeParams(e, [Param("name", name), Param("filename*", value)]) ==
            match Extended(value)
            case None => (e.(name := name), false)
            case Some(enc) => (e.(name := name, filename := DecodedPath(enc)), true)
  {
    KeysDiffer();
    LookupTwo(Param("name", name), Param("filename*", value), "name");
    LookupTwo(Param("name", name), Param("filename*", value), "filename");
    LookupTwo(Param("name", name), Param("filename*", value), "filename*");
  }

  lemma NamesApart(name: string, first: string, second: string, value: string)
    requires ';' !in name && first == "name=\"" + name + "\"" && second == "filename*=" + value
    ensures "n" <= first && "f" <= second && ';' !in first && TightEnds(first)
  {
  }

  lemma SemicolonAndBlank(first: string, second: string)
    ensures first + "; " + second == first + [';'] + (" " + second)
  {
  }

  lemma ExtendedFields(first: string, second: string, text: string, name: string, value: string)
    requires ParamOf(first) == Some(Param("name", name)) && ParamOf(second) == Some(Param("filename*", value))
    requires "n" <= first && "f" <= second && ';' !in first && ';' !in second
    requires TightEnds(first) && TightEnds(second) && text == first + [';'] + (" " + second)
    ensures ParamsOf(Fields(text, ';')) == [Param("name", name), Param("filename*", value)]
  {
    FieldsOfTwo(first, second, text);
    Different(first, second);
    ParamsOfTwo(first, second);
  }

  lemma ExtendedParam(enc: string, value: string, kv: string)
    requires NoSeparator(enc) && (enc != "" ==> !Blank(enc[|enc| - 1]))
    requires value == "UTF-8''" + enc && kv == "filename*=" + value
    ensures ParamOf(kv) == Some(Param("filename*", value)) && ';' !in kv && kv != "" && TightEnds(kv)
  {
    assert kv == "filename*" + ['='] + value && kv[0] == 'f' && kv[|kv| - 1] == value[|value| - 1];
    PlainParam("filename*", value, kv);
  }

  /** An extended filename in UTF-8 is percent-decoded; without any text it is refused. */
  lemma ExtendedFilename(e: FormEntry, name: string, enc: string,
                         first: string, second: string)
    requires NoSeparator(name) && NoSeparator(enc) && (enc != "" ==> !Blank(enc[|enc| - 1]))
    requires first == "name=\"" + name + "\"" && second == "filename*=" + ("UTF-8''" + enc)
    ensures TakeParams(e, ParamsOf(Fields(first + "; " + second, ';'))) ==
            if enc == "" then (e.(name := name), false) else (e.(name := name, filename := DecodedPath(enc)), true)
  {
    var value := "UTF-8''" + enc;
    ExtendedParam(enc, value, second);
    NameParam(name, first);
    NamesApart(name, first, second, value);
    SemicolonAndBlank(first, second);
    ExtendedFields(first, second, first + "; " + second, name, value);
    ExtendedIs(enc, value);
    TakesExtended(e, name, value);
  }

  lemma TypeLineIs(e: FormEntry, line: string)
    requires StartsCaseless(line, "Content-Type:")
    ensures var (e', ok) := DecodeLine(e, line);
            && ok == ReadField(line).Some? && e'.name == e.name && e'.filename == e.filename
            && (ok ==> e'.contentType == Trimmed(line[13..]))
  {
  }

  lemma ParamsLeaveHeaders(e: FormEntry, params: seq<Param>)
    ensures TakeParams(e, params).0.headers == e.headers
  {
  }

  /** Every field line is added to the headers of the entry, whatever else becomes of it. */
  lemma EveryLineIsKept(e: FormEntry, line: string)
    ensures DecodeLine(e, line).0.headers ==
            match ReadField(line)
            case None => e.headers
            case Some((name, value)) => e.headers + [(name, ValueOf(name, value))]
  {
    if ReadField(line).Some? && Disposition(line).Some? {
      var (name, value) := ReadField(line).value;
      ParamsLeaveHeaders(e.(headers := e.headers + [(name, ValueOf(name, value))]),
                         ParamsOf(Fields(Disposition(line).value, ';')));
    }
  }
}
