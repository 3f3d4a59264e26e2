/** The items of a form: which of them come back from the header lines printed for them, and from a whole form. */
module FormItems {
  import opened HeaderFields
  import opened Multipart
  import opened MultipartRefusals
  import opened MultipartRoundTrip
  import opened PartHeaders
  import opened PathCoding
  import opened QueryParams
  import opened Splitting
  import opened Strings

  // ----------------------------------------------- printed header lines

  function ParamText(item: UploadFormData): string {
    "name=\"" + item.name + "\"" + (if item.filename != "" then "; filename=\"" + item.filename + "\"" else "")
  }

  lemma DispositionLine(item: UploadFormData)
    ensures HeadersOf(item)[0] == "Content-Disposition" + ": " + ("form-data; " + ParamText(item))
  {
  }

  lemma TextInside(before: string, s: string, behind: string)
    ensures FieldText(before + s + behind) <==> FieldText(before) && FieldText(s) && FieldText(behind)
  {
    var all := before + s + behind;
    assert forall i :: 0 <= i < |before| ==> all[i] == before[i];
    assert forall i :: 0 <= i < |s| ==> all[|before| + i] == s[i];
    assert forall i :: 0 <= i < |behind| ==> all[|before| + |s| + i] == behind[i];
  }

  lemma DispositionText(item: UploadFormData)
    ensures FieldText("form-data; " + ParamText(item)) <==> FieldText(item.name) && FieldText(item.filename)
  {
    TextInside("name=\"", item.name, "\"");
    TextInside("; filename=\"", item.filename, "\"");
    var front := "name=\"" + item.name + "\"";
    var behind := if item.filename != "" then "; filename=\"" + item.filename + "\"" else "";
    TextInside("form-data; ", front, behind);
    assert "form-data; " + ParamText(item) == "form-data; " + front + behind;
  }

  /** The line is a field line exactly when name and filename are field text. */
  lemma DispositionReads(item: UploadFormData)
    ensures ReadField(HeadersOf(item)[0]) ==
            if FieldText(item.name) && FieldText(item.filename)
            then Some(("Content-Disposition", "form-data; " + ParamText(item))) else None
  {
    var value := "form-data; " + ParamText(item);
    DispositionLine(item);
    DispositionText(item);
    assert value[0] == 'f' && value[|value| - 1] == '"';
    PrintedFieldIs("Content-Disposition", value);
  }

  /** What the first line of a printed item comes to. */
  lemma FirstLineIs(e: FormEntry, item: UploadFormData)
    requires FieldText(item.name) && FieldText(item.filename)
    ensures var value := "form-data; " + ParamText(item);
            var headers := e.headers + [("Content-Disposition", ValueOf("Content-Disposition", value))];
            DecodeLine(e, HeadersOf(item)[0]) ==
            TakeParams(e.(headers := headers), ParamsOf(Fields(ParamText(item), ';')))
  {
    DispositionReads(item);
    DispositionLine(item);
    DispositionIs(ParamText(item), HeadersOf(item)[0]);
  }

  // ----------------------------------------------- names that come back

  /** Names that a first line can carry. */
  predicate NamesCarried(item: UploadFormData) {
    FieldText(item.name) && FieldText(item.filename) && NoSeparator(item.name) && NoSeparator(item.filename)
  }

  /** The fields of what is printed for a name without separators. */
  lemma FieldsOfParams(item: UploadFormData, first: string, second: string)
    requires ';' !in item.name
    requires first == "name=\"" + item.name + "\"" && second == "filename=\"" + item.filename + "\""
    ensures item.filename == "" ==> Fields(ParamText(item), ';') == [first]
    ensures item.filename != "" ==> Fields(ParamText(item), ';') == [first] + Fields(" " + second, ';')
  {
    KeptWhole(first, first);
    assert ';' !in first;
    if item.filename == "" {
      assert ParamText(item) == first && "" + first == first;
      ScanText("", first, ';');
    } else {
      assert ParamText(item) == first + [';'] + (" " + second);
      FieldsFront(first, " " + second, ';');
    }
  }

  lemma SecondField(filename: string, second: string)
    requires ';' !in filename && second == "filename=\"" + filename + "\""
    ensures Fields(" " + second, ';') == [second]
  {
    assert ';' !in " " + second;
    NoSeparatorNoSplit(" " + second, ';');
    KeptWhole(" " + second, second);
  }

  lemma OneParam(item: UploadFormData, first: string)
    requires NoSeparator(item.name) && item.filename == "" && first == "name=\"" + item.name + "\""
    ensures ParamsOf(Fields(ParamText(item), ';')) == [Param("name", item.name)]
  {
    FieldsOfParams(item, first, "filename=\"" + item.filename + "\"");
    QuotedParam("name", item.name, first);
    ParamsOfOne(first);
  }

  lemma TwoFields(item: UploadFormData, first: string, second: string)
    requires NoSeparator(item.name) && NoSeparator(item.filename) && item.filename != ""
    requires first == "name=\"" + item.name + "\"" && second == "filename=\"" + item.filename + "\""
    ensures Fields(ParamText(item), ';') == [first, second]
  {
    FieldsOfParams(item, first, second);
    SecondField(item.filename, second);
  }

  lemma NamedParam(name: string, filename: string, first: string, second: string)
    requires NoSeparator(name) && NoSeparator(filename)
    requires first == "name=\"" + name + "\"" && second == "filename=\"" + filename + "\""
    ensures ParamOf(first) == Some(Param("name", name)) && ParamOf(second) == Some(Param("filename", filename))
    ensures first != second
  {
    QuotedParam("name", name, first);
    QuotedParam("filename", filename, second);
    Different(first, second);
  }

  lemma TwoParams(item: UploadFormData, first: string, second: string)
    requires NoSeparator(item.name) && NoSeparator(item.filename) && item.filename != ""
    requires first == "name=\"" + item.name + "\"" && second == "filename=\"" + item.filename + "\""
    ensures ParamsOf(Fields(ParamText(item), ';')) == [Param("name", item.name), Param("filename", item.filename)]
  {
    TwoFields(item, first, second);
    NamedParam(item.name, item.filename, first, second);
    ParamsOfTwo(first, second);
  }

  lemma TakesOne(e: FormEntry, name: string)
    ensures TakeParams(e, [Param("name", name)]) == (e.(name := name), true)
  {
    KeysDiffer();
    LookupTwo(Param("name", name), Param("name", name), "name");
    LookupTwo(Param("name", name), Param("name", name), "filename");
    LookupTwo(Param("name", name), Param("name", name), "filename*");
  }

  lemma TakesTwo(e: FormEntry, name: string, filename: string)
    ensures TakeParams(e, [Param("name", name), Param("filename", filename)]) ==
            (e.(name := name, filename := filename), true)
  {
    KeysDiffer();
    LookupTwo(Param("name", name), Param("filename", filename), "name");
    LookupTwo(Param("name", name), Param("filename", filename), "filename");
    LookupTwo(Param("name", name), Param("filename", filename), "filename*");
  }

  /** Name and filename come back from the first line. */
  lemma NamesComeBack(e: FormEntry, item: UploadFormData)
    requires NamesCarried(item) && e.filename == ""
    ensures var (e', ok) := DecodeLine(e, HeadersOf(item)[0]);
            ok && e'.name == item.name && e'.filename == item.filename && e'.contentType == e.contentType
  {
    FirstLineIs(e, item);
    var value := "form-data; " + ParamText(item);
    var headers := e.headers + [("Content-Disposition", ValueOf("Content-Disposition", value))];
    var first, second := "name=\"" + item.name + "\"", "filename=\"" + item.filename + "\"";
    if item.filename == "" {
      OneParam(item, first);
      TakesOne(e.(headers := headers), item.name);
    } else {
      TwoParams(item, first, second);
      TakesTwo(e.(headers := headers), item.name, item.filename);
    }
  }

  // ---------------------------------------------- and those that do not

  lemma OtherKey(first: string, kv: string, p: Param, q: Param)
    requires ParamOf(first) == Some(p) && ParamOf(kv) == Some(q) && p.key != q.key
    ensures kv != first
  {
  }

  lemma InTail<T>(x: T, first: T, tail: seq<T>)
    requires x in [first] + tail && x != first
    ensures x in tail
  {
  }

  /** A filename* can only come from inside the filename, and is shorter. */
  lemma ExtendedIsShort(item: UploadFormData, value: string)
    requires NoSeparator(item.name) && item.filename != ""
    requires Lookup(ParamsOf(Fields(ParamText(item), ';')), "filename*") == Some(value)
    ensures |value| <= |item.filename| + 2
  {
    var first, second := "name=\"" + item.name + "\"", "filename=\"" + item.filename + "\"";
    var fields := Fields(ParamText(item), ';');
    FieldsOfParams(item, first, second);
    var kv := LookupComes(fields, "filename*", value);
    KeysDiffer();
    NameParam(item.name, first);
    OtherKey(first, kv, Param("name", item.name), Param("filename*", value));
    InTail(kv, first, Fields(" " + second, ';'));
    FieldsAreShort(" " + second, ';');
    ParamIsShort(kv);
  }

  /** What an accepted line leaves in the entry. */
  lemma TakenNames(e: FormEntry, params: seq<Param>)
    requires TakeParams(e, params).1
    ensures var e' := TakeParams(e, params).0;
            var filename, extended := Lookup(params, "filename"), Lookup(params, "filename*");
            && Lookup(params, "name") == Some(e'.name)
            && (extended.Some? ==> |e'.filename| + 7 <= |extended.value|)
            && (extended.None? ==> e'.filename == if filename.Some? then filename.value else e.filename)
  {
    if Lookup(params, "filename*").Some? {
      NeverLonger(Lookup(params, "filename*").value[7..]);
    }
  }

  lemma TakenAreFree(e: FormEntry, item: UploadFormData, params: seq<Param>)
    requires params == ParamsOf(Fields(ParamText(item), ';')) && e.filename == "" && TakeParams(e, params).1
    requires TakeParams(e, params).0.name == item.name && TakeParams(e, params).0.filename == item.filename
    ensures NoSeparator(item.name) && NoSeparator(item.filename)
  {
    TakenNames(e, params);
    ValuesAreFree(ParamText(item), "name");
    ValuesAreFree(ParamText(item), "filename");
    if item.filename != "" && Lookup(params, "filename*").Some? {
      ExtendedIsShort(item, Lookup(params, "filename*").value);
    }
  }

  /** Only names without separators come back. */
  lemma NamesAreFree(e: FormEntry, item: UploadFormData)
    requires e.filename == ""
    requires var (e', ok) := DecodeLine(e, HeadersOf(item)[0]);
             ok && e'.name == item.name && e'.filename == item.filename
    ensures NamesCarried(item)
  {
    DispositionReads(item);
    FirstLineIs(e, item);
    var value := "form-data; " + ParamText(item);
    var headers := e.headers + [("Content-Disposition", ValueOf("Content-Disposition", value))];
    TakenAreFree(e.(headers := headers), item, ParamsOf(Fields(ParamText(item), ';')));
  }

  // -------------------------------------------------------- whole items

  /** What a form can carry so that the server reads it as it was given. */
  predicate Carried(item: UploadFormData) {
    NamesCarried(item) && IsFieldContent(item.contentType)
  }

  predicate Describes(e: FormEntry, item: UploadFormData) {
    e.name == item.name && e.filename == item.filename && e.contentType == item.contentType
  }

  lemma StartsWithType(contentType: string, line: string)
    requires line == "Content-Type: " + contentType
    ensures StartsCaseless(line, "Content-Type:") && line[13..] == " " + contentType
    ensures line == "Content-Type" + ": " + contentType
  {
    assert line[..13] == "Content-Type:";
  }

  lemma TypeReads(contentType: string, line: string)
    requires line == "Content-Type: " + contentType && TightEnds(contentType)
    ensures ReadField(line).Some? <==> IsFieldContent(contentType)
    ensures Trimmed(line[13..]) == contentType
  {
    StartsWithType(contentType, line);
    OneBlankTrimmed(contentType);
    PrintedFieldIs("Content-Type", contentType);
  }

  lemma TypeTrimmed(contentType: string, line: string)
    requires line == "Content-Type: " + contentType && !TightEnds(contentType)
    ensures Trimmed(line[13..]) != contentType && !IsFieldContent(contentType)
  {
    var front, back := TrimmedExactly(line[13..]);
  }

  lemma ContentTypeLine(e: FormEntry, contentType: string, line: string)
    requires line == "Content-Type: " + contentType
    ensures var (e', ok) := DecodeLine(e, line);
            && (ok && e'.contentType == contentType <==> IsFieldContent(contentType))
            && e'.name == e.name && e'.filename == e.filename
  {
    StartsWithType(contentType, line);
    TypeLineIs(e, line);
    if TightEnds(contentType) {
      TypeReads(contentType, line);
    } else {
      TypeTrimmed(contentType, line);
    }
  }

  function FormConfig(boundary: string, accept: seq<Event<FormEntry>> -> bool)
    : Config<FormEntry>
  {
    Config(boundary, BLANK, (e: FormEntry, line: string) => DecodeLine(e, line), accept)
  }

  lemma DecodesOne(c: Config<FormEntry>, e: FormEntry, first: string)
    ensures DecodeAll(c, e, [first]) == c.decode(e, first)
  {
    assert [first][1..] == [];
  }

  lemma DecodesTwo(c: Config<FormEntry>, e: FormEntry, first: string, second: string)
    ensures DecodeAll(c, e, [first, second]) ==
            if c.decode(e, first).1 then c.decode(c.decode(e, first).0, second) else (c.decode(e, first).0, false)
  {
    assert [first, second][1..] == [second];
    DecodesOne(c, c.decode(e, first).0, second);
  }

  lemma TypeStays(e: FormEntry, params: seq<Param>)
    ensures TakeParams(e, params).0.contentType == e.contentType
  {
  }

  lemma FirstLineKeepsType(item: UploadFormData)
    ensures DecodeLine(BLANK, HeadersOf(item)[0]).0.contentType == ""
  {
    DispositionReads(item);
    if FieldText(item.name) && FieldText(item.filename) {
      FirstLineIs(BLANK, item);
      var value := "form-data; " + ParamText(item);
      var headers := BLANK.headers + [("Content-Disposition", ValueOf("Content-Disposition", value))];
      TypeStays(BLANK.(headers := headers), ParamsOf(Fields(ParamText(item), ';')));
    }
  }

  lemma FirstLineBack(item: UploadFormData, first: string)
    requires first == HeadersOf(item)[0]
    ensures var (e, ok) := DecodeLine(BLANK, first);
            ok && e.name == item.name && e.filename == item.filename <==> NamesCarried(item)
  {
    if NamesCarried(item) {
      NamesComeBack(BLANK, item);
    } else {
      var (e, ok) := DecodeLine(BLANK, first);
      if ok && e.name == item.name && e.filename == item.filename {
        NamesAreFree(BLANK, item);
      }
    }
  }

  /** The header lines of an item describe it to the server exactly when a form can carry it. */
  lemma ItemComesBack(boundary: string, accept: seq<Event<FormEntry>> -> bool,
                      item: UploadFormData)
    ensures var (e, ok) := DecodeAll(FormConfig(boundary, accept), BLANK, HeadersOf(item));
            ok && Describes(e, item) <==> Carried(item)
  {
    var c, first := FormConfig(boundary, accept), HeadersOf(item)[0];
    FirstLineBack(item, first);
    FirstLineKeepsType(item);
    if item.contentType == "" {
      assert HeadersOf(item) == [first];
      DecodesOne(c, BLANK, first);
    } else {
      var second := "Content-Type: " + item.contentType;
      assert HeadersOf(item) == [first, second];
      DecodesTwo(c, BLANK, first, second);
      ContentTypeLine(DecodeLine(BLANK, first).0, item.contentType, second);
    }
  }

  /** The items a server has received. */
  function Uploads(rs: seq<Received<FormEntry>>): seq<UploadFormData> {
    seq(|rs|, i requires 0 <= i < |rs| =>
          UploadFormData(rs[i].file.name, rs[i].content, rs[i].file.filename, rs[i].file.contentType))
  }

  lemma UploadsAre(c: Config<FormEntry>, items: seq<UploadFormData>)
    ensures Uploads(Expected(c, PartsOf(items))) == items <==>
            forall i :: 0 <= i < |items| ==> Describes(FileOf(c, PartsOf(items)[i]), items[i])
  {
    var us := Uploads(Expected(c, PartsOf(items)));
    if us == items {
      forall i | 0 <= i < |items| ensures Describes(FileOf(c, PartsOf(items)[i]), items[i]) {
        assert us[i] == items[i];
      }
    }
  }

  lemma AllItems(boundary: string, accept: seq<Event<FormEntry>> -> bool,
                 items: seq<UploadFormData>)
    ensures var c := FormConfig(boundary, accept);
            (forall i :: 0 <= i < |items| ==> Decodes(c, PartsOf(items)[i]))
            && Uploads(Expected(c, PartsOf(items))) == items
            <==> forall i :: 0 <= i < |items| ==> Carried(items[i])
  {
    var c := FormConfig(boundary, accept);
    forall i | 0 <= i < |items|
      ensures Decodes(c, PartsOf(items)[i]) && Describes(FileOf(c, PartsOf(items)[i]), items[i]) <==> Carried(items[i])
    {
      ItemComesBack(boundary, accept, items[i]);
    }
    UploadsAre(c, items);
  }

  /**
   * A form, printed, cut anywhere and parsed: the server accepts it and has the
   * very items that were sent if and only if a form can carry every one of them.
   */
  lemma FormComesBack(boundary: string, items: seq<UploadFormData>, frags: seq<string>)
    requires items != []
    requires Framed(FormConfig(boundary, log => true), PartsOf(items))
    requires Flatten(frags) == Serialized(items, boundary)
    ensures var c := FormConfig(boundary, log => true);
            var (p, ok) := Feed(c, Start(c), frags);
            ok && p.valid && Assemble(p.log).Some? && Uploads(Assemble(p.log).value) == items
            <==> forall i :: 0 <= i < |items| ==> Carried(items[i])
  {
    var c := FormConfig(boundary, log => true);
    WholeBodyRefused(c, items, frags);
    AllItems(boundary, log => true, items);
    if Feed(c, Start(c), frags).1 {
      assert Fits(c, PartsOf(items));
      assert Flatten(frags) + "" == Flatten(frags);
      MultipartRoundTrip.MultipartRoundTrip(c, items, frags, "");
    }
  }
}
