/** Header field lines (section 5 of RFC 9110): what the code accepts as one, and what it reads from it. */
module HeaderFields {
  import opened PathCoding
  import opened PercentCoding
  import opened Splitting
  import opened Strings

  /** Token characters of section 5.6.2. */
  predicate IsTokenChar(c: char) {
    || IsAlnum(c) || c == '!' || c == '#' || c == '$' || c == '%' || c == '&' || c == '\'' || c == '*' || c == '+'
    || c == '-' || c == '.' || c == '^' || c == '_' || c == '`' || c == '|' || c == '~'
  }

  predicate IsToken(s: string) {
    s != "" && forall i :: 0 <= i < |s| ==> IsTokenChar(s[i])
  }

  predicate IsFieldVchar(c: char) {
    33 as char <= c <= 126 as char || c >= 128 as char
  }

  predicate FieldText(s: string) {
    forall i :: 0 <= i < |s| ==> Blank(s[i]) || IsFieldVchar(s[i])
  }

  /** Field content of section 5.5: blanks only inside. */
  predicate IsFieldContent(s: string) {
    FieldText(s) && (s != "" ==> IsFieldVchar(s[0]) && IsFieldVchar(s[|s| - 1]))
  }

  function WithoutBlanksBehind(s: string): string {
    if s != "" && Blank(s[|s| - 1]) then WithoutBlanksBehind(s[..|s| - 1]) else s
  }

  function WithoutBlanksInFront(s: string): string {
    if s != "" && Blank(s[0]) then WithoutBlanksInFront(s[1..]) else s
  }

  /** Name and value of a header line without its line end; None where the code refuses it. */
  function ReadField(line: string): Option<(string, string)> {
    var (name, rest, found) := Divided(WithoutBlanksBehind(line), ':');
    var value := WithoutBlanksInFront(rest);
    if IsToken(name) && found && IsFieldContent(value) then Some((name, value)) else None
  }

  /** The table of case_ignore::to_lower: ASCII and Latin-1 letters. */
  function Lower(c: char): char {
    if 'A' <= c <= 'Z' || (192 as char <= c <= 222 as char && c != 215 as char) then c + 32 as char else c
  }

  function LowerText(s: string): (r: string)
    ensures |r| == |s|
  {
    seq(|s|, i requires 0 <= i < |s| => Lower(s[i]))
  }

  /** The small letter of a capital; a small letter stays. */
  lemma CaseIsIgnored(v: nat)
    requires v < 26
    ensures Lower("ABCDEFGHIJKLMNOPQRSTUVWXYZ"[v]) == 'a' + v as char
    ensures Lower('a' + v as char) == 'a' + v as char
  {
  }

  /** How a value is decoded: two headers keep theirs as it is. */
  function ValueOf(name: string, value: string): string {
    if KeptAsSent(name) then value else DecodedPath(value)
  }

  predicate KeptAsSent(name: string) {
    LowerText(name) == "location" || LowerText(name) == "referer"
  }

  /** The value is what was sent exactly when it is kept or has no escape to decode; otherwise it is shorter. */
  lemma ValueStays(name: string, value: string)
    ensures if KeptAsSent(name) || NoEscape(value) then ValueOf(name, value) == value
            else |ValueOf(name, value)| < |value|
  {
    SameExactly(value);
  }

  // ------------------------------------------------- against the grammar

  /** A token character is a visible one that is not a delimiter of section 5.6.2. */
  lemma TokenCharsAre(c: char)
    ensures IsTokenChar(c) <==> '!' <= c <= '~' && c !in "\"(),/:;<=>?@[\\]{}"
  {
  }

  /** Of the bytes everything but the controls, the space and DEL. */
  lemma FieldVcharsAre(c: char)
    requires IsByte(c)
    ensures IsFieldVchar(c) <==> c > ' ' && c != 127 as char
  {
  }

  // ---------------------------------------------------------- what is read

  lemma {:induction false} BlanksBehindAre(s: string, end: nat)
    requires end <= |s| && (end > 0 ==> !Blank(s[end - 1])) && forall i :: end <= i < |s| ==> Blank(s[i])
    ensures WithoutBlanksBehind(s) == s[..end]
    decreases |s|
  {
    if end < |s| {
      BlanksBehindAre(s[..|s| - 1], end);
      assert s[..|s| - 1][..end] == s[..end];
    } else {
      assert s[..end] == s;
    }
  }

  lemma {:induction false} BlanksInFrontAre(s: string, start: nat)
    requires start <= |s| && (start < |s| ==> !Blank(s[start])) && forall i :: 0 <= i < start ==> Blank(s[i])
    ensures WithoutBlanksInFront(s) == s[start..]
    decreases |s|
  {
    if start > 0 {
      BlanksInFrontAre(s[1..], start - 1);
      assert s[1..][start - 1..] == s[start..];
    } else {
      assert s[start..] == s;
    }
  }

  lemma TokenIsPlain(name: string)
    requires IsToken(name)
    ensures ':' !in name && '\n' !in name && NoBlank(name)
  {
  }

  lemma NoBlanksBehind(name: string, value: string, line: string)
    requires line == name + [':'] + (" " + value) && (value != "" ==> !Blank(value[|value| - 1]))
    ensures WithoutBlanksBehind(line) == name + [':'] + if value == "" then "" else " " + value
  {
    if value == "" {
      BlanksBehindAre(line, |name| + 1);
      assert line[..|name| + 1] == name + [':'] + "";
    } else {
      assert line[|line| - 1] == value[|value| - 1];
      BlanksBehindAre(line, |line|);
      assert line[..|line|] == line;
    }
  }

  /** A printed field line whose value has no blanks at its ends. */
  lemma PrintedFieldIs(name: string, value: string)
    requires IsToken(name) && (value != "" ==> !Blank(value[0]) && !Blank(value[|value| - 1]))
    ensures ReadField(name + ": " + value) == if IsFieldContent(value) then Some((name, value)) else None
  {
    var line := name + ": " + value;
    assert line == name + [':'] + (" " + value);
    TokenIsPlain(name);
    NoBlanksBehind(name, value, line);
    var rest := if value == "" then "" else " " + value;
    DividedIs(name, rest, ':');
    BlanksInFrontAre(rest, if value == "" then 0 else 1);
    assert value != "" ==> rest[1..] == value;
  }

  /**
   * A printed field line is read back as its name and value exactly when the name
   * is a token and the value field content.
   */
  lemma PrintedFieldReads(name: string, value: string)
    ensures ReadField(name + ": " + value) == Some((name, value)) <==> IsToken(name) && IsFieldContent(value)
  {
    if IsToken(name) && IsFieldContent(value) {
      PrintedFieldIs(name, value);
    }
  }

  lemma {:induction false} BehindIsPrefix(s: string)
    ensures WithoutBlanksBehind(s) <= s
    decreases |s|
  {
    if s != "" && Blank(s[|s| - 1]) {
      BehindIsPrefix(s[..|s| - 1]);
    }
  }

  lemma {:induction false} FrontIsSuffix(s: string)
    ensures var r := WithoutBlanksInFront(s);
            |r| <= |s| && r == s[|s| - |r|..] && (s != "" && Blank(s[0]) ==> |r| < |s|)
    decreases |s|
  {
    if s != "" && Blank(s[0]) {
      FrontIsSuffix(s[1..]);
      var r := WithoutBlanksInFront(s);
      assert r == s[1..][|s| - 1 - |r|..] == s[|s| - |r|..];
    }
  }

  lemma RestIsPrefix(name: string, colon: string, rest: string, printed: string)
    requires name + colon + rest <= name + colon + printed
    ensures rest <= printed
  {
    var head := name + colon;
    assert (head + rest)[|head|..] == rest && (head + printed)[|head|..] == printed;
  }

  lemma ShorterOrSame(rest: string, value: string)
    requires rest <= " " + value
    ensures var read := WithoutBlanksInFront(rest);
            |read| <= |value| && (|read| == |value| ==> read == value)
  {
    FrontIsSuffix(rest);
    if rest != "" {
      assert rest[0] == (" " + value)[0];
      if |rest| == |value| + 1 {
        assert rest == " " + value && rest[1..] == value;
      }
    }
  }

  /** Whatever was printed, the value read under the same name is no longer; of the same length, it is the same. */
  lemma NoMoreIsRead(name: string, value: string, read: string)
    requires ReadField(name + ": " + value) == Some((name, read))
    ensures |read| <= |value| && (|read| == |value| ==> read == value)
  {
    var line := name + ": " + value;
    BehindIsPrefix(line);
    var rest := Divided(WithoutBlanksBehind(line), ':').1;
    assert line == name + [':'] + (" " + value);
    RestIsPrefix(name, [':'], rest, " " + value);
    ShorterOrSame(rest, value);
  }

  // ------------------------------------------------------------- the code

  method CheckFieldContent(s: string) returns (b: bool)
    ensures b == IsFieldContent(s)
  {
    if s == "" {
      return true;
    }
    if |s| == 1 {
      return IsFieldVchar(s[0]);
    }
    if |s| == 2 {
      return IsFieldVchar(s[0]) && IsFieldVchar(s[1]);
    }
    if !IsFieldVchar(s[0]) {
      return false;
    }
    var i := 1;
    while i < |s| - 1
      invariant 1 <= i <= |s| - 1
      invariant forall j :: 0 <= j < i ==> Blank(s[j]) || IsFieldVchar(s[j])
    {
      if !(s[i] == ' ' || s[i] == '\t' || IsFieldVchar(s[i])) {
        return false;
      }
      i := i + 1;
    }
    b := IsFieldVchar(s[i]);
  }

  /** parse_header, up to the percent-decoding of the value. */
  method ParseHeader(line: string) returns (field: Option<(string, string)>)
    ensures field == ReadField(line)
  {
    var end := |line|;
    while end > 0 && Blank(line[end - 1])
      invariant 0 <= end <= |line|
      invariant forall i :: end <= i < |line| ==> Blank(line[i])
    {
      end := end - 1;
    }
    BlanksBehindAre(line, end);
    ghost var text := line[..end];
    var p := 0;
    while p < end && line[p] != ':'
      invariant 0 <= p <= end
      invariant forall i :: 0 <= i < p ==> line[i] != ':'
    {
      p := p + 1;
    }
    IndexOfIs(text, ':', p);
    var name := line[..p];
    assert name == text[..p];
    if !IsToken(name) || p == end {
      return None;
    }
    field := ReadValue(line, name, p + 1, end);
  }

  method ReadValue(line: string, name: string, from: nat, end: nat) returns (field: Option<(string, string)>)
    requires from <= end <= |line|
    ensures var value := WithoutBlanksInFront(line[..end][from..]);
            field == if IsFieldContent(value) then Some((name, value)) else None
  {
    ghost var rest := line[..end][from..];
    var p := from;
    while p < end && Blank(line[p])
      invariant from <= p <= end
      invariant forall i :: from <= i < p ==> Blank(line[i])
    {
      p := p + 1;
    }
    BlanksInFrontAre(rest, p - from);
    var value := line[p..end];
    assert value == rest[p - from..];
    var ok := CheckFieldContent(value);
    field := if ok then Some((name, value)) else None;
  }
}
