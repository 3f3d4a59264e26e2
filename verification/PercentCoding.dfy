/** Percent-coding of query components (section 2.1 of RFC 3986), with `+` for a space. */
module PercentCoding {
  import opened Numerals
  import opened Strings

  predicate IsAlnum(c: char) {
    '0' <= c <= '9' || 'a' <= c <= 'z' || 'A' <= c <= 'Z'
  }

  /** The characters, besides letters and digits, that stand for themselves. */
  predicate IsPlain(c: char) {
    || IsAlnum(c) || c == '-' || c == '.' || c == '_' || c == '~'
    || c == '!' || c == '$' || c == '\'' || c == '(' || c == ')' || c == '*' || c == ',' || c == ';'
    || c == ':' || c == '@' || c == '/' || c == '?'
  }

  function UpperHexChar(d: nat): (c: char)
    requires d < 16
    ensures HexDigit(c) == Some(d)
  {
    if d < 10 then '0' + d as char else 'A' + (d - 10) as char
  }

  function EncodedChar(c: char, spaceAsPlus: bool): (r: string)
    requires IsByte(c)
    ensures r != ""
  {
    if IsPlain(c) then [c]
    else if c == ' ' && spaceAsPlus then "+"
    else if c == '+' && !spaceAsPlus then "+"
    else ['%', UpperHexChar(c as nat / 16), UpperHexChar(c as nat % 16)]
  }

  function Encoded(s: string, spaceAsPlus: bool): string
    requires Bytes(s)
  {
    if s == "" then "" else EncodedChar(s[0], spaceAsPlus) + Encoded(s[1..], spaceAsPlus)
  }

  /** The byte written by two characters, when strtoul reads both of them. */
  function HexPair(hex: string): Option<char> {
    var (value, end) := StrToUl16(hex);
    if end == 2 then Some((value % 256) as char) else None
  }

  function Decoded(s: string, plusAsSpace: bool): string {
    if s == "" then ""
    else if s[0] == '%' && |s| > 2 && HexPair(s[1..3]).Some? then
      [HexPair(s[1..3]).value] + Decoded(s[3..], plusAsSpace)
    else [if s[0] == '+' && plusAsSpace then ' ' else s[0]] + Decoded(s[1..], plusAsSpace)
  }

  // ------------------------------------------------------------- the code

  method EncodeQueryComponent(component: string, spaceAsPlus: bool) returns (result: string)
    requires Bytes(component)
    ensures result == Encoded(component, spaceAsPlus)
  {
    result := "";
    for i := 0 to |component|
      invariant result + Encoded(component[i..], spaceAsPlus) == Encoded(component, spaceAsPlus)
    {
      EncodedFrom(component, spaceAsPlus, i, result);
      result := AppendEncoded(result, component[i], spaceAsPlus);
    }
  }

  /** One turn of the encoding loop. */
  method AppendEncoded(before: string, c: char, spaceAsPlus: bool) returns (result: string)
    requires IsByte(c)
    ensures result == before + EncodedChar(c, spaceAsPlus)
  {
    if IsAlnum(c) || c == '-' || c == '.' || c == '_' || c == '~' {
      result := before + [c];
    } else if c == ' ' {
      result := before + if spaceAsPlus then "+" else "%20";
    } else if c == '+' {
      result := before + if spaceAsPlus then "%2B" else [c];
    } else if c == '!' || c == '$' || c == '\'' || c == '(' || c == ')' || c == '*' || c == ',' || c == ';' {
      result := before + [c];
    } else if c == ':' || c == '@' || c == '/' || c == '?' {
      result := before + [c];
    } else {
      result := before + ['%', UpperHexChar(c as nat / 16), UpperHexChar(c as nat % 16)];
    }
  }

  lemma EncodedFrom(s: string, spaceAsPlus: bool, i: nat, before: string)
    requires Bytes(s) && i < |s|
    ensures before + EncodedChar(s[i], spaceAsPlus) + Encoded(s[i + 1..], spaceAsPlus) ==
            before + Encoded(s[i..], spaceAsPlus)
  {
    assert s[i..][1..] == s[i + 1..];
    assert before + EncodedChar(s[i], spaceAsPlus) + Encoded(s[i + 1..], spaceAsPlus) ==
           before + (EncodedChar(s[i], spaceAsPlus) + Encoded(s[i + 1..], spaceAsPlus));
  }

  method DecodeQueryComponent(component: string, plusAsSpace: bool) returns (result: string)
    ensures result == Decoded(component, plusAsSpace)
  {
    result := "";
    var i := 0;
    while i < |component|
      invariant 0 <= i <= |component|
      invariant result + Decoded(component[i..], plusAsSpace) == Decoded(component, plusAsSpace)
    {
      DecodedFrom(component, plusAsSpace, i, result);
      if component[i] == '%' && i + 2 < |component| {
        var hex := component[i + 1..i + 3];
        var (value, end) := StrToUl16(hex);
        if end == 2 {
          result := result + [(value % 256) as char];
          i := i + 2;
        } else {
          result := result + [component[i]];
        }
      } else if component[i] == '+' && plusAsSpace {
        result := result + " ";
      } else {
        result := result + [component[i]];
      }
      i := i + 1;
    }
  }

  lemma DecodedFrom(s: string, plusAsSpace: bool, i: nat, before: string)
    requires i < |s|
    ensures var pair := s[i] == '%' && i + 2 < |s| && HexPair(s[i + 1..i + 3]).Some?;
            var c := if pair then HexPair(s[i + 1..i + 3]).value else if s[i] == '+' && plusAsSpace then ' ' else s[i];
            var next := if pair then i + 3 else i + 1;
            before + Decoded(s[i..], plusAsSpace) == before + [c] + Decoded(s[next..], plusAsSpace)
  {
    var rest := s[i..];
    assert rest[1..] == s[i + 1..];
    if i + 2 < |s| {
      assert rest[1..3] == s[i + 1..i + 3] && rest[3..] == s[i + 3..];
    }
  }

  // ------------------------------------------------------------ round trip

  lemma TwoDigits(high: char, low: char, h: nat, l: nat)
    requires HexDigit(high) == Some(h) && HexDigit(low) == Some(l)
    ensures AllHex([high, low]) && HexValue([high, low]) == 16 * h + l
  {
    var hex := [high, low];
    assert hex[..1] == [high] && [high][..0] == "";
    assert HexValue([high]) == h;
  }

  lemma HexPairReads(c: char)
    requires IsByte(c)
    ensures HexPair([UpperHexChar(c as nat / 16), UpperHexChar(c as nat % 16)]) == Some(c)
  {
    var high, low := UpperHexChar(c as nat / 16), UpperHexChar(c as nat % 16);
    var hex := [high, low];
    TwoDigits(high, low, c as nat / 16, c as nat % 16);
    StrToUlReads(hex, "");
    assert hex + "" == hex;
    assert StrToUl16(hex) == (c as nat, 2);
  }

  /** What decoding makes of one encoded character when the two sides disagree about `+`. */
  function Exchanged(c: char, spaceAsPlus: bool, plusAsSpace: bool): char {
    if spaceAsPlus && !plusAsSpace && c == ' ' then '+'
    else if !spaceAsPlus && plusAsSpace && c == '+' then ' '
    else c
  }

  lemma DecodesPlain(e: char, plusAsSpace: bool, more: string)
    requires e != '%'
    ensures Decoded([e] + more, plusAsSpace) ==
            [if e == '+' && plusAsSpace then ' ' else e] + Decoded(more, plusAsSpace)
  {
    assert ([e] + more)[1..] == more;
  }

  lemma DecodesPair(high: char, low: char, plusAsSpace: bool, more: string)
    requires HexPair([high, low]).Some?
    ensures Decoded(['%', high, low] + more, plusAsSpace) == [HexPair([high, low]).value] + Decoded(more, plusAsSpace)
  {
    var s := ['%', high, low] + more;
    assert s[1..3] == [high, low] && s[3..] == more;
  }

  lemma DecodesChar(c: char, spaceAsPlus: bool, plusAsSpace: bool, more: string)
    requires IsByte(c)
    ensures Decoded(EncodedChar(c, spaceAsPlus) + more, plusAsSpace) ==
            [Exchanged(c, spaceAsPlus, plusAsSpace)] + Decoded(more, plusAsSpace)
  {
    if IsPlain(c) || (c == '+' && !spaceAsPlus) {
      DecodesPlain(c, plusAsSpace, more);
    } else if c == ' ' && spaceAsPlus {
      DecodesPlain('+', plusAsSpace, more);
    } else {
      HexPairReads(c);
      DecodesPair(UpperHexChar(c as nat / 16), UpperHexChar(c as nat % 16), plusAsSpace, more);
    }
  }

  function AllExchanged(s: string, spaceAsPlus: bool, plusAsSpace: bool): string {
    seq(|s|, i requires 0 <= i < |s| => Exchanged(s[i], spaceAsPlus, plusAsSpace))
  }

  lemma {:induction false} DecodesAll(s: string, spaceAsPlus: bool, plusAsSpace: bool)
    requires Bytes(s)
    ensures Decoded(Encoded(s, spaceAsPlus), plusAsSpace) == AllExchanged(s, spaceAsPlus, plusAsSpace)
  {
    if s != "" {
      DecodesAll(s[1..], spaceAsPlus, plusAsSpace);
      DecodesChar(s[0], spaceAsPlus, plusAsSpace, Encoded(s[1..], spaceAsPlus));
    }
  }

  /**
   * Decoding gives the component back exactly when both sides mean the same by
   * `+`, or the character they disagree about does not occur.
   */
  lemma DecodeEncode(s: string, spaceAsPlus: bool, plusAsSpace: bool)
    requires Bytes(s)
    ensures Decoded(Encoded(s, spaceAsPlus), plusAsSpace) == s <==>
            spaceAsPlus == plusAsSpace || (if spaceAsPlus then ' ' !in s else '+' !in s)
  {
    DecodesAll(s, spaceAsPlus, plusAsSpace);
    var t := AllExchanged(s, spaceAsPlus, plusAsSpace);
    if t == s {
      forall i | 0 <= i < |s| ensures s[i] == Exchanged(s[i], spaceAsPlus, plusAsSpace) {
        assert t[i] == s[i];
      }
    }
  }

  /** The encoder never writes a character that delimits a query, and nothing that trimming would take away. */
  predicate Clean(s: string) {
    forall i :: 0 <= i < |s| ==> s[i] != '&' && s[i] != '=' && s[i] != ' ' && s[i] != '\t' && IsByte(s[i])
  }

  lemma {:induction false} EncodedIsClean(s: string, spaceAsPlus: bool)
    requires Bytes(s)
    ensures Clean(Encoded(s, spaceAsPlus)) && |Encoded(s, spaceAsPlus)| >= |s|
  {
    if s != "" {
      EncodedIsClean(s[1..], spaceAsPlus);
      CharIsClean(s[0], spaceAsPlus);
      CleanConcat(EncodedChar(s[0], spaceAsPlus), Encoded(s[1..], spaceAsPlus));
    }
  }

  lemma CharIsClean(c: char, spaceAsPlus: bool)
    requires IsByte(c)
    ensures Clean(EncodedChar(c, spaceAsPlus))
  {
    var high, low := UpperHexChar(c as nat / 16), UpperHexChar(c as nat % 16);
    assert Clean(['%', high, low]);
  }

  lemma CleanConcat(a: string, b: string)
    requires Clean(a) && Clean(b)
    ensures Clean(a + b)
  {
  }

  lemma {:induction false} DecodedBytes(s: string, plusAsSpace: bool)
    requires Bytes(s)
    ensures Bytes(Decoded(s, plusAsSpace)) && (s != "" ==> Decoded(s, plusAsSpace) != "")
    decreases |s|
  {
    if s != "" {
      if s[0] == '%' && |s| > 2 && HexPair(s[1..3]).Some? {
        DecodedBytes(s[3..], plusAsSpace);
      } else {
        DecodedBytes(s[1..], plusAsSpace);
      }
    }
  }

  // ------------------------------------------------ against the grammar

  /** ALPHA, DIGIT and the marks of section 2.3 of RFC 3986. */
  predicate IsUnreserved(c: char) {
    'A' <= c <= 'Z' || 'a' <= c <= 'z' || '0' <= c <= '9' || c in "-._~"
  }

  /** Section 2.2. */
  predicate IsSubDelim(c: char) {
    c in "!$&'()*+,;="
  }

  /** What stands for itself in a query, by section 3.4: pchar, slash and question mark. */
  predicate InQuery(c: char) {
    IsUnreserved(c) || IsSubDelim(c) || c in ":@/?"
  }

  predicate IsUpperHex(c: char) {
    '0' <= c <= '9' || 'A' <= c <= 'F'
  }

  /** The encoder leaves alone what the grammar allows, but for the query delimiters, and `+` when it means a space. */
  lemma ItselfExactly(c: char, spaceAsPlus: bool)
    requires IsByte(c)
    ensures EncodedChar(c, spaceAsPlus) == [c] <==> InQuery(c) && c != '&' && c != '=' && !(c == '+' && spaceAsPlus)
  {
  }

  /** Everything else is a percent sign and two upper-case digits of its value, or a plus for a space. */
  lemma OtherwiseCoded(c: char, spaceAsPlus: bool)
    requires IsByte(c) && EncodedChar(c, spaceAsPlus) != [c]
    ensures var r := EncodedChar(c, spaceAsPlus);
            if c == ' ' && spaceAsPlus then r == "+"
            else && |r| == 3 && r[0] == '%' && IsUpperHex(r[1]) && IsUpperHex(r[2])
                 && HexDigit(r[1]) == Some(c as nat / 16) && HexDigit(r[2]) == Some(c as nat % 16)
  {
  }

  /**
   * What two characters behind a percent sign stand for: two digits for their
   * value; as strtoul skips a blank and a sign, one digit behind those as well.
   */
  lemma HexPairExactly(a: char, b: char)
    ensures HexPair([a, b]) ==
            if HexDigit(a).Some? && HexDigit(b).Some? then
              Some((16 * HexDigit(a).value + HexDigit(b).value) as char)
            else if HexDigit(b).Some? && (IsSpace(a) || a == '+') then Some(HexDigit(b).value as char)
            else if HexDigit(b).Some? && a == '-' then Some(((256 - HexDigit(b).value) % 256) as char)
            else None
  {
    if HexDigit(b).None? {
      NoPair(a, b);
    } else if HexDigit(a).Some? {
      BothDigits(a, b);
    } else if IsSpace(a) || a == '+' || a == '-' {
      DigitBehind(a, b);
    } else {
      NoLead(a, b);
    }
  }

  lemma PairIs(a: char, b: char, v: nat)
    requires StrToUl16([a, b]) == (v, 2)
    ensures HexPair([a, b]) == Some((v % 256) as char)
  {
  }

  lemma BothDigits(a: char, b: char)
    requires HexDigit(a).Some? && HexDigit(b).Some?
    ensures HexPair([a, b]) == Some((16 * HexDigit(a).value + HexDigit(b).value) as char)
  {
    var v := 16 * HexDigit(a).value + HexDigit(b).value;
    BothNumber(a, b);
    PairIs(a, b, v);
    assert v % 256 == v;
  }

  lemma BothNumber(a: char, b: char)
    requires HexDigit(a).Some? && HexDigit(b).Some?
    ensures StrToUl16([a, b]) == (16 * HexDigit(a).value + HexDigit(b).value, 2)
  {
    TwoDigits(a, b, HexDigit(a).value, HexDigit(b).value);
    StrToUlReads([a, b], "");
    assert [a, b] + "" == [a, b];
  }

  lemma NoLead(a: char, b: char)
    requires HexDigit(a).None? && !IsSpace(a) && a != '+' && a != '-'
    ensures HexPair([a, b]) == None
  {
  }

  lemma NoPair(a: char, b: char)
    requires HexDigit(b).None?
    ensures HexPair([a, b]) == None
  {
    var s, start := [a, b], NumberStart([a, b]).0;
    var digits := s[start..DigitsEnd(s, start)];
    assert AllHex(digits) && forall i :: 0 <= i < |digits| ==> digits[i] == s[start + i];
  }

  lemma DigitBehind(a: char, b: char)
    requires (IsSpace(a) || a == '+' || a == '-') && HexDigit(b).Some?
    ensures HexPair([a, b]) == Some((if a == '-' then (256 - HexDigit(b).value) % 256 else HexDigit(b).value) as char)
  {
    var d := HexDigit(b).value;
    NumberBehind(a, b);
    PairIs(a, b, if a == '-' && d > 0 then ULONG_MAX + 1 - d else d);
    assert (ULONG_MAX + 1 - d) % 256 == (256 - d) % 256;
  }

  lemma NumberBehind(a: char, b: char)
    requires (IsSpace(a) || a == '+' || a == '-') && HexDigit(b).Some?
    ensures StrToUl16([a, b]) ==
            (if a == '-' && HexDigit(b).value > 0 then ULONG_MAX + 1 - HexDigit(b).value else HexDigit(b).value, 2)
  {
    assert [b][..0] == "";
    var blanks, sign := if IsSpace(a) then [a] else "", if IsSpace(a) then "" else [a];
    NumberStands(blanks, sign, "", [b], "");
    assert blanks + sign + "" + [b] + "" == [a, b];
    NumberIsRead([a, b], 1, a == '-', [b]);
  }

  /** A percent sign without such a pair behind it, and any text without percent and plus, stay as they are. */
  lemma {:induction false} PlainStays(s: string, plusAsSpace: bool)
    requires '%' !in s && '+' !in s
    ensures Decoded(s, plusAsSpace) == s
  {
    if s != "" {
      PlainStays(s[1..], plusAsSpace);
    }
  }

  lemma LonePercentStays(more: string, plusAsSpace: bool)
    requires |more| < 2 || HexPair(more[..2]).None?
    ensures Decoded("%" + more, plusAsSpace) == "%" + Decoded(more, plusAsSpace)
  {
    var s := "%" + more;
    assert s[1..] == more && (|more| >= 2 ==> s[1..3] == more[..2]);
  }
}
