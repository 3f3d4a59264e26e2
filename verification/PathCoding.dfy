/**
 * Percent-coding of path components (section 3.3 of RFC 3986), and its decoder,
 * which also takes %uXXXX for a code point in UTF-8.
 */
module PathCoding {
  import opened Numerals
  import opened PercentCoding
  import opened Strings

  /** The characters that stand for themselves. */
  predicate StaysInPath(c: char) {
    || IsAlnum(c) || c == '-' || c == '.' || c == '_' || c == '~'
    || c == '!' || c == '$' || c == '&' || c == '\'' || c == '(' || c == ')' || c == '*' || c == '+'
    || c == ',' || c == ';' || c == '=' || c == ':' || c == '@'
  }

  function EncodedPathChar(c: char): (r: string)
    requires IsByte(c)
    ensures r != ""
  {
    if StaysInPath(c) then [c] else ['%', UpperHexChar(c as nat / 16), UpperHexChar(c as nat % 16)]
  }

  function EncodedPath(s: string): string
    requires Bytes(s)
  {
    if s == "" then "" else EncodedPathChar(s[0]) + EncodedPath(s[1..])
  }

  /** The value of `n` hexadecimal digits at `i`, if they are there. */
  function HexAt(s: string, i: nat, n: nat): (v: Option<nat>)
    ensures v.Some? ==> i + n <= |s|
  {
    if i + n <= |s| && AllHex(s[i..i + n]) then Some(HexValue(s[i..i + n])) else None
  }

  /** A code point in UTF-8; nothing for a surrogate. */
  function Utf8(code: nat): (r: string)
    requires code < 0x11_0000
    ensures |r| <= 4 && (code < 0x1_0000 ==> |r| <= 3) && Bytes(r)
  {
    if code < 0x80 then [code as char]
    else if code < 0x800 then [(0xC0 + code / 64) as char, (0x80 + code % 64) as char]
    else if code < 0x1_0000 then
      if 0xD800 <= code < 0xE000 then ""
      else [(0xE0 + code / 4096) as char, (0x80 + code / 64 % 64) as char, (0x80 + code % 64) as char]
    else [(0xF0 + code / 0x4_0000) as char, (0x80 + code / 4096 % 64) as char,
          (0x80 + code / 64 % 64) as char, (0x80 + code % 64) as char]
  }

  /** What one position decodes to, and how far that reaches. */
  function Unit(s: string): (r: (string, nat))
    requires s != ""
    ensures 1 <= r.1 <= |s| && |r.0| <= r.1
  {
    if s[0] == '%' && |s| > 1 && s[1] == 'u' then
      match HexAt(s, 2, 4)
      case None => ("%", 1)
      case Some(v) => FourDigits(s, 2); (Utf8(v), 6)
    else if s[0] == '%' && |s| > 1 then
      match HexAt(s, 1, 2)
      case None => ("%", 1)
      case Some(v) => TwoDigitsBelow(s, 1); ([v as char], 3)
    else ([s[0]], 1)
  }

  function DecodedPath(s: string): string
    decreases |s|
  {
    if s == "" then "" else Unit(s).0 + DecodedPath(s[Unit(s).1..])
  }

  lemma {:induction false} HexBelow(h: string)
    requires AllHex(h)
    ensures HexValue(h) < Sixteens(|h|)
  {
    if h != "" {
      HexBelow(h[..|h| - 1]);
    }
  }

  function Sixteens(n: nat): nat {
    if n == 0 then 1 else 16 * Sixteens(n - 1)
  }

  lemma TwoDigitsBelow(s: string, i: nat)
    requires HexAt(s, i, 2).Some?
    ensures HexAt(s, i, 2).value < 256
  {
    HexBelow(s[i..i + 2]);
    assert Sixteens(2) == 16 * Sixteens(1) == 256;
  }

  lemma FourDigits(s: string, i: nat)
    requires HexAt(s, i, 4).Some?
    ensures HexAt(s, i, 4).value < 0x1_0000
  {
    HexBelow(s[i..i + 4]);
    assert Sixteens(4) == 16 * Sixteens(3) && Sixteens(3) == 16 * Sixteens(2) && Sixteens(2) == 16 * Sixteens(1);
  }

  // ------------------------------------------------------------- the code

  lemma EncodedOneMore(s: string, i: nat, before: string)
    requires Bytes(s) && i < |s|
    ensures before + EncodedPath(s[i..]) == before + EncodedPathChar(s[i]) + EncodedPath(s[i + 1..])
  {
    assert s[i..][1..] == s[i + 1..];
  }

  method EncodePathComponent(component: string) returns (result: string)
    requires Bytes(component)
    ensures result == EncodedPath(component)
  {
    result := "";
    for i := 0 to |component|
      invariant result + EncodedPath(component[i..]) == EncodedPath(component)
    {
      EncodedOneMore(component, i, result);
      result := result + EncodedPathChar(component[i]);
    }
  }

  /** from_hex_to_i: it stops at the first character that is no digit, also behind the text. */
  method FromHexToI(s: string, i: nat, n: nat) returns (v: Option<nat>)
    requires n > 0
    ensures v == HexAt(s, i, n)
  {
    var val := 0;
    for k := 0 to n
      invariant i + k <= |s| || k == 0
      invariant k > 0 ==> AllHex(s[i..i + k])
      invariant val == if k == 0 then 0 else HexValue(s[i..i + k])
    {
      if i + k >= |s| || HexDigit(s[i + k]).None? {
        NotAllHex(s, i, n, k);
        return None;
      }
      OneDigitMore(s, i, k);
      val := val * 16 + HexDigit(s[i + k]).value;
    }
    v := Some(val);
  }

  lemma NotAllHex(s: string, i: nat, n: nat, k: nat)
    requires k < n && (i + k >= |s| || HexDigit(s[i + k]).None?)
    ensures HexAt(s, i, n) == None
  {
    if i + n <= |s| {
      assert s[i..i + n][k] == s[i + k];
    }
  }

  lemma OneDigitMore(s: string, i: nat, k: nat)
    requires i + k < |s| && AllHex(s[i..i + k]) && HexDigit(s[i + k]).Some?
    ensures AllHex(s[i..i + k + 1])
    ensures HexValue(s[i..i + k + 1]) == 16 * HexValue(s[i..i + k]) + HexDigit(s[i + k]).value
    ensures HexValue(s[i..i]) == 0
  {
    var h := s[i..i + k + 1];
    assert h[..|h| - 1] == s[i..i + k] && h[|h| - 1] == s[i + k];
  }

  lemma HexFrom(s: string, i: nat, k: nat, n: nat)
    requires i <= |s|
    ensures HexAt(s[i..], k, n) == HexAt(s, i + k, n)
  {
    if i + k + n <= |s| {
      assert s[i..][k..k + n] == s[i + k..i + k + n];
    }
  }

  /** One turn of the loop. */
  method DecodeUnit(s: string, i: nat) returns (unit: string, length: nat)
    requires i < |s|
    ensures (unit, length) == Unit(s[i..])
  {
    unit, length := [s[i]], 1;
    HexFrom(s, i, 2, 4);
    HexFrom(s, i, 1, 2);
    if s[i] == '%' && i + 1 < |s| {
      if s[i + 1] == 'u' {
        var v := FromHexToI(s, i + 2, 4);
        if v.Some? {
          FourDigits(s, i + 2);
          unit, length := Utf8(v.value), 6;
        }
      } else {
        var v := FromHexToI(s, i + 1, 2);
        if v.Some? {
          TwoDigitsBelow(s, i + 1);
          unit, length := [v.value as char], 3;
        }
      }
    }
  }

  ghost predicate DecodedTo(s: string, i: nat, result: string) {
    i <= |s| && result + DecodedPath(s[i..]) == DecodedPath(s)
  }

  lemma DecodedOneMore(s: string, i: nat, result: string, unit: string, length: nat)
    requires i < |s| && DecodedTo(s, i, result) && (unit, length) == Unit(s[i..])
    ensures length > 0 && DecodedTo(s, i + length, result + unit)
  {
    var rest := s[i..];
    assert rest[length..] == s[i + length..];
    assert (result + unit) + DecodedPath(rest[length..]) == result + (unit + DecodedPath(rest[length..]));
  }

  method DecodePathComponent(component: string) returns (result: string)
    ensures result == DecodedPath(component)
  {
    result := "";
    var i := 0;
    while i < |component|
      invariant DecodedTo(component, i, result)
      decreases |component| - i
    {
      var unit, length := DecodeUnit(component, i);
      DecodedOneMore(component, i, result, unit, length);
      result, i := result + unit, i + length;
    }
  }

  // ------------------------------------------------------------ round trip

  lemma UnitOfEncoded(c: char, more: string)
    requires IsByte(c)
    ensures Unit(EncodedPathChar(c) + more) == ([c], |EncodedPathChar(c)|)
  {
    if !StaysInPath(c) {
      var high, low := UpperHexChar(c as nat / 16), UpperHexChar(c as nat % 16);
      var s := ['%', high, low] + more;
      assert s[1..3] == [high, low];
      TwoDigits(high, low, c as nat / 16, c as nat % 16);
    }
  }

  /** Decoding undoes encoding, for all bytes. */
  lemma {:induction false} PathRoundTrip(s: string)
    requires Bytes(s)
    ensures DecodedPath(EncodedPath(s)) == s
  {
    if s != "" {
      var first, more := EncodedPathChar(s[0]), EncodedPath(s[1..]);
      UnitOfEncoded(s[0], more);
      PathRoundTrip(s[1..]);
      assert (first + more)[|first|..] == more;
    }
  }

  /** What stands for itself is the pchar of section 3.3, no more and no less. */
  lemma StaysExactly(c: char)
    requires IsByte(c)
    ensures EncodedPathChar(c) == [c] <==> IsUnreserved(c) || IsSubDelim(c) || c == ':' || c == '@'
  {
  }

  // ------------------------------------------------- what decoding changes

  /** An escape that is decoded. */
  predicate EscapeAt(s: string, i: nat) {
    && i < |s| && s[i] == '%'
    && (HexAt(s, i + 1, 2).Some? || (i + 1 < |s| && s[i + 1] == 'u' && HexAt(s, i + 2, 4).Some?))
  }

  predicate NoEscape(s: string) {
    forall i :: 0 <= i < |s| ==> !EscapeAt(s, i)
  }

  lemma UnitIs(s: string)
    requires s != ""
    ensures if EscapeAt(s, 0) then |Unit(s).0| < Unit(s).1 else Unit(s) == ([s[0]], 1)
  {
    if |s| > 2 && s[1] == 'u' {
      assert s[1..3][0] == 'u';
    }
  }

  lemma EscapeFurtherOn(s: string, i: nat)
    requires s != ""
    ensures EscapeAt(s[1..], i) == EscapeAt(s, i + 1)
  {
    HexFrom(s, 1, i + 1, 2);
    HexFrom(s, 1, i + 2, 4);
  }

  lemma NoEscapeCons(s: string)
    requires s != ""
    ensures NoEscape(s) <==> !EscapeAt(s, 0) && NoEscape(s[1..])
  {
    forall i: nat ensures EscapeAt(s[1..], i) == EscapeAt(s, i + 1) {
      EscapeFurtherOn(s, i);
    }
    if !EscapeAt(s, 0) && NoEscape(s[1..]) {
      forall i | 0 <= i < |s| ensures !EscapeAt(s, i) {
        assert i > 0 ==> !EscapeAt(s[1..], i - 1);
      }
    }
  }

  lemma {:induction false} NeverLonger(s: string)
    ensures |DecodedPath(s)| <= |s|
    decreases |s|
  {
    if s != "" {
      NeverLonger(s[Unit(s).1..]);
    }
  }

  /** A text is decoded to itself exactly when it has no escape; otherwise it gets shorter. */
  lemma {:induction false} SameExactly(s: string)
    ensures if NoEscape(s) then DecodedPath(s) == s else |DecodedPath(s)| < |s|
    decreases |s|
  {
    if s != "" {
      UnitIs(s);
      NoEscapeCons(s);
      NeverLonger(s[Unit(s).1..]);
      if !EscapeAt(s, 0) {
        SameExactly(s[1..]);
      }
    }
  }

  // ----------------------------------------------------------------- UTF-8

  /** The code point at the front of a text in UTF-8, by the table in section 3 of RFC 3629. */
  function CodePoint(s: string): Option<nat> {
    if |s| == 1 && s[0] as nat < 0x80 then Some(s[0] as nat)
    else if |s| == 2 && 0xC0 <= s[0] as nat < 0xE0 && Tail(s[1]) then
      Some((s[0] as nat - 0xC0) * 0x40 + Bits(s[1]))
    else if |s| == 3 && 0xE0 <= s[0] as nat < 0xF0 && Tail(s[1]) && Tail(s[2]) then
      Some((s[0] as nat - 0xE0) * 0x1000 + Bits(s[1]) * 0x40 + Bits(s[2]))
    else if |s| == 4 && 0xF0 <= s[0] as nat < 0xF8 && Tail(s[1]) && Tail(s[2]) && Tail(s[3]) then
      Some((s[0] as nat - 0xF0) * 0x4_0000 + Bits(s[1]) * 0x1000 + Bits(s[2]) * 0x40 + Bits(s[3]))
    else None
  }

  predicate Tail(c: char) {
    0x80 <= c as nat < 0xC0
  }

  function Bits(c: char): nat
    requires Tail(c)
  {
    c as nat - 0x80
  }

  lemma InSixties(code: nat) returns (high: nat, middle: nat, low: nat)
    ensures high == code / 4096 && middle == code / 64 % 64 && low == code % 64
    ensures code == high * 4096 + middle * 64 + low && middle < 64 && low < 64
    ensures code / 64 == high * 64 + middle
  {
    high, middle, low := code / 4096, code / 64 % 64, code % 64;
  }

  lemma ThreeBytes(code: nat)
    requires 0x800 <= code < 0x1_0000 && !(0xD800 <= code < 0xE000)
    ensures CodePoint(Utf8(code)) == Some(code)
  {
    var high, middle, low := InSixties(code);
  }

  lemma FourBytes(code: nat)
    requires 0x1_0000 <= code < 0x11_0000
    ensures CodePoint(Utf8(code)) == Some(code)
  {
    var high, middle, low := InSixties(code);
    assert code / 0x4_0000 == high / 64 && high == high / 64 * 64 + high % 64;
  }

  lemma OneOrTwoBytes(code: nat)
    requires code < 0x800
    ensures CodePoint(Utf8(code)) == Some(code)
  {
  }

  /** Every code point but the surrogates is read back from its bytes, and they are the fewest. */
  lemma Utf8Reads(code: nat)
    requires code < 0x11_0000
    ensures if 0xD800 <= code < 0xE000 then Utf8(code) == "" else CodePoint(Utf8(code)) == Some(code)
    ensures |Utf8(code)| == 4 <==> code >= 0x1_0000
    ensures |Utf8(code)| == 3 ==> code >= 0x800
    ensures |Utf8(code)| == 2 ==> code >= 0x80
  {
    if code < 0x800 {
      OneOrTwoBytes(code);
    } else if code >= 0x1_0000 {
      FourBytes(code);
    } else if !(0xD800 <= code < 0xE000) {
      ThreeBytes(code);
    }
  }

  /** A text with an escaped code point. */
  lemma CodePointDecoded(digits: string, more: string)
    requires |digits| == 4 && AllHex(digits)
    ensures HexValue(digits) < 0x1_0000
    ensures DecodedPath("%u" + digits + more) == Utf8(HexValue(digits)) + DecodedPath(more)
  {
    var s := "%u" + digits + more;
    assert s[2..6] == digits && s[6..] == more;
    FourDigits(s, 2);
  }

  /** A text with an escaped byte. */
  lemma ByteDecoded(a: char, b: char, more: string)
    requires HexDigit(a).Some? && HexDigit(b).Some?
    ensures DecodedPath(['%', a, b] + more) ==
            [(16 * HexDigit(a).value + HexDigit(b).value) as char] + DecodedPath(more)
  {
    var s := ['%', a, b] + more;
    assert s[1..3] == [a, b] && s[3..] == more;
    TwoDigits(a, b, HexDigit(a).value, HexDigit(b).value);
  }
}
