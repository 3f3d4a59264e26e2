/** Hexadecimal numerals: the printer of chunk sizes and the C library's reader. */
module Numerals {
  import opened Strings

  const ULONG_MAX: nat := 0xFFFF_FFFF_FFFF_FFFF

  /** The lower-case digit for `d`. */
  function HexChar(d: nat): (c: char)
    requires d < 16
    ensures HexDigit(c) == Some(d)
  {
    if d < 10 then '0' + d as char else 'a' + (d - 10) as char
  }

  predicate IsLowerHex(c: char) {
    '0' <= c <= '9' || 'a' <= c <= 'f'
  }

  function HexDigit(c: char): Option<nat> {
    if '0' <= c <= '9' then Some(c as nat - '0' as nat)
    else if 'a' <= c <= 'f' then Some(c as nat - 'a' as nat + 10)
    else if 'A' <= c <= 'F' then Some(c as nat - 'A' as nat + 10)
    else None
  }

  // ---------------------------------------------------------------- printer

  function Hex(n: nat): string {
    if n < 16 then [HexChar(n)] else Hex(n / 16) + [HexChar(n % 16)]
  }

  method FromIToHex(n: nat) returns (ret: string)
    ensures ret == Hex(n)
  {
    var m := n / 16;
    ret := [HexChar(n % 16)];
    while m > 0
      invariant Hex(n) == if m > 0 then Hex(m) + ret else ret
      decreases m
    {
      ret := [HexChar(m % 16)] + ret;
      m := m / 16;
    }
  }

  // ----------------------------------------------------------------- reader

  predicate IsSpace(c: char) {
    c == ' ' || '\t' <= c <= '\r'
  }

  predicate AllHex(s: string) {
    forall i :: 0 <= i < |s| ==> HexDigit(s[i]).Some?
  }

  function HexValue(s: string): nat
    requires AllHex(s)
  {
    if s == "" then 0 else 16 * HexValue(s[..|s| - 1]) + HexDigit(s[|s| - 1]).value
  }

  /** The end of the run of hexadecimal digits that starts at `i`. */
  function DigitsEnd(s: string, i: nat): (j: nat)
    requires i <= |s|
    ensures i <= j <= |s| && AllHex(s[i..j])
    ensures j < |s| ==> HexDigit(s[j]).None?
    decreases |s| - i
  {
    if i < |s| && HexDigit(s[i]).Some? then
      var j := DigitsEnd(s, i + 1);
      assert s[i..j] == [s[i]] + s[i + 1..j];
      j
    else i
  }

  function SkipSpaces(s: string, i: nat): (j: nat)
    requires i <= |s|
    ensures i <= j <= |s|
    decreases |s| - i
  {
    if i < |s| && IsSpace(s[i]) then SkipSpaces(s, i + 1) else i
  }

  /** Where the digits begin, after blanks, a sign and an `0x` prefix; and whether the sign is minus. */
  function NumberStart(s: string): (r: (nat, bool))
    ensures r.0 <= |s|
  {
    var i := SkipSpaces(s, 0);
    var k := if i < |s| && (s[i] == '-' || s[i] == '+') then i + 1 else i;
    var prefixed := k + 2 < |s| && s[k] == '0' && (s[k + 1] == 'x' || s[k + 1] == 'X') && HexDigit(s[k + 2]).Some?;
    (if prefixed then k + 2 else k, i < |s| && s[i] == '-')
  }

  function Saturated(v: nat, negative: bool): nat {
    if v > ULONG_MAX then ULONG_MAX else if negative && v > 0 then ULONG_MAX + 1 - v else v
  }

  /** strtoul in base 16: the value, and the end of the text it consumed (0 when there is no number). */
  function StrToUl16(s: string): (nat, nat) {
    var (start, negative) := NumberStart(s);
    var end := DigitsEnd(s, start);
    if end == start then (0, 0) else (Saturated(HexValue(s[start..end]), negative), end)
  }

  // ------------------------------------------------------------- round trip

  lemma {:induction false} HexReads(n: nat)
    ensures Hex(n) != "" && AllHex(Hex(n)) && HexValue(Hex(n)) == n
    ensures forall i :: 0 <= i < |Hex(n)| ==> IsLowerHex(Hex(n)[i])
  {
    if n >= 16 {
      HexReads(n / 16);
      assert Hex(n)[..|Hex(n)| - 1] == Hex(n / 16);
    } else {
      assert Hex(n)[..0] == "";
    }
  }

  lemma {:induction false} DigitsEndIs(s: string, i: nat, j: nat)
    requires i <= j <= |s| && AllHex(s[i..j]) && (j < |s| ==> HexDigit(s[j]).None?)
    ensures DigitsEnd(s, i) == j
    decreases j - i
  {
    if i < j {
      assert s[i..j][0] == s[i];
      assert s[i + 1..j] == s[i..j][1..];
      DigitsEndIs(s, i + 1, j);
    }
  }

  lemma StartsWithDigit(s: string)
    requires s != "" && HexDigit(s[0]).Some? && (|s| > 1 ==> s[1] != 'x' && s[1] != 'X')
    ensures NumberStart(s) == (0, false)
  {
  }

  /** The reader takes a run of digits whole when no digit or `x` follows it, up to saturation. */
  lemma StrToUlReads(h: string, more: string)
    requires h != "" && AllHex(h)
    requires more == "" || (HexDigit(more[0]).None? && more[0] != 'x' && more[0] != 'X')
    ensures StrToUl16(h + more) == (Saturated(HexValue(h), false), |h|)
  {
    var s := h + more;
    assert s[0] == h[0];
    if |h| > 1 {
      assert s[1] == h[1];
    }
    StartsWithDigit(s);
    assert s[0..|h|] == h;
    DigitsEndIs(s, 0, |h|);
  }

  lemma StrToUlReadsHex(n: nat, more: string)
    requires more == "" || (HexDigit(more[0]).None? && more[0] != 'x' && more[0] != 'X')
    ensures StrToUl16(Hex(n) + more) == (Saturated(n, false), |Hex(n)|)
  {
    HexReads(n);
    StrToUlReads(Hex(n), more);
  }

  lemma {:induction false} SpacesAre(s: string, i: nat, j: nat)
    requires i <= j <= |s| && (forall k :: i <= k < j ==> IsSpace(s[k])) && (j < |s| ==> !IsSpace(s[j]))
    ensures SkipSpaces(s, i) == j
    decreases j - i
  {
    if i < j {
      SpacesAre(s, i + 1, j);
    }
  }

  /** What strtoul passes over: blanks, a sign, a prefix. */
  predicate IsLead(blanks: string, sign: string, prefix: string) {
    && (forall i :: 0 <= i < |blanks| ==> IsSpace(blanks[i]))
    && (sign == "" || sign == "+" || sign == "-")
    && (prefix == "" || prefix == "0x" || prefix == "0X")
  }

  lemma LeadIs(blanks: string, sign: string, prefix: string, digits: string, more: string)
    requires IsLead(blanks, sign, prefix) && digits != "" && AllHex(digits)
    requires more == "" || (HexDigit(more[0]).None? && more[0] != 'x' && more[0] != 'X')
    ensures NumberStart(blanks + sign + prefix + digits + more) == (|blanks| + |sign| + |prefix|, sign == "-")
  {
    var s, i := blanks + sign + prefix + digits + more, |blanks|;
    var k, d := i + |sign|, i + |sign| + |prefix|;
    assert forall j :: 0 <= j < i ==> s[j] == blanks[j];
    assert s[d] == digits[0] && (|digits| > 1 ==> s[d + 1] == digits[1]);
    assert |digits| == 1 && more != "" ==> s[d + 1] == more[0];
    assert sign != "" ==> s[i] == sign[0];
    assert prefix != "" ==> s[k] == prefix[0] && s[k + 1] == prefix[1];
    SpacesAre(s, 0, i);
  }

  lemma DigitsBehind(lead: string, digits: string, more: string)
    requires AllHex(digits) && (more == "" || HexDigit(more[0]).None?)
    ensures var s, end := lead + digits + more, |lead| + |digits|;
            DigitsEnd(s, |lead|) == end && s[|lead|..end] == digits
  {
    var s, end := lead + digits + more, |lead| + |digits|;
    assert s[|lead|..end] == digits;
    assert end < |s| ==> s[end] == more[0];
    DigitsEndIs(s, |lead|, end);
  }

  /** The digits `digits` stand in `s` where strtoul looks for them. */
  ghost predicate HasNumber(s: string, start: nat, negative: bool, digits: string) {
    && NumberStart(s) == (start, negative)
    && start + |digits| <= |s| && DigitsEnd(s, start) == start + |digits| && s[start..start + |digits|] == digits
  }

  lemma NumberStands(blanks: string, sign: string, prefix: string, digits: string, more: string)
    requires IsLead(blanks, sign, prefix) && digits != "" && AllHex(digits)
    requires more == "" || (HexDigit(more[0]).None? && more[0] != 'x' && more[0] != 'X')
    ensures HasNumber(blanks + sign + prefix + digits + more, |blanks| + |sign| + |prefix|, sign == "-", digits)
  {
    LeadIs(blanks, sign, prefix, digits, more);
    DigitsBehind(blanks + sign + prefix, digits, more);
  }

  /**
   * strtoul in base 16, in full: blanks, a sign and 0x are passed over and the
   * digits read; a minus wraps, too large a number saturates.
   */
  lemma NumberIsRead(s: string, start: nat, negative: bool, digits: string)
    requires HasNumber(s, start, negative, digits) && digits != "" && AllHex(digits)
    ensures StrToUl16(s) == (if HexValue(digits) > ULONG_MAX then ULONG_MAX
                             else if negative && HexValue(digits) > 0 then ULONG_MAX + 1 - HexValue(digits)
                             else HexValue(digits), start + |digits|)
  {
  }

  /** Without a digit behind blanks and sign there is no number. */
  lemma NoDigitsNoNumber(blanks: string, sign: string, more: string)
    requires IsLead(blanks, sign, "") && (more == "" || (HexDigit(more[0]).None? && !IsSpace(more[0])))
    requires sign == "" && more != "" ==> more[0] != '+' && more[0] != '-'
    ensures StrToUl16(blanks + sign + more) == (0, 0)
  {
    var s, i := blanks + sign + more, |blanks|;
    assert forall j :: 0 <= j < i ==> s[j] == blanks[j];
    assert sign != "" ==> s[i] == sign[0];
    assert more != "" ==> s[i + |sign|] == more[0];
    SpacesAre(s, 0, i);
    assert NumberStart(s).0 == i + |sign|;
    DigitsEndIs(s, i + |sign|, i + |sign|);
  }
}
