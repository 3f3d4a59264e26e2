/** base64_encode against section 4 of RFC 4648. */
module Base64 {
  import opened Strings

  /** The alphabet of Table 1. */
  function Letter(v: nat): (c: char)
    requires v < 64
    ensures LetterValue(c) == Some(v)
  {
    if v < 26 then 'A' + v as char
    else if v < 52 then 'a' + (v - 26) as char
    else if v < 62 then '0' + (v - 52) as char
    else if v == 62 then '+'
    else '/'
  }

  lemma CapitalsFirst(v: nat)
    requires v < 26
    ensures Letter(v) == "ABCDEFGHIJKLMNOPQRSTUVWXYZ"[v]
  {
  }

  lemma SmallLettersNext(v: nat)
    requires v < 26
    ensures Letter(v + 26) == "abcdefghijklmnopqrstuvwxyz"[v]
  {
  }

  lemma DigitsLast(v: nat)
    requires v < 12
    ensures Letter(v + 52) == "0123456789+/"[v]
  {
  }

  function LetterValue(c: char): (v: Option<nat>)
    ensures v.Some? ==> v.value < 64 && c != '='
  {
    if 'A' <= c <= 'Z' then Some(c as nat - 'A' as nat)
    else if 'a' <= c <= 'z' then Some(c as nat - 'a' as nat + 26)
    else if '0' <= c <= '9' then Some(c as nat - '0' as nat + 52)
    else if c == '+' then Some(62)
    else if c == '/' then Some(63)
    else None
  }

  // ------------------------------------------------------------- the coding

  /** Byte `i`; zero bits are added behind the text. */
  function At(s: string, i: nat): nat {
    if i < |s| then s[i] as nat else 0
  }

  /** Three bytes are four groups of 6 bits; this is number `r` of them. */
  function SixBits(a: nat, b: nat, c: nat, r: nat): (v: nat)
    requires a < 256 && b < 256 && c < 256 && r < 4
    ensures v < 64
  {
    match r
    case 0 => a / 4
    case 1 => a % 4 * 16 + b / 16
    case 2 => b % 16 * 4 + c / 64
    case _ => c % 64
  }

  /** Four groups of 6 bits are three bytes; this is number `r` of them. */
  function EightBits(u: nat, v: nat, w: nat, x: nat, r: nat): (b: nat)
    requires u < 64 && v < 64 && w < 64 && x < 64 && r < 3
    ensures b < 256
  {
    match r
    case 0 => u * 4 + v / 16
    case 1 => v % 16 * 16 + w / 4
    case _ => w % 4 * 64 + x
  }

  lemma Regrouped(a: nat, b: nat, c: nat)
    requires a < 256 && b < 256 && c < 256
    ensures var u, v, w, x := SixBits(a, b, c, 0), SixBits(a, b, c, 1), SixBits(a, b, c, 2), SixBits(a, b, c, 3);
            EightBits(u, v, w, x, 0) == a && EightBits(u, v, w, x, 1) == b && EightBits(u, v, w, x, 2) == c
  {
  }

  /** Both groupings are of the same 24 bits, the first bit first. */
  lemma BitsInOrder(a: nat, b: nat, c: nat)
    requires a < 256 && b < 256 && c < 256
    ensures 0x10000 * a + 0x100 * b + c ==
            0x40000 * SixBits(a, b, c, 0) + 0x1000 * SixBits(a, b, c, 1) + 0x40 * SixBits(a, b, c, 2) +
            SixBits(a, b, c, 3)
  {
  }

  function Sextet(s: string, q: nat, r: nat): (v: nat)
    requires Bytes(s) && r < 4
    ensures v < 64
  {
    SixBits(At(s, 3 * q), At(s, 3 * q + 1), At(s, 3 * q + 2), r)
  }

  /** Character `k`: a letter if its 6 bits begin inside the text, else padding. */
  function Character(s: string, k: nat): char
    requires Bytes(s)
  {
    if 6 * k < 8 * |s| then Letter(Sextet(s, k / 4, k % 4)) else '='
  }

  function Encoded(s: string): (t: string)
    requires Bytes(s)
    ensures |t| == (|s| + 2) / 3 * 4
  {
    seq((|s| + 2) / 3 * 4, k requires 0 <= k < (|s| + 2) / 3 * 4 => Character(s, k))
  }

  /** The text written so far is the beginning of the encoding. */
  ghost predicate Writes(s: string, out: string) {
    Bytes(s) && forall k :: 0 <= k < |out| ==> out[k] == Character(s, k)
  }

  lemma KnownBytes(s: string)
    requires s == "fooba"
    ensures At(s, 0) == 102 && At(s, 1) == 111 && At(s, 2) == 111 && At(s, 3) == 98 && At(s, 4) == 97 && At(s, 5) == 0
  {
  }

  lemma KnownLetters()
    ensures Letter(25) == 'Z' && Letter(38) == 'm' && Letter(61) == '9' && Letter(47) == 'v'
    ensures Letter(24) == 'Y' && Letter(4) == 'E'
  {
  }

  /** A vector of section 10 of RFC 4648. */
  lemma KnownEncoding(s: string)
    requires s == "fooba"
    ensures Encoded(s) == "Zm9vYmE="
  {
    KnownBytes(s);
    KnownLetters();
    assert |s| == 5;
    assert Character(s, 0) == 'Z' && Character(s, 1) == 'm' && Character(s, 2) == '9' && Character(s, 3) == 'v';
    assert Character(s, 4) == 'Y' && Character(s, 5) == 'm' && Character(s, 6) == 'E' && Character(s, 7) == '=';
  }

  // ------------------------------------------------------------ the decoder

  function Padding(t: string): nat {
    if |t| < 2 || t[|t| - 1] != '=' then 0 else if t[|t| - 2] == '=' then 2 else 1
  }

  /** The value of character `k`; padding counts as zero bits. */
  function Bits(t: string, k: nat): (v: nat)
    ensures v < 64
  {
    if k < |t| && LetterValue(t[k]).Some? then LetterValue(t[k]).value else 0
  }

  function Octet(t: string, q: nat, r: nat): (b: nat)
    requires r < 3
    ensures b < 256
  {
    EightBits(Bits(t, 4 * q), Bits(t, 4 * q + 1), Bits(t, 4 * q + 2), Bits(t, 4 * q + 3), r)
  }

  /** Whole groups of four, letters up to the padding, and no stray bits in the last letter. */
  predicate WellFormed(t: string) {
    && |t| % 4 == 0
    && (forall k :: 0 <= k < |t| - Padding(t) ==> LetterValue(t[k]).Some?)
    && (Padding(t) == 1 ==> Bits(t, |t| - 2) % 4 == 0)
    && (Padding(t) == 2 ==> |t| >= 3 && Bits(t, |t| - 3) % 16 == 0)
  }

  /** The standard decoder. */
  function Decoded(t: string): Option<string> {
    if WellFormed(t) then
      var n := |t| / 4 * 3 - Padding(t);
      Some(seq(n, j requires 0 <= j < n => Octet(t, j / 3, j % 3) as char))
    else None
  }

  // ------------------------------------------------------------- round trip

  /** A character decodes to the bits it was made from; padding stands for bits that are zero. */
  lemma EncodedBits(s: string, t: string, k: nat, q: nat, r: nat)
    requires Writes(s, t) && k < |t| && k == 4 * q + r && r < 4
    ensures Bits(t, k) == Sextet(s, q, r)
  {
    assert t[k] == Character(s, k);
    assert k / 4 == q && k % 4 == r;
  }

  lemma LettersFirst(s: string, t: string, k: nat)
    requires Writes(s, t) && k < |t|
    ensures LetterValue(t[k]).Some? <==> 6 * k < 8 * |s|
    ensures t[k] == '=' <==> 6 * k >= 8 * |s|
  {
    assert t[k] == Character(s, k);
  }

  lemma GroupFits(n: nat, q: nat)
    requires 3 * q < n
    ensures 4 * q + 3 < (n + 2) / 3 * 4
  {
  }

  lemma OctetIs(t: string, q: nat, a: nat, b: nat, c: nat)
    requires a < 256 && b < 256 && c < 256
    requires Bits(t, 4 * q) == SixBits(a, b, c, 0) && Bits(t, 4 * q + 1) == SixBits(a, b, c, 1)
    requires Bits(t, 4 * q + 2) == SixBits(a, b, c, 2) && Bits(t, 4 * q + 3) == SixBits(a, b, c, 3)
    ensures Octet(t, q, 0) == a && Octet(t, q, 1) == b && Octet(t, q, 2) == c
  {
    Regrouped(a, b, c);
  }

  lemma EncodedFour(s: string, t: string, q: nat)
    requires Writes(s, t) && 4 * q + 3 < |t|
    ensures Bits(t, 4 * q) == Sextet(s, q, 0) && Bits(t, 4 * q + 1) == Sextet(s, q, 1)
    ensures Bits(t, 4 * q + 2) == Sextet(s, q, 2) && Bits(t, 4 * q + 3) == Sextet(s, q, 3)
  {
    EncodedBits(s, t, 4 * q, q, 0);
    EncodedBits(s, t, 4 * q + 1, q, 1);
    EncodedBits(s, t, 4 * q + 2, q, 2);
    EncodedBits(s, t, 4 * q + 3, q, 3);
  }

  lemma EncodedGroup(s: string, t: string, q: nat)
    requires Bytes(s) && 3 * q < |s| && t == Encoded(s)
    ensures Octet(t, q, 0) == At(s, 3 * q)
    ensures Octet(t, q, 1) == At(s, 3 * q + 1)
    ensures Octet(t, q, 2) == At(s, 3 * q + 2)
  {
    GroupFits(|s|, q);
    EncodedFour(s, t, q);
    OctetIs(t, q, At(s, 3 * q), At(s, 3 * q + 1), At(s, 3 * q + 2));
  }

  lemma EncodedOctet(s: string, t: string, j: nat, q: nat, r: nat)
    requires Bytes(s) && t == Encoded(s) && j < |s| && j == 3 * q + r && r < 3
    ensures Octet(t, q, r) == s[j] as nat
  {
    EncodedGroup(s, t, q);
    if r == 0 {
      assert At(s, 3 * q) == s[j] as nat;
    } else if r == 1 {
      assert At(s, 3 * q + 1) == s[j] as nat;
    } else {
      assert r == 2 && At(s, 3 * q + 2) == s[j] as nat;
    }
  }

  lemma EncodedPadding(s: string)
    requires Bytes(s)
    ensures Padding(Encoded(s)) == (|s| + 2) / 3 * 3 - |s|
  {
    if s != "" {
      var q := (|s| - 1) / 3;
      LettersFirst(s, Encoded(s), 4 * q + 2);
      LettersFirst(s, Encoded(s), 4 * q + 3);
    }
  }

  lemma EncodedLetters(s: string, t: string)
    requires Bytes(s) && t == Encoded(s)
    ensures forall k :: 0 <= k < |t| - Padding(t) ==> LetterValue(t[k]).Some?
  {
    EncodedPadding(s);
    forall k | 0 <= k < |t| - Padding(t) ensures LetterValue(t[k]).Some? {
      LettersFirst(s, t, k);
    }
  }

  lemma StrayBits(a: nat, b: nat)
    requires a < 256 && b < 256
    ensures SixBits(a, b, 0, 2) % 4 == 0 && SixBits(a, 0, 0, 1) % 16 == 0
  {
  }

  lemma NoStrayBits(s: string, t: string, q: nat)
    requires Bytes(s) && t == Encoded(s) && |t| == 4 * q + 4
    ensures |s| == 3 * q + 2 ==> Bits(t, 4 * q + 2) % 4 == 0
    ensures |s| == 3 * q + 1 ==> Bits(t, 4 * q + 1) % 16 == 0
  {
    EncodedBits(s, t, 4 * q + 1, q, 1);
    EncodedBits(s, t, 4 * q + 2, q, 2);
    StrayBits(At(s, 3 * q), At(s, 3 * q + 1));
  }

  lemma EncodedShape(s: string, t: string, q: nat)
    requires Bytes(s) && t == Encoded(s) && 3 * q < |s| <= 3 * q + 3
    ensures |t| == 4 * q + 4 && Padding(t) == 3 * q + 3 - |s|
  {
    EncodedPadding(s);
  }

  lemma LastGroupFits(t: string, n: nat, q: nat)
    requires |t| == 4 * q + 4 && 3 * q < n <= 3 * q + 3 && Padding(t) == 3 * q + 3 - n
    requires forall k :: 0 <= k < |t| - Padding(t) ==> LetterValue(t[k]).Some?
    requires n == 3 * q + 2 ==> Bits(t, 4 * q + 2) % 4 == 0
    requires n == 3 * q + 1 ==> Bits(t, 4 * q + 1) % 16 == 0
    ensures WellFormed(t) && |t| / 4 * 3 - Padding(t) == n
  {
  }

  lemma EncodedIsWellFormed(s: string, t: string)
    requires Bytes(s) && t == Encoded(s)
    ensures WellFormed(t) && |t| / 4 * 3 - Padding(t) == |s|
  {
    if s == "" {
      assert t == "";
    } else {
      var q := (|s| - 1) / 3;
      EncodedShape(s, t, q);
      EncodedLetters(s, t);
      NoStrayBits(s, t, q);
      LastGroupFits(t, |s|, q);
    }
  }

  /** The standard decoder gives the bytes back. */
  lemma Base64RoundTrip(s: string)
    requires Bytes(s)
    ensures Decoded(Encoded(s)) == Some(s)
  {
    var t := Encoded(s);
    EncodedIsWellFormed(s, t);
    forall j | 0 <= j < |s| ensures Octet(t, j / 3, j % 3) as char == s[j] {
      EncodedOctet(s, t, j, j / 3, j % 3);
    }
    SameText(t, s);
  }

  lemma SameText(t: string, s: string)
    requires WellFormed(t) && |t| / 4 * 3 - Padding(t) == |s|
    requires forall j :: 0 <= j < |s| ==> Octet(t, j / 3, j % 3) as char == s[j]
    ensures Decoded(t) == Some(s)
  {
    assert Decoded(t).value == s;
  }

  // ------------------------------------------------------------ the encoder

  const TWO_TO_THE_31: int := 0x8000_0000
  const TWO_TO_THE_32: int := 0x1_0000_0000

  /** A shift to the left in a 32-bit int keeps the low 32 bits, read as a signed number. */
  function ShiftedByte(val: int): (r: int)
    ensures -TWO_TO_THE_31 <= r < TWO_TO_THE_31
  {
    (val * 256 + TWO_TO_THE_31) % TWO_TO_THE_32 - TWO_TO_THE_31
  }

  /** lookup[(val >> shift) & 0x3F], with the arithmetic shift of a signed int. */
  function Lookup(val: int, shift: nat): char
    requires shift <= 6
  {
    Letter((if shift == 0 then val
            else if shift == 2 then val / 4
            else if shift == 4 then val / 16
            else val / 64) % 64)
  }

  lemma Wraps(val: int) returns (m: int)
    ensures ShiftedByte(val) == val * 256 - m * TWO_TO_THE_32
  {
    m := (val * 256 + TWO_TO_THE_31) / TWO_TO_THE_32;
  }

  lemma LowBits(high: int, low: nat, v: int)
    requires low < 65536 && v == 65536 * high + low
    ensures v % 65536 == low
  {
  }

  lemma NoOverflow(shifted: int, t: int, c: nat)
    requires c < 256 && shifted == 256 * t && shifted < TWO_TO_THE_31
    ensures shifted + c < TWO_TO_THE_31 && (shifted + c) % 256 == c
  {
  }

  /** The low 16 bits after a shift: the last byte before, and room for the next; adding it cannot overflow. */
  lemma ShiftIn(val: int, c: nat)
    requires c < 256
    ensures (ShiftedByte(val) + c) % 65536 == val % 256 * 256 + c
    ensures (ShiftedByte(val) + c) % 256 == c
    ensures -TWO_TO_THE_31 <= ShiftedByte(val) + c < TWO_TO_THE_31
  {
    var m := Wraps(val);
    var high, low := val / 256, val % 256;
    assert val == 256 * high + low;
    NoOverflow(ShiftedByte(val), val - m * 0x100_0000, c);
    LowBits(high - m * 0x1_0000, low * 256 + c, ShiftedByte(val) + c);
  }

  /** The byte before byte `i`, as far as it is still in the accumulator. */
  function Before(s: string, i: nat): nat {
    if i == 0 then 0 else At(s, i - 1)
  }

  lemma LowSix(high: int, low: nat, x: int)
    requires low < 64 && x == 64 * high + low
    ensures x % 64 == low
  {
  }

  lemma WindowAtFour(v: int, q: int, a: nat, b: nat)
    requires a < 256 && b < 256 && v == 65536 * q + 256 * a + b
    ensures v / 16 % 64 == a % 4 * 16 + b / 16
  {
    var h, l := a / 4, a % 4;
    assert a == 4 * h + l;
    assert v / 16 == 4096 * q + 16 * a + b / 16;
    LowSix(64 * q + h, l * 16 + b / 16, v / 16);
  }

  lemma WindowAtSix(v: int, q: int, a: nat, b: nat)
    requires a < 256 && b < 256 && v == 65536 * q + 256 * a + b
    ensures v / 64 % 64 == a % 16 * 4 + b / 64
  {
    var h, l := a / 16, a % 16;
    assert a == 16 * h + l;
    assert v / 64 == 1024 * q + 4 * a + b / 64;
    LowSix(16 * q + h, l * 4 + b / 64, v / 64);
  }

  lemma WindowAtTwo(v: int, q: int, a: nat, b: nat)
    requires a < 256 && b < 256 && v == 65536 * q + 256 * a + b
    ensures v / 4 % 64 == b / 4 && v % 64 == b % 64
  {
    assert v / 4 == 16384 * q + 64 * a + b / 4;
    LowSix(256 * q + a, b / 4, v / 4);
    LowSix(1024 * q + 4 * a + b / 64, b % 64, v);
  }

  lemma Windows(v: int, a: nat, b: nat)
    requires a < 256 && b < 256 && v % 65536 == a * 256 + b
    ensures v / 4 % 64 == b / 4 && v % 64 == b % 64
    ensures v / 16 % 64 == a % 4 * 16 + b / 16
    ensures v / 64 % 64 == a % 16 * 4 + b / 64
  {
    var q := v / 65536;
    assert v == 65536 * q + 256 * a + b;
    WindowAtTwo(v, q, a, b);
    WindowAtFour(v, q, a, b);
    WindowAtSix(v, q, a, b);
  }

  /** The six bits at `shift` of two bytes. */
  function SixAt(a: nat, b: nat, shift: nat): (v: nat)
    requires a < 256 && b < 256
    ensures v < 64
  {
    if shift == 0 then b % 64
    else if shift == 2 then b / 4
    else if shift == 4 then a % 4 * 16 + b / 16
    else a % 16 * 4 + b / 64
  }

  lemma LookupIs(v: int, a: nat, b: nat, shift: nat)
    requires a < 256 && b < 256 && v % 65536 == a * 256 + b && (shift == 0 || shift == 2 || shift == 4 || shift == 6)
    ensures Lookup(v, shift) == Letter(SixAt(a, b, shift))
  {
    Windows(v, a, b);
  }

  lemma Position(i: nat, k: nat, shift: nat) returns (q: nat, r: nat)
    requires 8 * (i + 1) == 6 * k + shift + 6 && shift <= 6
    ensures q == k / 4 && r == k % 4
    ensures r == 0 ==> i == 3 * q && shift == 2
    ensures r == 1 ==> i == 3 * q + 1 && shift == 4
    ensures r == 2 ==> i == 3 * q + 2 && shift == 6
    ensures r == 3 ==> i == 3 * q + 2 && shift == 0
  {
    q, r := k / 4, k % 4;
    assert 8 * i + 2 == 24 * q + 6 * r + shift;
  }

  /** Whatever the high bits of the accumulator are, the letter looked up is the next one of the encoding. */
  lemma LooksUp(s: string, i: nat, v: int, shift: nat, k: nat)
    requires Bytes(s) && i <= |s| && v % 65536 == Before(s, i) * 256 + At(s, i)
    requires 8 * (i + 1) == 6 * k + shift + 6 && shift <= 6 && 6 * k < 8 * |s|
    ensures Lookup(v, shift) == Character(s, k)
  {
    var q, r := Position(i, k, shift);
    LookupIs(v, Before(s, i), At(s, i), shift);
    assert Sextet(s, q, r) == SixAt(Before(s, i), At(s, i), shift);
  }

  lemma WritesOneMore(s: string, out: string)
    requires Writes(s, out)
    ensures Writes(s, out + [Character(s, |out|)])
  {
  }

  /** Everything is written: 6 bits a letter, and padding up to whole groups. */
  lemma WritesAll(s: string, out: string)
    requires Writes(s, out) && 8 * |s| <= 6 * |out| && |out| <= (|s| + 2) / 3 * 4 && |out| % 4 == 0
    ensures out == Encoded(s)
  {
    assert |out| == |Encoded(s)|;
  }

  /** The letters of the first `i` bytes are written but for `valb + 6` bits. */
  ghost predicate WrittenTo(s: string, i: nat, valb: int, out: string) {
    i <= |s| && Writes(s, out) && -6 <= valb < 0 && 8 * i == 6 * |out| + valb + 6
  }

  /** The accumulator, an int of 32 bits, ends with the last byte read. */
  ghost predicate Remembers(s: string, i: nat, val: int) {
    val % 256 == Before(s, i) && -TWO_TO_THE_31 <= val < TWO_TO_THE_31
  }

  /** It ends with the last two bytes. */
  ghost predicate Loaded(s: string, i: nat, val: int) {
    val % 65536 == Before(s, i) * 256 + At(s, i)
  }

  method Base64Encode(s: string) returns (out: string)
    requires Bytes(s)
    ensures out == Encoded(s)
  {
    out := "";
    var val, valb := 0, -6;
    for i := 0 to |s|
      invariant WrittenTo(s, i, valb, out) && Remembers(s, i, val)
    {
      val := TakeByte(s, i, val);
      out, valb := EmitLetters(s, i, val, valb + 8, out);
    }
    out := Finish(s, val, valb, out);
  }

  /** The byte shifted into the accumulator. */
  method TakeByte(s: string, i: nat, before: int) returns (val: int)
    requires Bytes(s) && i < |s| && Remembers(s, i, before)
    ensures Loaded(s, i, val) && Remembers(s, i + 1, val)
  {
    ShiftIn(before, s[i] as nat);
    val := ShiftedByte(before) + s[i] as nat;
  }

  /** The last letter, with zero bits shifted in behind the text. */
  lemma LastLetter(s: string, v: int, shift: nat, k: nat)
    requires Bytes(s) && v % 65536 == Before(s, |s|) * 256
    requires 8 * |s| == 6 * k + shift - 2 && 2 < shift <= 6
    ensures Lookup(v, shift) == Character(s, k)
  {
    assert At(s, |s|) == 0;
    LooksUp(s, |s|, v, shift, k);
  }

  lemma EvenBits(n: nat, letters: nat, valb: int)
    requires 8 * n == 6 * letters + valb + 6
    ensures valb != -1
  {
    assert 2 * (4 * n - 3 * letters - 3) == valb;
  }

  /** The bits left over, and the padding. */
  method Finish(s: string, val: int, valb: int, text: string) returns (out: string)
    requires WrittenTo(s, |s|, valb, text) && Remembers(s, |s|, val)
    ensures out == Encoded(s)
  {
    out := text;
    if valb > -6 {
      ShiftIn(val, 0);
      EvenBits(|s|, |text|, valb);
      LastLetter(s, ShiftedByte(val), valb + 8, |text|);
      WritesOneMore(s, out);
      out := out + [Lookup(ShiftedByte(val), valb + 8)];
    }
    out := Pad(s, out);
  }

  method Pad(s: string, text: string) returns (out: string)
    requires Writes(s, text) && 8 * |s| <= 6 * |text| < 8 * |s| + 6
    ensures out == Encoded(s)
  {
    ghost var groups := WholeGroups(|s|, |text|);
    out := text;
    while |out| % 4 != 0
      invariant Writes(s, out) && 8 * |s| <= 6 * |out| && |out| <= 4 * groups
      decreases 4 * groups - |out|
    {
      WritesOneMore(s, out);
      out := out + ['='];
    }
    WritesAll(s, out);
  }

  lemma WholeGroups(n: nat, letters: nat) returns (groups: nat)
    requires 8 * n <= 6 * letters < 8 * n + 6
    ensures groups == (n + 2) / 3 && letters <= 4 * groups
  {
    groups := (n + 2) / 3;
  }

  ghost predicate Pending(s: string, i: nat, valb: int, out: string) {
    Writes(s, out) && -6 <= valb <= 6 && 8 * (i + 1) == 6 * |out| + valb + 6
  }

  /** The inner loop: one or two letters for one byte. */
  method EmitLetters(s: string, i: nat, val: int, before: nat, text: string) returns (out: string, valb: int)
    requires 2 <= before && WrittenTo(s, i, before - 8, text) && i < |s| && Loaded(s, i, val)
    ensures WrittenTo(s, i + 1, valb, out)
  {
    out, valb := text, before;
    while valb >= 0
      invariant Pending(s, i, valb, out)
      decreases valb + 6
    {
      out, valb := EmitLetter(s, i, val, valb, out);
    }
  }

  method EmitLetter(s: string, i: nat, val: int, before: nat, text: string) returns (out: string, valb: int)
    requires Pending(s, i, before, text) && i < |s| && Loaded(s, i, val)
    ensures Pending(s, i, valb, out) && valb < before
  {
    LooksUp(s, i, val, before, |text|);
    WritesOneMore(s, text);
    out := text + [Lookup(val, before)];
    valb := before - 6;
  }
}
