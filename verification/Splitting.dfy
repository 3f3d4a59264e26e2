/** Cutting text at a separator: split, which trims the fields and drops empty ones, and divide. */
module Splitting {
  import opened Strings

  predicate Blank(c: char) {
    c == ' ' || c == '\t'
  }

  /** The text without spaces and tabs at both ends. */
  function Trimmed(s: string): string {
    if s == "" then ""
    else if Blank(s[0]) then Trimmed(s[1..])
    else if Blank(s[|s| - 1]) then Trimmed(s[..|s| - 1])
    else s
  }

  /** A field that is handed on, unless nothing is left of it. */
  function Kept(field: string): seq<string> {
    if Trimmed(field) == "" then [] else [Trimmed(field)]
  }

  /** The fields handed on while `s` is read, and the field that is still open. */
  function Scan(s: string, d: char): (seq<string>, string) {
    if s == "" then ([], "")
    else
      var (fields, pending) := Scan(s[..|s| - 1], d);
      if s[|s| - 1] == d then (fields + Kept(pending), "") else (fields, pending + [s[|s| - 1]])
  }

  function Fields(s: string, d: char): seq<string> {
    Scan(s, d).0 + Kept(Scan(s, d).1)
  }

  function Joined(parts: seq<string>, d: char): string {
    if parts == [] then ""
    else if |parts| == 1 then parts[0]
    else Joined(parts[..|parts| - 1], d) + [d] + parts[|parts| - 1]
  }

  function AllKept(parts: seq<string>): seq<string> {
    if parts == [] then [] else AllKept(parts[..|parts| - 1]) + Kept(parts[|parts| - 1])
  }

  // -------------------------------------------------- what the fields are

  lemma AllKeptSnoc(parts: seq<string>, part: string)
    ensures AllKept(parts + [part]) == AllKept(parts) + Kept(part)
  {
    var all := parts + [part];
    assert all[..|all| - 1] == parts && all[|all| - 1] == part;
  }

  lemma {:induction false} ScanText(a: string, b: string, d: char)
    requires d !in b
    ensures Scan(a + b, d) == (Scan(a, d).0, Scan(a, d).1 + b)
    decreases |b|
  {
    if b == "" {
      assert a + b == a && Scan(a, d).1 + b == Scan(a, d).1;
    } else {
      var init := b[..|b| - 1];
      assert (a + b)[..|a + b| - 1] == a + init;
      ScanText(a, init, d);
      assert Scan(a, d).1 + init + [b[|b| - 1]] == Scan(a, d).1 + b;
    }
  }

  lemma FieldsSnoc(a: string, b: string, d: char)
    requires d !in b
    ensures Fields(a + [d] + b, d) == Fields(a, d) + Kept(b)
  {
    assert (a + [d])[..|a|] == a;
    ScanText(a + [d], b, d);
    assert "" + b == b;
  }

  /** No field holds the separator. */
  lemma {:induction false} FieldsAreFree(s: string, d: char)
    ensures forall i :: 0 <= i < |Scan(s, d).0| ==> d !in Scan(s, d).0[i]
    ensures d !in Scan(s, d).1
    ensures forall i :: 0 <= i < |Fields(s, d)| ==> d !in Fields(s, d)[i] && Fields(s, d)[i] != ""
    ensures forall i :: 0 <= i < |Scan(s, d).0| ==> Scan(s, d).0[i] != ""
    decreases |s|
  {
    if s != "" {
      FieldsAreFree(s[..|s| - 1], d);
      TrimmedIsPart(Scan(s[..|s| - 1], d).1);
    }
    TrimmedIsPart(Scan(s, d).1);
  }

  lemma {:induction false} TrimmedIsPart(s: string)
    ensures forall c :: c in Trimmed(s) ==> c in s
    decreases |s|
  {
    if s != "" && Blank(s[0]) {
      TrimmedIsPart(s[1..]);
    } else if s != "" && Blank(s[|s| - 1]) {
      TrimmedIsPart(s[..|s| - 1]);
    }
  }

  /** What stands in front of the first separator is the first field, if anything is left of it. */
  lemma {:induction false} ScanFront(a: string, rest: string, d: char)
    requires d !in a
    ensures Scan(a + [d] + rest, d) == (Kept(a) + Scan(rest, d).0, Scan(rest, d).1)
    decreases |rest|
  {
    if rest == "" {
      assert a + [d] + rest == a + [d] && (a + [d])[..|a|] == a && "" + a == a;
      ScanText("", a, d);
      assert [] + Kept(a) == Kept(a) + [];
    } else {
      var init := rest[..|rest| - 1];
      var s := a + [d] + rest;
      assert s[..|s| - 1] == a + [d] + init && s[|s| - 1] == rest[|rest| - 1];
      ScanFront(a, init, d);
      FrontStep(Kept(a), Scan(init, d).0, Kept(Scan(init, d).1));
    }
  }

  lemma FrontStep<T>(a: seq<T>, b: seq<T>, c: seq<T>)
    ensures (a + b) + c == a + (b + c)
  {
  }

  lemma FieldsFront(a: string, rest: string, d: char)
    requires d !in a
    ensures Fields(a + [d] + rest, d) == Kept(a) + Fields(rest, d)
  {
    ScanFront(a, rest, d);
    FrontStep(Kept(a), Scan(rest, d).0, Kept(Scan(rest, d).1));
  }

  lemma NoSeparatorNoSplit(s: string, d: char)
    requires d !in s
    ensures Fields(s, d) == Kept(s)
  {
    ScanText("", s, d);
    assert "" + s == s;
  }

  lemma {:induction false} TrimmedIsShort(s: string)
    ensures |Trimmed(s)| <= |s|
    decreases |s|
  {
    if s != "" && Blank(s[0]) {
      TrimmedIsShort(s[1..]);
    } else if s != "" && Blank(s[|s| - 1]) {
      TrimmedIsShort(s[..|s| - 1]);
    }
  }

  /** Fields are no longer than the text, and the first and a later one together are shorter. */
  lemma {:induction false} ScanIsShort(s: string, d: char)
    ensures var (fields, pending) := Scan(s, d);
            && |pending| <= |s|
            && (forall i :: 0 <= i < |fields| ==> |fields[i]| <= |s|)
            && (forall i :: 0 < i < |fields| ==> |fields[0]| + 1 + |fields[i]| <= |s|)
            && (fields != [] ==> |fields[0]| + 1 + |pending| <= |s|)
    decreases |s|
  {
    if s != "" {
      ScanIsShort(s[..|s| - 1], d);
      TrimmedIsShort(Scan(s[..|s| - 1], d).1);
    }
  }

  lemma FieldsAreShort(s: string, d: char)
    ensures var fields := Fields(s, d);
            && (forall i :: 0 <= i < |fields| ==> |fields[i]| <= |s|)
            && (forall i :: 0 < i < |fields| ==> |fields[0]| + 1 + |fields[i]| <= |s|)
  {
    ScanIsShort(s, d);
    TrimmedIsShort(Scan(s, d).1);
  }

  /** split undoes joining, up to blanks around the parts and parts without anything else. */
  lemma {:induction false} FieldsOfJoined(parts: seq<string>, d: char)
    requires forall i :: 0 <= i < |parts| ==> d !in parts[i]
    ensures Fields(Joined(parts, d), d) == AllKept(parts)
    decreases |parts|
  {
    if |parts| == 1 {
      ScanText("", parts[0], d);
      assert "" + parts[0] == parts[0];
      assert AllKept(parts[..0]) == [];
    } else if |parts| > 1 {
      var init, last := parts[..|parts| - 1], parts[|parts| - 1];
      FieldsOfJoined(init, d);
      FieldsSnoc(Joined(init, d), last, d);
    }
  }

  predicate NoBlank(s: string) {
    forall i :: 0 <= i < |s| ==> !Blank(s[i])
  }

  predicate Solid(part: string) {
    part != "" && NoBlank(part)
  }

  lemma KeptAsIs(part: string)
    requires Solid(part)
    ensures Kept(part) == [part]
  {
    assert Trimmed(part) == part;
  }

  lemma {:induction false} AllKeptAsIs(parts: seq<string>)
    requires forall i :: 0 <= i < |parts| ==> Solid(parts[i])
    ensures AllKept(parts) == parts
    decreases |parts|
  {
    if parts != [] {
      var init, last := parts[..|parts| - 1], parts[|parts| - 1];
      assert parts == init + [last];
      AllKeptAsIs(init);
      KeptAsIs(last);
    }
  }

  // ------------------------------------------------------------- the code

  /** The C++ loops: the left one is bounded by the end of the text, not of the field. */
  method Trim(s: string, left: nat, right: nat) returns (first: nat, last: nat)
    requires left <= right <= |s|
    ensures last <= right && (first < last ==> left <= first)
    ensures (if first < last then s[first..last] else "") == Trimmed(s[left..right])
  {
    first, last := left, right;
    while first < |s| && Blank(s[first])
      invariant left <= first <= |s|
      invariant forall i :: left <= i < first ==> Blank(s[i])
    {
      first := first + 1;
    }
    while last > 0 && Blank(s[last - 1])
      invariant last <= right
      invariant forall i :: last <= i < right ==> Blank(s[i])
    {
      last := last - 1;
    }
    TrimGives(s, left, right, first, last);
  }

  /** A slice of a part that starts at `from` is a slice of the whole. */
  lemma SliceOfPart(s: string, part: string, from: nat, first: nat, last: nat)
    requires from <= first <= last <= from + |part| <= |s|
    requires forall i :: 0 <= i < |part| ==> part[i] == s[from + i]
    ensures part[first - from..last - from] == s[first..last]
  {
    var a, b := part[first - from..last - from], s[first..last];
    forall i | 0 <= i < |a| ensures a[i] == b[i] {
      assert a[i] == part[first - from + i] == s[first + i];
    }
  }

  lemma {:induction false} TrimmedIs(s: string, a: nat, b: nat)
    requires a < b <= |s| && !Blank(s[a]) && !Blank(s[b - 1])
    requires forall i :: 0 <= i < a || b <= i < |s| ==> Blank(s[i])
    ensures Trimmed(s) == s[a..b]
    decreases |s|
  {
    if Blank(s[0]) {
      var rest := s[1..];
      SliceOfPart(s, rest, 1, a, b);
      TrimmedIs(rest, a - 1, b - 1);
    } else if Blank(s[|s| - 1]) {
      var init := s[..|s| - 1];
      SliceOfPart(s, init, 0, a, b);
      TrimmedIs(init, a, b);
    } else {
      assert a == 0 && b == |s| && s[0..|s|] == s;
    }
  }

  lemma {:induction false} TrimmedBlanks(s: string)
    requires forall i :: 0 <= i < |s| ==> Blank(s[i])
    ensures Trimmed(s) == ""
  {
    if s != "" {
      TrimmedBlanks(s[1..]);
    }
  }

  predicate AllBlanks(s: string) {
    forall i :: 0 <= i < |s| ==> s[i] == ' ' || s[i] == '\t'
  }

  /** Trimming takes spaces and tabs off both ends, all of them and nothing else. */
  lemma {:induction false} TrimmedExactly(s: string) returns (front: string, back: string)
    ensures s == front + Trimmed(s) + back && AllBlanks(front) && AllBlanks(back)
    ensures var t := Trimmed(s);
            t != "" ==> t[0] != ' ' && t[0] != '\t' && t[|t| - 1] != ' ' && t[|t| - 1] != '\t'
    decreases |s|
  {
    front, back := "", "";
    if s != "" && Blank(s[0]) {
      front, back := TrimmedExactly(s[1..]);
      OneMoreInFront(s[0], front, Trimmed(s[1..]), back, s);
      front := [s[0]] + front;
    } else if s != "" && Blank(s[|s| - 1]) {
      var init := s[..|s| - 1];
      front, back := TrimmedExactly(init);
      OneMoreBehind(s[|s| - 1], front, Trimmed(init), back, s);
      back := back + [s[|s| - 1]];
    }
  }

  lemma OneMoreInFront(c: char, front: string, middle: string, back: string, s: string)
    requires s != "" && s[0] == c && s[1..] == front + middle + back
    ensures s == [c] + front + middle + back
  {
    assert s == [c] + s[1..];
  }

  lemma OneMoreBehind(c: char, front: string, middle: string, back: string, s: string)
    requires s != "" && s[|s| - 1] == c && s[..|s| - 1] == front + middle + back
    ensures s == front + middle + (back + [c])
  {
    assert s == s[..|s| - 1] + [c];
  }

  lemma TrimGives(s: string, left: nat, right: nat, first: nat, last: nat)
    requires left <= right <= |s| && left <= first <= |s| && last <= right
    requires forall i :: left <= i < first ==> Blank(s[i])
    requires forall i :: last <= i < right ==> Blank(s[i])
    requires first == |s| || !Blank(s[first])
    requires last == 0 || !Blank(s[last - 1])
    ensures (if first < last then s[first..last] else "") == Trimmed(s[left..right])
  {
    var field := s[left..right];
    if first < last {
      TrimmedIs(field, first - left, last - left);
      SliceOfPart(s, s[left..right], left, first, last);
    } else {
      TrimmedBlanks(field);
    }
  }

  lemma ScanSnoc(s: string, c: char, d: char)
    ensures Scan(s + [c], d) ==
            if c == d then (Scan(s, d).0 + Kept(Scan(s, d).1), "") else (Scan(s, d).0, Scan(s, d).1 + [c])
  {
    var all := s + [c];
    assert all[..|all| - 1] == s && all[|all| - 1] == c;
  }

  /** What split has done when it has read `i` characters: these fields, and one open since `beg`. */
  ghost predicate HasSplit(s: string, d: char, i: nat, beg: nat, fields: seq<string>) {
    beg <= i <= |s| && Scan(s[..i], d) == (fields, s[beg..i])
  }

  lemma SplitStep(s: string, d: char, i: nat, beg: nat, fields: seq<string>)
    requires HasSplit(s, d, i, beg, fields) && i < |s|
    ensures s[i] == d ==> HasSplit(s, d, i + 1, i + 1, fields + Kept(s[beg..i]))
    ensures s[i] != d ==> HasSplit(s, d, i + 1, beg, fields)
  {
    ScanSnoc(s[..i], s[i], d);
    assert s[..i + 1] == s[..i] + [s[i]];
    assert s[beg..i] + [s[i]] == s[beg..i + 1];
    assert s[i + 1..i + 1] == "";
  }

  lemma SplitEnd(s: string, d: char, beg: nat, fields: seq<string>)
    requires HasSplit(s, d, |s|, beg, fields)
    ensures Fields(s, d) == fields + Kept(s[beg..|s|])
    ensures s == "" ==> Fields(s, d) == fields
  {
    assert s[..|s|] == s;
    if s == "" {
      assert s[beg..|s|] == "" && fields + [] == fields;
    }
  }

  method Split(s: string, d: char) returns (fields: seq<string>)
    ensures fields == Fields(s, d)
  {
    fields := [];
    var i, beg := 0, 0;
    while i < |s|
      invariant 0 <= beg <= i && HasSplit(s, d, i, beg, fields)
      decreases |s| - i
    {
      SplitStep(s, d, i, beg, fields);
      if s[i] == d {
        fields := HandOn(fields, s, beg, i);
        beg := i + 1;
      }
      i := i + 1;
    }
    SplitEnd(s, d, beg, fields);
    if i != 0 {
      fields := HandOn(fields, s, beg, i);
    }
  }

  /** Trims a field and calls back with what is left of it. */
  method HandOn(before: seq<string>, s: string, beg: nat, end: nat) returns (fields: seq<string>)
    requires beg <= end <= |s|
    ensures fields == before + Kept(s[beg..end])
  {
    var first, last := Trim(s, beg, end);
    fields := before;
    if first < last {
      fields := fields + [s[first..last]];
    }
  }

  /** The text before the first separator, the text behind it, and whether there is one. */
  function Divided(s: string, d: char): (r: (string, string, bool))
    ensures d !in r.0
    ensures s == if r.2 then r.0 + [d] + r.1 else r.0
    ensures !r.2 ==> r.1 == ""
  {
    var k := IndexOf(s, d);
    if k < |s| then (s[..k], s[k + 1..], true) else (s, "", false)
  }

  lemma DividedIs(lhs: string, rhs: string, d: char)
    requires d !in lhs
    ensures Divided(lhs + [d] + rhs, d) == (lhs, rhs, true)
    ensures Divided(lhs, d) == (lhs, "", false)
  {
    var s := lhs + [d] + rhs;
    IndexOfIs(s, d, |lhs|);
    assert s[..|lhs|] == lhs && s[|lhs| + 1..] == rhs;
    IndexOfIs(lhs, d, |lhs|);
  }
}
