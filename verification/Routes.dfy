/**
 * Routes with path parameters, such as `/users/:id/posts`: how a pattern is
 * cut into static fragments and parameter names, and which paths it matches.
 */
module Routes {
  import opened Strings

  const SEPARATOR := '/'
  const MARKER := "/:"

  /** A pattern after parsing; parameter `i` follows fragment `i`. */
  datatype Template = Template(fragments: seq<string>, names: seq<string>) {
    predicate Valid() {
      |names| <= |fragments| <= |names| + 1
    }

    function Cons(fragment: string, name: string): Template {
      Template([fragment] + fragments, [name] + names)
    }
  }

  predicate NoSlash(s: string) {
    SEPARATOR !in s
  }

  predicate AllNoSlash(values: seq<string>) {
    forall i :: 0 <= i < |values| ==> NoSlash(values[i])
  }

  /** strncmp looks at all of the text: no NUL before its last character. */
  predicate ComparedWhole(s: string) {
    forall i :: 0 <= i < |s| - 1 ==> s[i] != '\0'
  }

  predicate NulFree(s: string) {
    forall i :: 0 <= i < |s| ==> s[i] != '\0'
  }

  predicate MarkedAt(s: string, k: nat) {
    k + 1 < |s| && s[k] == SEPARATOR && s[k + 1] == ':'
  }

  /** The first marker at `i` or later, or the end: what find gives for the marker. */
  function MarkerFrom(s: string, i: nat): (k: nat)
    requires i <= |s|
    ensures i <= k <= |s| && (k < |s| ==> MarkedAt(s, k))
    ensures forall j :: i <= j < k ==> !MarkedAt(s, j)
    decreases |s| - i
  {
    if i == |s| || MarkedAt(s, i) then i else MarkerFrom(s, i + 1)
  }

  lemma MarkerIs(s: string, i: nat, k: nat)
    requires i <= k <= |s| && (k < |s| ==> MarkedAt(s, k))
    requires forall j :: i <= j < k ==> !MarkedAt(s, j)
    ensures MarkerFrom(s, i) == k
  {
  }

  /**
   * The template of a pattern, from the place where the search for the next
   * marker starts; `skip` is 1 when that place is the slash behind a parameter.
   */
  function Parse(s: string, skip: nat): (t: Template)
    requires skip <= 1
    ensures t.Valid()
    decreases |s|
  {
    var k := MarkerFrom(s, 0);
    if k == |s| then Template(if skip < |s| then [s[skip..]] else [], [])
    else
      var rest := s[k + 2..];
      var sep := IndexOf(rest, SEPARATOR);
      Parse(rest[sep..], 1).Cons(s[skip..k + 1], rest[..sep])
  }

  /** The fragments with `values` between them, each value closed by a slash. */
  function Filled(fragments: seq<string>, values: seq<string>): string {
    if fragments == [] then ""
    else if values == [] then fragments[0] + Filled(fragments[1..], [])
    else fragments[0] + values[0] + [SEPARATOR] + Filled(fragments[1..], values[1..])
  }

  /**
   * What it means for a path to match with these captures: it is the filled
   * pattern, or the filled pattern without the slash that closes a parameter
   * at the end. `open` is what is left of the path, with a slash behind it.
   */
  predicate Fits(t: Template, open: string, values: seq<string>) {
    && |values| == |t.names| && AllNoSlash(values)
    && (open == Filled(t.fragments, values) + [SEPARATOR]
        || (|t.fragments| == |t.names| && open == Filled(t.fragments, values)))
  }

  predicate Accepts(t: Template, path: string, values: seq<string>) {
    Fits(t, path + [SEPARATOR], values)
  }

  // --------------------------------------------------------------- matching

  /** strncmp over the first `n` characters: it stops early at a NUL in both. */
  predicate SameUpTo(a: string, b: string, n: nat)
    requires n <= |a| && n <= |b|
  {
    n == 0 || (a[0] == b[0] && (a[0] == '\0' || SameUpTo(a[1..], b[1..], n - 1)))
  }

  lemma {:induction false} SameUpToIs(a: string, b: string, n: nat)
    requires n <= |a| && n <= |b| && forall i :: 0 <= i < n - 1 ==> b[i] != '\0'
    ensures SameUpTo(a, b, n) <==> a[..n] == b[..n]
  {
    if n > 0 {
      SameUpToIs(a[1..], b[1..], n - 1);
      assert a[..n] == [a[0]] + a[1..][..n - 1] && b[..n] == [b[0]] + b[1..][..n - 1];
    }
  }

  lemma {:induction false} SameUpToOfPrefix(a: string, more: string, b: string, n: nat)
    requires n <= |a| && n <= |b|
    ensures SameUpTo(a + more, b, n) == SameUpTo(a, b, n)
  {
    if n > 0 {
      assert (a + more)[1..] == a[1..] + more;
      SameUpToOfPrefix(a[1..], more, b[1..], n - 1);
    }
  }

  /** What was captured so far, in front of what the rest of the path gives. */
  function Before(values: seq<string>, r: Option<seq<string>>): Option<seq<string>> {
    match r
    case None => None
    case Some(more) => Some(values + more)
  }

  /** The captures, in order, for the part of a path that is left, or None. */
  function Captures(fragments: seq<string>, params: nat, open: string): (r: Option<seq<string>>)
    requires params <= |fragments|
    decreases |fragments|
  {
    if fragments == [] then if |open| <= 1 then Some([]) else None
    else
      var f := fragments[0];
      if |f| + 1 <= |open| && SameUpTo(open, f, |f|) then
        var rest := open[|f|..];
        if params == 0 then Captures(fragments[1..], 0, rest)
        else
          var sep := IndexOf(rest, SEPARATOR);
          if sep == |rest| then None
          else Before([rest[..sep]], Captures(fragments[1..], params - 1, rest[sep + 1..]))
      else None
  }

  predicate AllComparedWhole(fragments: seq<string>) {
    forall i :: 0 <= i < |fragments| ==> ComparedWhole(fragments[i])
  }

  /** A fragment that is matched stands at the front. */
  lemma FragmentInFront(open: string, f: string)
    requires ComparedWhole(f)
    ensures |f| + 1 <= |open| && SameUpTo(open, f, |f|) <==> |f| + 1 <= |open| && open[..|f|] == f
  {
    if |f| <= |open| {
      SameUpToIs(open, f, |f|);
      assert f[..|f|] == f;
    }
  }

  lemma FirstSlash(value: string, more: string)
    requires NoSlash(value)
    ensures var s := value + [SEPARATOR] + more;
            IndexOf(s, SEPARATOR) == |value| && s[..|value|] == value && s[|value| + 1..] == more
  {
    IndexOfIs(value + [SEPARATOR] + more, SEPARATOR, |value|);
  }

  /** What a parameter reads: everything up to the next slash. */
  lemma ParameterReads(open: string, f: string) returns (value: string, more: string)
    requires |f| + 1 <= |open| && open[..|f|] == f && open[|open| - 1] == SEPARATOR
    ensures NoSlash(value) && open == f + value + [SEPARATOR] + more
    ensures more == "" || more[|more| - 1] == SEPARATOR
  {
    var rest := open[|f|..];
    assert rest[|rest| - 1] == SEPARATOR;
    var sep := IndexOf(rest, SEPARATOR);
    value, more := rest[..sep], open[|f| + sep + 1..];
  }

  lemma FrontMatches(fragments: seq<string>, params: nat, open: string)
    requires fragments != [] && params <= |fragments| && ComparedWhole(fragments[0])
    requires open == "" || open[|open| - 1] == SEPARATOR
    requires Captures(fragments, params, open).Some?
    ensures |fragments[0]| + 1 <= |open| && open[..|fragments[0]|] == fragments[0]
  {
    FragmentInFront(open, fragments[0]);
  }

  /** Reading one fragment and one parameter. */
  lemma CapturesStep(fragments: seq<string>, params: nat, value: string, more: string)
    requires fragments != [] && 0 < params <= |fragments| && ComparedWhole(fragments[0]) && NoSlash(value)
    requires more == "" || more[|more| - 1] == SEPARATOR
    ensures var open := fragments[0] + value + [SEPARATOR] + more;
            open[|open| - 1] == SEPARATOR &&
            Captures(fragments, params, open) == Before([value], Captures(fragments[1..], params - 1, more))
  {
    var f := fragments[0];
    var open := f + value + [SEPARATOR] + more;
    assert open[..|f|] == f && open[|f|..] == value + [SEPARATOR] + more;
    FragmentInFront(open, f);
    FirstSlash(value, more);
  }

  lemma {:induction false} CapturesFit(t: Template, open: string, values: seq<string>)
    requires t.Valid() && AllComparedWhole(t.fragments) && (open == "" || open[|open| - 1] == SEPARATOR)
    requires Captures(t.fragments, |t.names|, open) == Some(values)
    ensures Fits(t, open, values)
    decreases |t.fragments|
  {
    if t.fragments == [] {
      NothingFits(t, open, values);
    } else if t.names == [] {
      PlainFits(t, open, values);
    } else {
      var value, more, tail := FirstCapture(t, open, values);
      CapturesFit(Template(t.fragments[1..], t.names[1..]), more, tail);
      StepFits(t, value, more, tail);
    }
  }

  lemma NothingFits(t: Template, open: string, values: seq<string>)
    requires t.fragments == [] && t.names == [] && (open == "" || open[|open| - 1] == SEPARATOR)
    requires Captures([], 0, open) == Some(values)
    ensures Fits(t, open, values)
  {
    assert open == "" || open == [SEPARATOR];
    assert Filled([], []) == "";
  }

  lemma FirstCapture(t: Template, open: string, values: seq<string>)
    returns (value: string, more: string, tail: seq<string>)
    requires t.Valid() && AllComparedWhole(t.fragments) && (open == "" || open[|open| - 1] == SEPARATOR)
    requires t.names != [] && Captures(t.fragments, |t.names|, open) == Some(values)
    ensures NoSlash(value) && (more == "" || more[|more| - 1] == SEPARATOR)
    ensures open == t.fragments[0] + value + [SEPARATOR] + more && values == [value] + tail
    ensures AllComparedWhole(t.fragments[1..]) && Captures(t.fragments[1..], |t.names| - 1, more) == Some(tail)
  {
    FrontMatches(t.fragments, |t.names|, open);
    value, more := ParameterReads(open, t.fragments[0]);
    tail := CapturesTail(t.fragments, |t.names|, value, more, open, values);
  }

  lemma CapturesTail(
    fragments: seq<string>, params: nat, value: string, more: string, open: string, values: seq<string>)
    returns (tail: seq<string>)
    requires 0 < params <= |fragments| && AllComparedWhole(fragments) && NoSlash(value)
    requires more == "" || more[|more| - 1] == SEPARATOR
    requires open == fragments[0] + value + [SEPARATOR] + more && open[|open| - 1] == SEPARATOR
    requires Captures(fragments, params, open) == Some(values)
    ensures Captures(fragments[1..], params - 1, more) == Some(tail) && values == [value] + tail
    ensures AllComparedWhole(fragments[1..])
  {
    CapturesStep(fragments, params, value, more);
    tail := values[1..];
  }

  lemma StepFits(t: Template, value: string, more: string, values: seq<string>)
    requires t.names != [] && t.fragments != [] && NoSlash(value)
    requires Fits(Template(t.fragments[1..], t.names[1..]), more, values)
    ensures Fits(t, t.fragments[0] + value + [SEPARATOR] + more, [value] + values)
  {
    var tail := Template(t.fragments[1..], t.names[1..]);
    assert t == tail.Cons(t.fragments[0], t.names[0]);
    FitsCons(tail, t.fragments[0], t.names[0], value, more, values);
  }

  lemma PlainFits(t: Template, open: string, values: seq<string>)
    requires t.Valid() && t.fragments != [] && t.names == [] && ComparedWhole(t.fragments[0])
    requires open == "" || open[|open| - 1] == SEPARATOR
    requires Captures(t.fragments, 0, open) == Some(values)
    ensures Fits(t, open, values)
  {
    FrontMatches(t.fragments, 0, open);
    var rest := open[|t.fragments[0]|..];
    assert t.fragments[1..] == [];
    assert |rest| == 1 && rest[0] == SEPARATOR;
    OneFragment(t, open, rest);
  }

  lemma OneFragment(t: Template, open: string, rest: string)
    requires t.Valid() && t.names == [] && t.fragments != [] && open == t.fragments[0] + rest
    ensures Fits(t, open, []) <==> rest == [SEPARATOR]
  {
    assert t.fragments == [t.fragments[0]];
    SamePrefix(t.fragments[0], rest, [SEPARATOR]);
    assert Filled(t.fragments, []) == t.fragments[0];
  }

  /** One parameter more on both sides. */
  lemma FitsCons(tail: Template, f: string, name: string, value: string, more: string, values: seq<string>)
    requires NoSlash(value)
    ensures Fits(tail.Cons(f, name), f + value + [SEPARATOR] + more, [value] + values) <==> Fits(tail, more, values)
  {
    var t, vs := tail.Cons(f, name), [value] + values;
    assert t.fragments[1..] == tail.fragments && vs[1..] == values;
    var head := f + value + [SEPARATOR];
    var filled := Filled(tail.fragments, values);
    assert Filled(t.fragments, vs) == head + filled;
    SamePrefix(head, more, filled);
    SamePrefix(head, more, filled + [SEPARATOR]);
    assert head + filled + [SEPARATOR] == head + (filled + [SEPARATOR]);
    if AllNoSlash(vs) {
      forall i | 0 <= i < |values| ensures NoSlash(values[i]) {
        assert vs[i + 1] == values[i];
      }
    }
  }

  lemma SamePrefix(head: string, a: string, b: string)
    ensures head + a == head + b <==> a == b
  {
    assert (head + a)[|head|..] == a && (head + b)[|head|..] == b;
  }

  lemma {:induction false} FittingIsCaptured(t: Template, open: string, values: seq<string>)
    requires t.Valid() && AllComparedWhole(t.fragments) && (open == "" || open[|open| - 1] == SEPARATOR)
    requires Fits(t, open, values)
    ensures Captures(t.fragments, |t.names|, open) == Some(values)
    decreases |t.fragments|
  {
    if t.fragments == [] {
      NothingCaptured(t, open, values);
    } else if t.names == [] {
      PlainCaptured(t, open, values);
    } else {
      var value, more, tail := FirstFit(t, open, values);
      FittingIsCaptured(Template(t.fragments[1..], t.names[1..]), more, tail);
      CapturesFirst(t.fragments, |t.names|, value, more, tail);
    }
  }

  lemma NothingCaptured(t: Template, open: string, values: seq<string>)
    requires t.fragments == [] && t.names == [] && Fits(t, open, values)
    ensures Captures([], 0, open) == Some(values)
  {
    assert values == [] && Filled([], []) == "";
  }

  lemma PlainCaptured(t: Template, open: string, values: seq<string>)
    requires t.Valid() && t.fragments != [] && t.names == [] && ComparedWhole(t.fragments[0])
    requires Fits(t, open, values)
    ensures Captures(t.fragments, 0, open) == Some(values)
  {
    var f := t.fragments[0];
    assert values == [] && t.fragments[1..] == [] && Filled(t.fragments, []) == f;
    assert open == f + [SEPARATOR] && open[..|f|] == f && open[|f|..] == [SEPARATOR];
    FragmentInFront(open, f);
  }

  lemma FirstFit(t: Template, open: string, values: seq<string>)
    returns (value: string, more: string, tail: seq<string>)
    requires t.Valid() && AllComparedWhole(t.fragments) && (open == "" || open[|open| - 1] == SEPARATOR)
    requires t.fragments != [] && t.names != [] && Fits(t, open, values)
    ensures NoSlash(value) && (more == "" || more[|more| - 1] == SEPARATOR)
    ensures open == t.fragments[0] + value + [SEPARATOR] + more && values == [value] + tail
    ensures AllComparedWhole(t.fragments[1..]) && Fits(Template(t.fragments[1..], t.names[1..]), more, tail)
  {
    FilledInFront(t, open, values);
    value, tail := values[0], values[1..];
    more := open[|t.fragments[0]| + |value| + 1..];
    FitsTail(t, open, values, more);
  }

  lemma CapturesFirst(fragments: seq<string>, params: nat, value: string, more: string, tail: seq<string>)
    requires 0 < params <= |fragments| && ComparedWhole(fragments[0]) && NoSlash(value)
    requires more == "" || more[|more| - 1] == SEPARATOR
    requires Captures(fragments[1..], params - 1, more) == Some(tail)
    ensures Captures(fragments, params, fragments[0] + value + [SEPARATOR] + more) == Some([value] + tail)
  {
    CapturesStep(fragments, params, value, more);
  }

  lemma FitsTail(t: Template, open: string, values: seq<string>, more: string)
    requires t.fragments != [] && values != [] && t.names != [] && Fits(t, open, values)
    requires open == t.fragments[0] + values[0] + [SEPARATOR] + more
    ensures Fits(Template(t.fragments[1..], t.names[1..]), more, values[1..])
  {
    var tail := Template(t.fragments[1..], t.names[1..]);
    assert t == tail.Cons(t.fragments[0], t.names[0]) && values == [values[0]] + values[1..];
    FitsCons(tail, t.fragments[0], t.names[0], values[0], more, values[1..]);
  }

  lemma FilledInFront(t: Template, open: string, values: seq<string>)
    requires t.fragments != [] && values != [] && Fits(t, open, values)
    ensures var head := t.fragments[0] + values[0] + [SEPARATOR];
            |head| <= |open| && open == head + open[|head|..] && open[..|t.fragments[0]|] == t.fragments[0]
  {
    var head := t.fragments[0] + values[0] + [SEPARATOR];
    assert head <= Filled(t.fragments, values);
    assert head <= open;
    assert open[..|t.fragments[0]|] == head[..|t.fragments[0]|];
  }

  /** Sound and complete: a path matches with exactly the captures that rebuild it. */
  lemma MatchesExactly(t: Template, path: string, values: seq<string>)
    requires t.Valid() && AllComparedWhole(t.fragments)
    ensures Captures(t.fragments, |t.names|, path + [SEPARATOR]) == Some(values) <==> Accepts(t, path, values)
  {
    if Accepts(t, path, values) {
      FittingIsCaptured(t, path + [SEPARATOR], values);
    }
    if Captures(t.fragments, |t.names|, path + [SEPARATOR]) == Some(values) {
      CapturesFit(t, path + [SEPARATOR], values);
    }
  }

  // ---------------------------------------------------------------- parsing

  /** How many markers stand in a pattern. */
  function Markers(s: string): nat {
    if s == "" then 0 else (if MarkedAt(s, 0) then 1 else 0) + Markers(s[1..])
  }

  lemma {:induction false} MarkersFurtherOn(a: string, b: string)
    requires forall k :: 0 <= k < |a| ==> !MarkedAt(a + b, k)
    ensures Markers(a + b) == Markers(b)
  {
    if a == "" {
      assert a + b == b;
    } else {
      assert !MarkedAt(a + b, 0);
      assert (a + b)[1..] == a[1..] + b;
      forall k | 0 <= k < |a| - 1 ensures !MarkedAt(a[1..] + b, k) {
        assert !MarkedAt(a + b, k + 1);
      }
      MarkersFurtherOn(a[1..], b);
    }
  }

  lemma MarkersOfName(name: string, rest: string)
    requires NoSlash(name)
    ensures Markers(":" + name + rest) == Markers(rest)
  {
    var name' := ":" + name;
    assert NoSlash(name');
    forall k | 0 <= k < |name'| ensures !MarkedAt(name' + rest, k) {
      assert (name' + rest)[k] == name'[k];
    }
    MarkersFurtherOn(name', rest);
  }

  /** One marker and its name hold just one marker. */
  lemma MarkersStep(head: string, name: string, rest: string)
    requires NoSlash(name)
    requires forall k :: 0 <= k < |head| ==> !MarkedAt(head + (MARKER + name + rest), k)
    ensures Markers(head + (MARKER + name + rest)) == 1 + Markers(rest)
  {
    MarkersFurtherOn(head, MARKER + name + rest);
    MarkersOfName(name, rest);
    var from := MARKER + name + rest;
    assert from[1..] == ":" + name + rest && MarkedAt(from, 0);
  }

  /** The names as they stand in the pattern. */
  function Coloned(names: seq<string>): seq<string> {
    if names == [] then [] else [":" + names[0]] + Coloned(names[1..])
  }

  lemma AroundMarker(s: string, skip: nat, k: nat)
    requires skip <= 1 && MarkedAt(s, k)
    ensures s == s[..k] + (MARKER + s[k + 2..])
    ensures s[skip..] == s[skip..k + 1] + (":" + s[k + 2..])
  {
  }

  lemma Together(head: string, mark: string, name: string, rest: string)
    ensures head + (mark + (name + rest)) == head + (mark + name + rest) == head + mark + name + rest
  {
  }

  lemma CutShape(s: string, skip: nat, k: nat, name: string, rest: string)
    requires skip <= 1 && MarkedAt(s, k) && s[k + 2..] == name + rest
    ensures s == s[..k] + (MARKER + name + rest)
    ensures s[skip..] == s[skip..k + 1] + ":" + name + rest
  {
    AroundMarker(s, skip, k);
    Together(s[..k], MARKER, name, rest);
    Together(s[skip..k + 1], ":", name, rest);
  }

  lemma ParseIs(s: string, skip: nat, k: nat, behind: string, fragment: string, name: string, rest: string)
    requires skip <= 1 && k == MarkerFrom(s, 0) && k + 2 <= |s| && behind == s[k + 2..]
    requires fragment == s[skip..k + 1]
    requires var sep := IndexOf(behind, SEPARATOR); name == behind[..sep] && rest == behind[sep..]
    ensures Parse(s, skip) == Parse(rest, 1).Cons(fragment, name)
  {
  }

  lemma MarkersCut(s: string, head: string, name: string, rest: string)
    requires s == head + (MARKER + name + rest) && |head| == MarkerFrom(s, 0) && NoSlash(name)
    ensures Markers(s) == 1 + Markers(rest)
  {
    MarkersStep(head, name, rest);
  }

  /** Where a pattern is cut at its first marker. */
  lemma CutAtMarker(s: string, skip: nat) returns (fragment: string, name: string, rest: string)
    requires skip <= 1 && MarkerFrom(s, 0) < |s|
    ensures NoSlash(name) && (rest == "" || rest[0] == SEPARATOR) && |rest| < |s|
    ensures Parse(s, skip) == Parse(rest, 1).Cons(fragment, name)
    ensures s[skip..] == fragment + ":" + name + rest
    ensures s == s[..MarkerFrom(s, 0)] + (MARKER + name + rest)
  {
    fragment, name, rest := ParseCut(s, skip, MarkerFrom(s, 0));
  }

  lemma ParseCut(s: string, skip: nat, k: nat) returns (fragment: string, name: string, rest: string)
    requires skip <= 1 && k == MarkerFrom(s, 0) < |s| && MarkedAt(s, k)
    ensures NoSlash(name) && (rest == "" || rest[0] == SEPARATOR) && |rest| < |s|
    ensures Parse(s, skip) == Parse(rest, 1).Cons(fragment, name)
    ensures s[skip..] == fragment + ":" + name + rest
    ensures s == s[..k] + (MARKER + name + rest)
  {
    var behind := s[k + 2..];
    name, rest := NameAndRest(behind);
    fragment := s[skip..k + 1];
    ParseIs(s, skip, k, behind, fragment, name, rest);
    CutShape(s, skip, k, name, rest);
  }

  lemma NameAndRest(s: string) returns (name: string, rest: string)
    ensures var sep := IndexOf(s, SEPARATOR); name == s[..sep] && rest == s[sep..]
    ensures s == name + rest && NoSlash(name) && (rest == "" || rest[0] == SEPARATOR)
  {
    var sep := IndexOf(s, SEPARATOR);
    name, rest := s[..sep], s[sep..];
  }

  lemma NulFreeParts(a: string, b: string, c: string)
    requires NulFree(a + b + c)
    ensures NulFree(a) && NulFree(c)
  {
    var s := a + b + c;
    forall i | 0 <= i < |a| ensures a[i] != '\0' {
      assert s[i] == a[i];
    }
    forall i | 0 <= i < |c| ensures c[i] != '\0' {
      assert s[|a + b| + i] == c[i];
    }
  }

  lemma NulFreeCut(s: string, skip: nat, fragment: string, name: string, rest: string)
    requires skip <= |s| && NulFree(s) && s[skip..] == fragment + ":" + name + rest
    ensures NulFree(fragment) && NulFree(rest)
  {
    assert s[skip..] == fragment + (":" + name) + rest;
    NulFreeParts(fragment, ":" + name, rest);
  }

  lemma AllComparedWholeCons(fragment: string, fragments: seq<string>)
    requires ComparedWhole(fragment) && AllComparedWhole(fragments)
    ensures AllComparedWhole([fragment] + fragments)
  {
  }

  lemma {:induction false} FragmentsNulFree(s: string, skip: nat)
    requires skip <= 1 && NulFree(s)
    ensures AllComparedWhole(Parse(s, skip).fragments)
    decreases |s|
  {
    if MarkerFrom(s, 0) < |s| {
      var fragment, name, rest := CutAtMarker(s, skip);
      NulFreeCut(s, skip, fragment, name, rest);
      FragmentsNulFree(rest, 1);
      AllComparedWholeCons(fragment, Parse(rest, 1).fragments);
    }
  }

  lemma OpenStep(fragment: string, name: string, rest: string)
    requires rest == "" || rest[0] == SEPARATOR
    ensures fragment + ":" + name + rest + [SEPARATOR] ==
            fragment + (":" + name) + [SEPARATOR] + if rest == "" then "" else rest[1..] + [SEPARATOR]
  {
    if rest != "" {
      assert rest == [SEPARATOR] + rest[1..];
    }
  }

  /** What is left to match behind a parameter: nothing, or the rest after its slash. */
  function Behind(rest: string): string {
    if rest == "" then "" else rest[1..] + [SEPARATOR]
  }

  /** The part of a pattern that is parsed at `s`, with a slash behind it. */
  function OpenPattern(s: string, skip: nat): string {
    if skip == 1 then Behind(s) else s + [SEPARATOR]
  }

  /** What a template has to do with its pattern. */
  predicate Reads(t: Template, s: string, skip: nat) {
    && AllNoSlash(t.names) && |t.names| == Markers(s)
    && Fits(t, OpenPattern(s, skip), Coloned(t.names))
  }

  lemma ReadsNoMarker(s: string, skip: nat)
    requires skip <= 1 && MarkerFrom(s, 0) == |s|
    ensures Reads(Parse(s, skip), s, skip)
  {
    assert s + "" == s;
    MarkersFurtherOn(s, "");
    NoMarker(s, skip);
  }

  lemma ReadsStep(s: string, skip: nat, t: Template, tail: Template, fragment: string, name: string, rest: string)
    requires skip <= |s| && skip <= 1 && NoSlash(name) && (rest == "" || rest[0] == SEPARATOR)
    requires t == tail.Cons(fragment, name) && Reads(tail, rest, 1)
    requires s[skip..] == fragment + ":" + name + rest && Markers(s) == 1 + Markers(rest)
    ensures Reads(t, s, skip)
  {
    assert s[skip..] + [SEPARATOR] == OpenPattern(s, skip);
    ParsedStep(t, tail, fragment, name, rest);
  }

  /**
   * A template takes its pattern apart without loss: filling it with its own
   * names gives the pattern back, and every marker of the pattern is a parameter.
   */
  lemma {:induction false} ParseReads(s: string, skip: nat)
    requires skip <= 1 && (skip == 1 ==> s == "" || s[0] == SEPARATOR)
    ensures Reads(Parse(s, skip), s, skip)
    decreases |s|
  {
    if MarkerFrom(s, 0) == |s| {
      ReadsNoMarker(s, skip);
    } else {
      var fragment, name, rest := CutAtMarker(s, skip);
      MarkersCut(s, s[..MarkerFrom(s, 0)], name, rest);
      ParseReads(rest, 1);
      ReadsStep(s, skip, Parse(s, skip), Parse(rest, 1), fragment, name, rest);
    }
  }

  lemma NoMarker(s: string, skip: nat)
    requires skip <= 1 && MarkerFrom(s, 0) == |s|
    ensures var t := Parse(s, skip);
            t.names == [] && Fits(t, if skip == 1 then Behind(s) else s + [SEPARATOR], [])
  {
    var t := Parse(s, skip);
    if skip < |s| {
      OneFragment(t, s[skip..] + [SEPARATOR], [SEPARATOR]);
      assert s[skip..] + [SEPARATOR] == if skip == 1 then Behind(s) else s + [SEPARATOR];
    } else if s == "" {
      assert Filled([], []) == "";
      assert "" + [SEPARATOR] == [SEPARATOR];
    } else {
      assert |s| == 1 && Behind(s) == [SEPARATOR];
      assert Filled([], []) + [SEPARATOR] == [SEPARATOR];
    }
  }

  lemma ParsedStep(t: Template, tail: Template, fragment: string, name: string, rest: string)
    requires t == tail.Cons(fragment, name) && NoSlash(name) && (rest == "" || rest[0] == SEPARATOR)
    requires AllNoSlash(tail.names) && Fits(tail, Behind(rest), Coloned(tail.names))
    ensures AllNoSlash(t.names) && Fits(t, fragment + ":" + name + rest + [SEPARATOR], Coloned(t.names))
  {
    assert t.names[1..] == tail.names;
    OpenStep(fragment, name, rest);
    assert NoSlash(":" + name);
    FitsCons(tail, fragment, name, ":" + name, Behind(rest), Coloned(tail.names));
  }

  /** A pattern without NUL is such a pattern. */
  lemma NulFreePattern(pattern: string)
    requires NulFree(pattern)
    ensures AllComparedWhole(Parse(pattern, 0).fragments)
  {
    FragmentsNulFree(pattern, 0);
  }

  /** The whole story of a route: its template matches a path exactly when filling the pattern gives the path. */
  lemma RouteMatches(pattern: string, path: string, values: seq<string>)
    requires AllComparedWhole(Parse(pattern, 0).fragments)
    ensures var t := Parse(pattern, 0);
            Captures(t.fragments, |t.names|, path + [SEPARATOR]) == Some(values) <==> Accepts(t, path, values)
    ensures var t := Parse(pattern, 0);
            Accepts(t, pattern, Coloned(t.names)) && |t.names| == Markers(pattern)
  {
    ParseReads(pattern, 0);
    MatchesExactly(Parse(pattern, 0), path, values);
  }
}
