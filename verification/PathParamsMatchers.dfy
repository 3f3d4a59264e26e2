/** The route matcher itself: the loop that parses a pattern and the loop that matches a path. */
module PathParamsMatchers {
  import opened Routes
  import opened Strings

  ghost predicate NoRepeats(names: seq<string>) {
    forall i, j :: 0 <= i < j < |names| ==> names[i] != names[j]
  }

  /** A template with what was read before it in front. */
  function Following(fragments: seq<string>, names: seq<string>, t: Template): Template {
    Template(fragments + t.fragments, names + t.names)
  }

  lemma FollowingCons(fragments: seq<string>, names: seq<string>, t: Template, fragment: string, name: string)
    ensures Following(fragments, names, t.Cons(fragment, name)) == Following(fragments + [fragment], names + [name], t)
  {
  }

  lemma BeforeCons(values: seq<string>, value: string, r: Option<seq<string>>)
    ensures Before(values, Before([value], r)) == Before(values + [value], r)
  {
    if r.Some? {
      assert values + ([value] + r.value) == values + [value] + r.value;
    }
  }

  /** path_params holds exactly these captures under these names. */
  ghost predicate Holds(params: map<string, string>, names: seq<string>, values: seq<string>) {
    && |names| == |values|
    && (forall i :: 0 <= i < |names| ==> names[i] in params && params[names[i]] == values[i])
    && (forall n :: n in params ==> n in names)
  }

  lemma HoldsOneMore(params: map<string, string>, names: seq<string>, values: seq<string>, n: string, v: string)
    requires Holds(params, names, values) && n !in names
    ensures n !in params && Holds(params[n := v], names + [n], values + [v])
  {
  }

  lemma Repeated(names: seq<string>, name: string, more: seq<string>)
    requires name in names
    ensures !NoRepeats(names + [name] + more)
  {
    var i :| 0 <= i < |names| && names[i] == name;
    var all := names + [name] + more;
    assert all[i] == all[|names|];
  }

  /** The next slash, or the end: what find gives for the separator. */
  predicate SlashAt(s: string, from: nat, pos: nat) {
    && from <= pos <= |s| && (pos < |s| ==> s[pos] == SEPARATOR)
    && forall j :: from <= j < pos ==> s[j] != SEPARATOR
  }

  /** The next marker, or the end: what find gives for the marker. */
  predicate MarkerAt(s: string, from: nat, pos: nat) {
    && from <= pos <= |s| && (pos < |s| ==> MarkedAt(s, pos))
    && forall j :: from <= j < pos ==> !MarkedAt(s, j)
  }

  method FindSlash(s: string, from: nat) returns (pos: nat)
    requires from <= |s|
    ensures SlashAt(s, from, pos)
  {
    pos := from;
    while pos < |s| && s[pos] != SEPARATOR
      invariant from <= pos <= |s|
      invariant forall j :: from <= j < pos ==> s[j] != SEPARATOR
    {
      pos := pos + 1;
    }
  }

  method FindMarker(s: string, from: nat) returns (pos: nat)
    requires from <= |s|
    ensures MarkerAt(s, from, pos)
  {
    pos := from;
    while pos < |s| && !MarkedAt(s, pos)
      invariant from <= pos <= |s|
      invariant forall j :: from <= j < pos ==> !MarkedAt(s, j)
    {
      pos := pos + 1;
    }
  }

  lemma MarkerIsFound(s: string, from: nat, pos: nat)
    requires MarkerAt(s, from, pos)
    ensures MarkerFrom(s[from..], 0) == pos - from
  {
    var part, k := s[from..], pos - from;
    forall j | 0 <= j < k ensures !MarkedAt(part, j) {
      assert !MarkedAt(s, from + j);
    }
    MarkerIs(part, 0, k);
  }

  lemma SlashIsFound(s: string, from: nat, pos: nat, more: string)
    requires SlashAt(s, from, pos) && (pos == |s| ==> more == "" || more[0] == SEPARATOR)
    ensures IndexOf(s[from..] + more, SEPARATOR) == pos - from
  {
    IndexOfIs(s[from..] + more, SEPARATOR, pos - from);
  }

  // ------------------------------------------------------------ parsing

  lemma Slices(s: string, from: nat, skip: nat, markerPos: nat, sepPos: nat)
    requires skip <= 1 && from <= markerPos && markerPos + 2 <= sepPos <= |s|
    ensures s[from..][markerPos - from + 2..] == s[markerPos + 2..]
    ensures s[markerPos + 2..][sepPos - (markerPos + 2)..] == s[sepPos..]
    ensures s[markerPos + 2..][..sepPos - (markerPos + 2)] == s[markerPos + 2..sepPos]
    ensures s[from..][skip..markerPos - from + 1] == s[from + skip..markerPos + 1]
  {
  }

  lemma ParseAt(s: string, from: nat, skip: nat, markerPos: nat, sepPos: nat)
    requires skip <= 1 && MarkerAt(s, from, markerPos) && markerPos + 2 <= |s| && SlashAt(s, markerPos + 2, sepPos)
    ensures Parse(s[from..], skip) ==
            Parse(s[sepPos..], 1).Cons(s[from + skip..markerPos + 1], s[markerPos + 2..sepPos])
  {
    MarkerIsFound(s, from, markerPos);
    SlashIsFound(s, markerPos + 2, sepPos, "");
    var fragment, behind := s[from + skip..markerPos + 1], s[markerPos + 2..];
    var name, rest := s[markerPos + 2..sepPos], s[sepPos..];
    assert behind + "" == behind;
    Slices(s, from, skip, markerPos, sepPos);
    ParseIs(s[from..], skip, markerPos - from, behind, fragment, name, rest);
  }

  /**
   * What Init has found out: the search goes on at `from`, which is the start,
   * or the slash that ended the last parameter.
   */
  ghost predicate Parsing(pattern: string, from: nat, skip: nat, fragments: seq<string>, names: seq<string>) {
    && from <= |pattern| && skip <= 1 && NoRepeats(names)
    && Parse(pattern, 0) == Following(fragments, names, Parse(pattern[from..], skip))
  }

  lemma ParsingStep(pattern: string, from: nat, skip: nat, fragments: seq<string>, names: seq<string>,
                    markerPos: nat, sepPos: nat, fragment: string, name: string)
    requires Parsing(pattern, from, skip, fragments, names)
    requires MarkerAt(pattern, from, markerPos) && markerPos + 2 <= |pattern| && SlashAt(pattern, markerPos + 2, sepPos)
    requires fragment == pattern[from + skip..markerPos + 1] && name == pattern[markerPos + 2..sepPos]
    ensures name in names ==> !NoRepeats(Parse(pattern, 0).names)
    ensures name !in names ==> Parsing(pattern, sepPos, 1, fragments + [fragment], names + [name])
  {
    var rest := Parse(pattern[sepPos..], 1);
    ParseAt(pattern, from, skip, markerPos, sepPos);
    FollowingCons(fragments, names, rest, fragment, name);
    if name in names {
      Repeated(names, name, rest.names);
    }
  }

  lemma ParseNone(s: string, skip: nat)
    requires skip <= 1 && MarkerFrom(s, 0) == |s|
    ensures Parse(s, skip) == Template(if skip < |s| then [s[skip..]] else [], [])
  {
  }

  lemma FollowingNone(fragments: seq<string>, names: seq<string>, last: seq<string>)
    ensures Following(fragments, names, Template(last, [])) == Template(fragments + last, names)
    ensures fragments + [] == fragments
  {
  }

  lemma ParsingEnd(pattern: string, from: nat, skip: nat, fragments: seq<string>, names: seq<string>, lastParamEnd: nat)
    requires Parsing(pattern, from, skip, fragments, names) && MarkerAt(pattern, from, |pattern|)
    requires lastParamEnd == from + skip
    ensures lastParamEnd < |pattern| ==> Parse(pattern, 0) == Template(fragments + [pattern[lastParamEnd..]], names)
    ensures lastParamEnd >= |pattern| ==> Parse(pattern, 0) == Template(fragments, names)
  {
    MarkerIsFound(pattern, from, |pattern|);
    var rest := pattern[from..];
    ParseNone(rest, skip);
    FollowingNone(fragments, names, if skip < |rest| then [rest[skip..]] else []);
    if lastParamEnd < |pattern| {
      assert rest[skip..] == pattern[lastParamEnd..];
    }
  }

  // ----------------------------------------------------------- matching

  /** What is left of the path at `pos`, with a slash behind it. */
  ghost predicate Rest(path: string, pos: nat, open: string) {
    pos <= |path| + 1 && open == (path + [SEPARATOR])[pos..]
  }

  predicate FragmentAt(path: string, pos: nat, fragment: string) {
    pos + |fragment| <= |path| && SameUpTo(path[pos..], fragment, |fragment|)
  }

  predicate FragmentFirst(open: string, fragment: string) {
    |fragment| + 1 <= |open| && SameUpTo(open, fragment, |fragment|)
  }

  lemma RestFragment(path: string, pos: nat, open: string, fragment: string)
    requires Rest(path, pos, open)
    ensures FragmentFirst(open, fragment) <==> FragmentAt(path, pos, fragment)
    ensures FragmentAt(path, pos, fragment) ==> Rest(path, pos + |fragment|, open[|fragment|..])
  {
    if pos + |fragment| <= |path| {
      assert open == path[pos..] + [SEPARATOR];
      SameUpToOfPrefix(path[pos..], [SEPARATOR], fragment, |fragment|);
    }
  }

  lemma RestSlash(path: string, from: nat, open: string, sepPos: nat)
    requires Rest(path, from, open) && SlashAt(path, from, sepPos)
    ensures var sep := sepPos - from;
            && sep == IndexOf(open, SEPARATOR) < |open| && open[..sep] == path[from..sepPos]
            && Rest(path, sepPos + 1, open[sep + 1..])
  {
    assert open == path[from..] + [SEPARATOR];
    SlashIsFound(path, from, sepPos, [SEPARATOR]);
  }

  /** What Match has found out when it has read `i` fragments and `open` is left of the path. */
  ghost predicate Matching(result: Option<seq<string>>, fragments: seq<string>, names: seq<string>, i: nat,
                           open: string, values: seq<string>, params: map<string, string>)
  {
    && i <= |fragments| && |names| <= |fragments| && |values| == (if i <= |names| then i else |names|)
    && result == Before(values, Captures(fragments[i..], |names| - |values|, open))
    && Holds(params, names[..|values|], values)
  }

  lemma MatchingStart(fragments: seq<string>, names: seq<string>, open: string)
    requires |names| <= |fragments|
    ensures Matching(Captures(fragments, |names|, open), fragments, names, 0, open, [], map[])
  {
    assert fragments[0..] == fragments;
    var r := Captures(fragments, |names|, open);
    assert r.Some? ==> [] + r.value == r.value;
  }

  lemma FragmentsFrom(fragments: seq<string>, i: nat)
    requires i < |fragments|
    ensures fragments[i..][0] == fragments[i] && fragments[i..][1..] == fragments[i + 1..]
  {
  }

  lemma MatchingFails(result: Option<seq<string>>, fragments: seq<string>, names: seq<string>, i: nat,
                      open: string, values: seq<string>, params: map<string, string>)
    requires Matching(result, fragments, names, i, open, values, params) && i < |fragments|
    requires !FragmentFirst(open, fragments[i])
    ensures result.None?
  {
    FragmentsFrom(fragments, i);
  }

  lemma MatchingFragment(result: Option<seq<string>>, fragments: seq<string>, names: seq<string>, i: nat,
                         open: string, values: seq<string>, params: map<string, string>)
    requires Matching(result, fragments, names, i, open, values, params) && |names| <= i < |fragments|
    requires FragmentFirst(open, fragments[i])
    ensures Matching(result, fragments, names, i + 1, open[|fragments[i]|..], values, params)
  {
    FragmentsFrom(fragments, i);
  }

  lemma CapturesParameter(fragments: seq<string>, params: nat, open: string, rest: string, value: string, more: string)
    requires 0 < params <= |fragments| && FragmentFirst(open, fragments[0]) && rest == open[|fragments[0]|..]
    requires var sep := IndexOf(rest, SEPARATOR); sep < |rest| && value == rest[..sep] && more == rest[sep + 1..]
    ensures Captures(fragments, params, open) == Before([value], Captures(fragments[1..], params - 1, more))
  {
  }

  lemma MatchingParameter(result: Option<seq<string>>, fragments: seq<string>, names: seq<string>, i: nat,
                          open: string, values: seq<string>, params: map<string, string>, value: string, more: string)
    requires Matching(result, fragments, names, i, open, values, params) && NoRepeats(names) && i < |names|
    requires FragmentFirst(open, fragments[i])
    requires var rest := open[|fragments[i]|..];
             var sep := IndexOf(rest, SEPARATOR);
             sep < |rest| && value == rest[..sep] && more == rest[sep + 1..]
    ensures Matching(result, fragments, names, i + 1, more, values + [value], params[names[i] := value])
  {
    FragmentsFrom(fragments, i);
    CapturesParameter(fragments[i..], |names| - i, open, open[|fragments[i]|..], value, more);
    BeforeCons(values, value, Captures(fragments[i + 1..], |names| - i - 1, more));
    HoldsNext(params, names, values, i, value);
  }

  lemma HoldsNext(params: map<string, string>, names: seq<string>, values: seq<string>, i: nat, value: string)
    requires NoRepeats(names) && i < |names| && Holds(params, names[..i], values)
    ensures Holds(params[names[i] := value], names[..i + 1], values + [value])
  {
    assert names[..i + 1] == names[..i] + [names[i]];
    HoldsOneMore(params, names[..i], values, names[i], value);
  }

  lemma MatchingEnd(result: Option<seq<string>>, fragments: seq<string>, names: seq<string>,
                    open: string, values: seq<string>, params: map<string, string>)
    requires Matching(result, fragments, names, |fragments|, open, values, params)
    ensures if |open| <= 1 then result == Some(values) && Holds(params, names, values) else result.None?
  {
    assert names[..|values|] == names && fragments[|fragments|..] == [];
    assert values + [] == values;
  }

  /** The state of the matching loop against the path it reads. */
  ghost predicate Reading(result: Option<seq<string>>, fragments: seq<string>, names: seq<string>, path: string,
                          i: nat, pos: nat, open: string, values: seq<string>, params: map<string, string>)
  {
    Rest(path, pos, open) && Matching(result, fragments, names, i, open, values, params)
  }

  lemma ReadingFragment(result: Option<seq<string>>, fragments: seq<string>, names: seq<string>, path: string,
                        i: nat, pos: nat, open: string, values: seq<string>, params: map<string, string>)
    requires Reading(result, fragments, names, path, i, pos, open, values, params) && i < |fragments|
    ensures !FragmentAt(path, pos, fragments[i]) ==> result.None?
    ensures FragmentAt(path, pos, fragments[i]) ==> |fragments[i]| <= |open|
    ensures FragmentAt(path, pos, fragments[i]) && i >= |names| ==>
              Reading(result, fragments, names, path, i + 1, pos + |fragments[i]|,
                      open[|fragments[i]|..], values, params)
  {
    RestFragment(path, pos, open, fragments[i]);
    if !FragmentAt(path, pos, fragments[i]) {
      MatchingFails(result, fragments, names, i, open, values, params);
    } else if i >= |names| {
      MatchingFragment(result, fragments, names, i, open, values, params);
    }
  }

  lemma ReadingParameter(result: Option<seq<string>>, fragments: seq<string>, names: seq<string>, path: string,
                         i: nat, from: nat, open: string, values: seq<string>, params: map<string, string>, sepPos: nat)
    returns (more: string)
    requires i < |names| <= |fragments| && |fragments[i]| <= from
    requires Reading(result, fragments, names, path, i, from - |fragments[i]|, open, values, params)
    requires NoRepeats(names) && FragmentAt(path, from - |fragments[i]|, fragments[i]) && SlashAt(path, from, sepPos)
    ensures var value := path[from..sepPos];
            Reading(result, fragments, names, path, i + 1, sepPos + 1,
                    more, values + [value], params[names[i] := value])
  {
    var rest := open[|fragments[i]|..];
    RestFragment(path, from - |fragments[i]|, open, fragments[i]);
    RestSlash(path, from, rest, sepPos);
    more := rest[sepPos - from + 1..];
    MatchingParameter(result, fragments, names, i, open, values, params, path[from..sepPos], more);
  }

  class PathParamsMatcher {
    var staticFragments: seq<string>
    var paramNames: seq<string>

    constructor ()
      ensures staticFragments == [] && paramNames == []
    {
      staticFragments, paramNames := [], [];
    }

    /** One turn of the loop: a fragment and a name; false stands for the exception about a repeated name. */
    method TakeParam(pattern: string, markerPos: nat, lastParamEnd: nat, ghost from: nat, ghost skip: nat)
      returns (ok: bool, sepPos: nat)
      requires Parsing(pattern, from, skip, staticFragments, paramNames) && lastParamEnd == from + skip
      requires MarkerAt(pattern, from, markerPos) && markerPos < |pattern|
      modifies this
      ensures from < sepPos <= |pattern|
      ensures if ok then Parsing(pattern, sepPos, 1, staticFragments, paramNames)
              else !NoRepeats(Parse(pattern, 0).names)
    {
      sepPos := FindSlash(pattern, markerPos + 2);
      var fragment, name := pattern[lastParamEnd..markerPos + 1], pattern[markerPos + 2..sepPos];
      ParsingStep(pattern, from, skip, staticFragments, paramNames, markerPos, sepPos, fragment, name);
      staticFragments := staticFragments + [fragment];
      ok := name !in paramNames;
      if ok {
        paramNames := paramNames + [name];
      }
    }

    method ReadParams(pattern: string) returns (ok: bool, lastParamEnd: nat, ghost from: nat, ghost skip: nat)
      requires staticFragments == [] && paramNames == []
      modifies this
      ensures !ok ==> !NoRepeats(Parse(pattern, 0).names)
      ensures ok ==> Parsing(pattern, from, skip, staticFragments, paramNames) && MarkerAt(pattern, from, |pattern|)
      ensures ok ==> lastParamEnd == from + skip
    {
      ok, lastParamEnd := true, 0;
      from, skip := 0, 0;
      assert pattern[0..] == pattern;
      var markerPos := FindMarker(pattern, 0);
      while ok && markerPos < |pattern|
        invariant from <= |pattern| && lastParamEnd == from + skip && (skip == 0 ==> from == 0)
        invariant ok ==> Parsing(pattern, from, skip, staticFragments, paramNames)
        invariant ok ==> MarkerAt(pattern, from, markerPos)
        invariant !ok ==> !NoRepeats(Parse(pattern, 0).names)
        decreases |pattern| - from, ok
      {
        var sepPos;
        ok, sepPos := TakeParam(pattern, markerPos, lastParamEnd, from, skip);
        from, skip, lastParamEnd := sepPos, 1, sepPos + 1;
        markerPos := FindMarker(pattern, if lastParamEnd == 0 then 0 else lastParamEnd - 1);
      }
    }

    /** The whole constructor: the parameters, then what is left behind the last one. */
    method Init(pattern: string) returns (ok: bool)
      requires staticFragments == [] && paramNames == []
      modifies this
      ensures ok <==> NoRepeats(Parse(pattern, 0).names)
      ensures ok ==> Template(staticFragments, paramNames) == Parse(pattern, 0)
    {
      var lastParamEnd;
      ghost var from, skip;
      ok, lastParamEnd, from, skip := ReadParams(pattern);
      if ok {
        ParsingEnd(pattern, from, skip, staticFragments, paramNames, lastParamEnd);
        if lastParamEnd < |pattern| {
          staticFragments := staticFragments + [pattern[lastParamEnd..]];
        }
      }
    }

    /** One turn of the loop: a fragment, and a parameter behind it as long as there are names. */
    method MatchTurn(ghost result: Option<seq<string>>, path: string, i: nat, from: nat,
                     ghost open: string, ghost values: seq<string>, given: map<string, string>)
      returns (ok: bool, pos: nat, params: map<string, string>, ghost more: string, ghost captured: seq<string>)
      requires i < |staticFragments| && |paramNames| <= |staticFragments| && NoRepeats(paramNames)
      requires Reading(result, staticFragments, paramNames, path, i, from, open, values, given)
      ensures !ok ==> result.None?
      ensures ok ==> Reading(result, staticFragments, paramNames, path, i + 1, pos, more, captured, params)
    {
      var fragment := staticFragments[i];
      ReadingFragment(result, staticFragments, paramNames, path, i, from, open, values, given);
      params, more, captured := given, open, values;
      ok := !(from + |fragment| > |path| || !SameUpTo(path[from..], fragment, |fragment|));
      pos := from + |fragment|;
      if ok {
        if i < |paramNames| {
          var sepPos := FindSlash(path, pos);
          var value := path[pos..sepPos];
          more := ReadingParameter(result, staticFragments, paramNames, path, i, pos, open, values, params, sepPos);
          params := params[paramNames[i] := value];
          captured := values + [value];
          pos := sepPos + 1;
        } else {
          more := open[|fragment|..];
        }
      }
    }

    /** Matches a path, and leaves the captures under their names in path_params. */
    method Match(path: string) returns (matched: bool, params: map<string, string>)
      requires Template(staticFragments, paramNames).Valid() && NoRepeats(paramNames)
      ensures var r := Captures(staticFragments, |paramNames|, path + [SEPARATOR]);
              if matched then r.Some? && Holds(params, paramNames, r.value) else r.None?
    {
      params := map[];
      var startingPos: nat := 0;
      ghost var open, values: seq<string> := path + [SEPARATOR], [];
      ghost var result := Captures(staticFragments, |paramNames|, open);
      MatchingStart(staticFragments, paramNames, open);
      for i := 0 to |staticFragments|
        invariant Reading(result, staticFragments, paramNames, path, i, startingPos, open, values, params)
      {
        var ok;
        ok, startingPos, params, open, values :=
          MatchTurn(result, path, i, startingPos, open, values, params);
        if !ok {
          return false, params;
        }
      }
      MatchingEnd(result, staticFragments, paramNames, open, values, params);
      return startingPos >= |path|, params;
    }
  }
}
