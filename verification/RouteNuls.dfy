/** Which NUL characters in a pattern matter to the matcher, which compares with strncmp. */
module RouteNuls {
  import opened Routes
  import opened Strings

  lemma {:induction false} SameUpToItself(f: string)
    ensures SameUpTo(f, f, |f|)
  {
    if f != "" {
      SameUpToItself(f[1..]);
    }
  }

  /** Behind a NUL anything goes. */
  lemma {:induction false} SameUpToNul(f: string, g: string, j: nat)
    requires j < |f| == |g| && f[j] == '\0' && f[..j + 1] == g[..j + 1]
    ensures SameUpTo(g, f, |f|)
  {
    assert f[0] == f[..j + 1][0] && g[0] == g[..j + 1][0];
    if j > 0 {
      assert f[1..][..j] == f[..j + 1][1..] && g[1..][..j] == g[..j + 1][1..];
      SameUpToNul(f[1..], g[1..], j - 1);
    }
  }

  /** Fragments that strncmp cannot tell from those of the pattern. */
  predicate Alike(gs: seq<string>, fs: seq<string>) {
    |gs| == |fs| && forall i :: 0 <= i < |fs| ==> |gs[i]| == |fs[i]| && SameUpTo(gs[i], fs[i], |fs[i]|)
  }

  lemma AlikeTail(gs: seq<string>, fs: seq<string>)
    requires Alike(gs, fs) && fs != []
    ensures Alike(gs[1..], fs[1..])
  {
  }

  lemma FragmentPasses(g: string, f: string, more: string)
    requires |g| == |f| && SameUpTo(g, f, |f|) && more != ""
    ensures |f| + 1 <= |g + more| && SameUpTo(g + more, f, |f|) && (g + more)[|f|..] == more
  {
    SameUpToOfPrefix(g, more, f, |f|);
  }

  lemma ParameterPasses(fs: seq<string>, g: string, params: nat, value: string, more: string)
    requires 0 < params <= |fs| && |g| == |fs[0]| && SameUpTo(g, fs[0], |fs[0]|) && NoSlash(value)
    ensures Captures(fs, params, g + (value + [SEPARATOR] + more)) ==
            Before([value], Captures(fs[1..], params - 1, more))
  {
    FragmentPasses(g, fs[0], value + [SEPARATOR] + more);
    FirstSlash(value, more);
  }

  lemma LastPasses(f: string, g: string)
    requires |g| == |f| && SameUpTo(g, f, |f|)
    ensures Captures([f], 0, g + [SEPARATOR]) == Some([])
  {
    FragmentPasses(g, f, [SEPARATOR]);
    assert [f][1..] == [];
  }

  /** A path filled with such fragments matches, and gives the values it was filled with. */
  lemma {:induction false} AlikePathsMatch(gs: seq<string>, fs: seq<string>, values: seq<string>)
    requires Alike(gs, fs) && |values| <= |fs| <= |values| + 1 && AllNoSlash(values)
    ensures Captures(fs, |values|, Filled(gs, values) + [SEPARATOR]) == Some(values)
    decreases |fs|
  {
    if fs == [] {
      assert Filled(gs, values) + [SEPARATOR] == [SEPARATOR];
    } else if values == [] {
      assert fs == [fs[0]] && gs == [gs[0]];
      assert Filled([], []) == "" && Filled(gs, []) == gs[0];
      LastPasses(fs[0], gs[0]);
    } else {
      AlikeTail(gs, fs);
      AlikePathsMatch(gs[1..], fs[1..], values[1..]);
      OneParameterMore(fs, gs[0], values, Filled(gs[1..], values[1..]) + [SEPARATOR]);
      FilledOpen(gs, values);
    }
  }

  lemma OneParameterMore(fs: seq<string>, g: string, values: seq<string>, more: string)
    requires 0 < |values| <= |fs| && |g| == |fs[0]| && SameUpTo(g, fs[0], |fs[0]|) && NoSlash(values[0])
    requires Captures(fs[1..], |values| - 1, more) == Some(values[1..])
    ensures Captures(fs, |values|, g + (values[0] + [SEPARATOR] + more)) == Some(values)
  {
    ParameterPasses(fs, g, |values|, values[0], more);
    assert [values[0]] + values[1..] == values;
  }

  lemma FilledOpen(gs: seq<string>, values: seq<string>)
    requires gs != [] && values != []
    ensures Filled(gs, values) + [SEPARATOR] ==
            gs[0] + (values[0] + [SEPARATOR] + (Filled(gs[1..], values[1..]) + [SEPARATOR]))
  {
    Grouped(gs[0], values[0], [SEPARATOR], Filled(gs[1..], values[1..]));
  }

  lemma Grouped(g: string, value: string, slash: string, rest: string)
    ensures g + value + slash + rest + slash == g + (value + slash + (rest + slash))
  {
  }

  lemma {:induction false} FilledDiffers(gs: seq<string>, fs: seq<string>, values: seq<string>)
    requires Alike(gs, fs)
    ensures |Filled(gs, values)| == |Filled(fs, values)|
    ensures Filled(gs, values) == Filled(fs, values) ==> gs == fs
    decreases |fs|
  {
    if fs != [] {
      AlikeTail(gs, fs);
      var later := if values == [] then [] else values[1..];
      var between := if values == [] then "" else values[0] + [SEPARATOR];
      FilledDiffers(gs[1..], fs[1..], later);
      FilledHead(gs, values, between, later);
      FilledHead(fs, values, between, later);
      if Filled(gs, values) == Filled(fs, values) {
        SameHead(gs[0], fs[0], between, Filled(gs[1..], later), Filled(fs[1..], later));
        assert gs == [gs[0]] + gs[1..] && fs == [fs[0]] + fs[1..];
      }
    }
  }

  lemma FilledHead(fs: seq<string>, values: seq<string>, between: string, later: seq<string>)
    requires fs != [] && later == (if values == [] then [] else values[1..])
    requires between == if values == [] then "" else values[0] + [SEPARATOR]
    ensures Filled(fs, values) == fs[0] + between + Filled(fs[1..], later)
  {
    if values == [] {
      assert fs[0] + "" == fs[0];
    } else {
      assert fs[0] + values[0] + [SEPARATOR] == fs[0] + between;
    }
  }

  lemma SameHead(g: string, f: string, between: string, a: string, b: string)
    requires |g| == |f| && g + between + a == f + between + b
    ensures g == f && a == b
  {
    assert g == (g + between + a)[..|g|] && f == (f + between + b)[..|f|];
    assert a == (g + between + a)[|g + between|..] && b == (f + between + b)[|f + between|..];
  }

  /** Matching says what filling says. */
  ghost predicate MatchesAsFilled(t: Template)
    requires t.Valid()
  {
    forall path: string, values: seq<string> ::
      Accepts(t, path, values) <==> Captures(t.fragments, |t.names|, path + [SEPARATOR]) == Some(values)
  }

  /** The fragment with another last character. */
  function Changed(f: string): string
    requires f != ""
  {
    f[|f| - 1 := if f[|f| - 1] == 'a' then 'b' else 'a']
  }

  lemma SomeOtherPathMatches(t: Template, i: nat, j: nat) returns (path: string, values: seq<string>)
    requires t.Valid() && i < |t.fragments| && j < |t.fragments[i]| - 1 && t.fragments[i][j] == '\0'
    ensures Captures(t.fragments, |t.names|, path + [SEPARATOR]) == Some(values) && !Accepts(t, path, values)
  {
    var fs, f := t.fragments, t.fragments[i];
    var gs := fs[i := Changed(f)];
    SameUpToNul(f, Changed(f), j);
    forall k | 0 <= k < |fs| ensures |gs[k]| == |fs[k]| && SameUpTo(gs[k], fs[k], |fs[k]|) {
      SameUpToItself(fs[k]);
    }
    values := seq(|t.names|, k => "");
    path := Filled(gs, values);
    AlikePathsMatch(gs, fs, values);
    assert gs[i] != fs[i];
    FilledDiffers(gs, fs, values);
    SamePrefixSlash(path, Filled(fs, values));
  }

  lemma SamePrefixSlash(a: string, b: string)
    requires |a| == |b|
    ensures a + [SEPARATOR] == b + [SEPARATOR] <==> a == b
  {
    assert (a + [SEPARATOR])[..|a|] == a && (b + [SEPARATOR])[..|b|] == b;
  }

  /** A NUL is harmless exactly as the last character of a fragment, or inside a parameter's name. */
  lemma NulsThatMatter(t: Template)
    requires t.Valid()
    ensures MatchesAsFilled(t) <==> AllComparedWhole(t.fragments)
  {
    if AllComparedWhole(t.fragments) {
      forall path: string, values: seq<string>
        ensures Accepts(t, path, values) <==> Captures(t.fragments, |t.names|, path + [SEPARATOR]) == Some(values)
      {
        MatchesExactly(t, path, values);
      }
    } else {
      var i :| 0 <= i < |t.fragments| && !ComparedWhole(t.fragments[i]);
      var j :| 0 <= j < |t.fragments[i]| - 1 && t.fragments[i][j] == '\0';
      var path, values := SomeOtherPathMatches(t, i, j);
      assert !(Accepts(t, path, values) <==> Captures(t.fragments, |t.names|, path + [SEPARATOR]) == Some(values));
    }
  }
}
