/** Substring search: the specification shared by every component that looks for a delimiter. */
module Search {

  /** `t` stands in `s` at position `k`. */
  predicate OccursAt(s: string, t: string, k: int) {
    0 <= k && k + |t| <= |s| && s[k..k + |t|] == t
  }

  ghost predicate Occurs(s: string, t: string) {
    exists k :: OccursAt(s, t, k)
  }

  /** The position of the first occurrence of `t` in `s`, or `|s|` when there is none. */
  function Find(s: string, t: string): (k: nat)
    requires t != ""
    ensures k <= |s|
    ensures k < |s| ==> OccursAt(s, t, k)
    ensures forall j :: 0 <= j < k ==> !OccursAt(s, t, j)
  {
    FindFrom(s, t, 0)
  }

  function FindFrom(s: string, t: string, i: nat): (k: nat)
    requires t != "" && i <= |s|
    ensures i <= k <= |s|
    ensures k < |s| ==> OccursAt(s, t, k)
    ensures forall j :: i <= j < k ==> !OccursAt(s, t, j)
    decreases |s| - i
  {
    if i == |s| || OccursAt(s, t, i) then i else FindFrom(s, t, i + 1)
  }

  /** `Find` is the only function with its contract. */
  lemma FindIs(s: string, t: string, k: nat)
    requires t != ""
    requires k == |s| || OccursAt(s, t, k)
    requires k <= |s| && forall j :: 0 <= j < k ==> !OccursAt(s, t, j)
    ensures Find(s, t) == k
  {
    var f := Find(s, t);
    assert f < k ==> OccursAt(s, t, f);
    assert k < f ==> OccursAt(s, t, k);
  }

  /** A delimiter whose first character does not come back cannot overlap itself. */
  predicate NoOverlap(t: string) {
    t != "" && forall i :: 0 < i < |t| ==> t[i] != t[0]
  }

  lemma OccursInPart(s: string, t: string, lo: nat, hi: nat)
    requires lo <= hi <= |s| && Occurs(s[lo..hi], t)
    ensures Occurs(s, t)
  {
    var k :| OccursAt(s[lo..hi], t, k);
    var part := s[lo..hi];
    assert part[k..k + |t|] == t;
    assert forall i :: 0 <= i < |t| ==> t[i] == part[k + i] == s[lo + k + i];
    assert s[lo + k..lo + k + |t|] == t;
    assert OccursAt(s, t, lo + k);
  }

  /** Text free of a non-overlapping delimiter keeps the delimiter behind it in first place. */
  lemma DelimiterFirst(text: string, t: string, more: string)
    requires NoOverlap(t) && !Occurs(text, t)
    ensures Find(text + t + more, t) == |text|
  {
    var u := text + t + more;
    assert OccursAt(u, t, |text|);
    forall j | 0 <= j < |text| ensures !OccursAt(u, t, j) {
      if j + |t| <= |text| {
        assert u[j..j + |t|] == text[j..j + |t|];
        assert !OccursAt(text, t, j);
      } else {
        assert u[j..j + |t|][|text| - j] == u[|text|] == t[0];
        assert t[|text| - j] != t[0];
      }
    }
    FindIs(u, t, |text|);
  }

  /** What a reader that has seen only a prefix of the text finds. */
  lemma FindInPrefix(w: string, rest: string, t: string)
    requires t != "" && Find(w + rest, t) < |w + rest|
    ensures var k := Find(w + rest, t);
            Find(w, t) == if k + |t| <= |w| then k else |w|
  {
    var u := w + rest;
    var k := Find(u, t);
    forall j | 0 <= j < |w| && OccursAt(w, t, j) ensures OccursAt(u, t, j) {
      assert u[j..j + |t|] == w[j..j + |t|];
    }
    if k + |t| <= |w| {
      assert w[k..k + |t|] == u[k..k + |t|];
      FindIs(w, t, k);
    } else {
      FindIs(w, t, |w|);
    }
  }
}
