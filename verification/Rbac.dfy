/** The permission matcher of rbac/rbac.go and its reading on dot-separated segments. */
module Rbac {
  import Text

  const WILD := ".*"

  predicate PermissionMatches(granted: string, requested: string) {
    var g, r := Text.TrimSpace(granted), Text.TrimSpace(requested);
    Matches(g, r)
  }

  // The tests on trimmed codes.
  predicate Matches(g: string, r: string) {
    if g == "" || r == "" then false
    else if g == "*" || g == r then true
    else if Text.HasSuffix(g, WILD) then
      var prefix := g[..|g| - 2];
      r == prefix || Text.HasPrefix(r, prefix + ".")
    else false
  }

  predicate IsAllowed(granted: seq<string>, requested: string) {
    exists i | 0 <= i < |granted| :: PermissionMatches(granted[i], requested)
  }

  // ---------- Segments ----------

  function Segments(code: string): seq<string> {
    Text.Split(code, '.')
  }

  /** The string tests of a wildcard are the prefix order of segment lists. */
  lemma {:induction false} PrefixIsSegmentPrefix(prefix: string, r: string)
    ensures (r == prefix || Text.HasPrefix(r, prefix + ".")) <==> Segments(prefix) <= Segments(r)
  {
    if Text.HasPrefix(r, prefix + ".") {
      assert r == prefix + ['.'] + r[|prefix| + 1..];
      Text.SplitConcat(prefix, r[|prefix| + 1..], '.');
    }
    if Segments(prefix) <= Segments(r) {
      Text.JoinOfSplit(prefix, '.');
      Text.JoinOfSplit(r, '.');
      JoinPrefix(Segments(prefix), Segments(r));
    }
  }

  lemma {:induction false} JoinPrefix(p: seq<string>, q: seq<string>)
    requires p != [] && p <= q
    ensures Text.Join(q, '.') == Text.Join(p, '.') || Text.HasPrefix(Text.Join(q, '.'), Text.Join(p, '.') + ".")
  {
    if |p| == 1 {
      if |q| > 1 {
        assert Text.Join(q, '.') == p[0] + ['.'] + Text.Join(q[1..], '.');
      } else {
        assert p == q;
      }
    } else {
      JoinPrefix(p[1..], q[1..]);
      var head := p[0] + ['.'];
      assert Text.Join(q, '.') == head + Text.Join(q[1..], '.');
      assert Text.Join(p, '.') + "." == head + (Text.Join(p[1..], '.') + ".");
    }
  }

  // ---------- Grants by shape ----------

  // What a trimmed grant means: everything, one code, or a code and all below it.
  datatype Grant = Everything | Exactly(code: string) | Below(segments: seq<string>)

  function Meaning(g: string): Grant {
    if g == "*" then Everything
    else if Text.HasSuffix(g, WILD) then Below(Segments(g[..|g| - 2]))
    else Exactly(g)
  }

  predicate Covers(grant: Grant, code: string) {
    match grant
    case Everything => true
    case Exactly(c) => c == code
    case Below(segments) => segments <= Segments(code)
  }

  predicate StarFree(code: string) {
    '*' !in code
  }

  // The only star is a lone "*" or a final ".*".
  predicate Wellformed(g: string) {
    var t := Text.TrimSpace(g);
    t == "*" || StarFree(t) || (Text.HasSuffix(t, WILD) && StarFree(t[..|t| - 2]))
  }

  /** On codes without stars a grant allows exactly what its segment meaning covers. */
  lemma MatchesBySegments(granted: string, requested: string)
    requires StarFree(Text.TrimSpace(requested))
    ensures PermissionMatches(granted, requested) <==>
            && !Text.Blank(granted) && !Text.Blank(requested)
            && Covers(Meaning(Text.TrimSpace(granted)), Text.TrimSpace(requested))
  {
    var g, r := Text.TrimSpace(granted), Text.TrimSpace(requested);
    Text.TrimSpaceBlank(granted);
    Text.TrimSpaceBlank(requested);
    if Text.HasSuffix(g, WILD) {
      PrefixIsSegmentPrefix(g[..|g| - 2], r);
      assert g[|g| - 1] == '*';
    }
  }

  // ---------- When a match means inclusion ----------

  predicate Wildcard(t: string) {
    t == "*" || Text.HasSuffix(t, WILD)
  }

  // The grant names, as a plain code, another grant's wildcard text.
  predicate QuotesWildcard(g: string, h: string) {
    Wildcard(Text.TrimSpace(h)) && Text.TrimSpace(g) == Text.TrimSpace(h) + WILD
  }

  lemma {:induction false} BelowTrans(p: string, q: string, c: string)
    requires q == p || Text.HasPrefix(q, p + ".")
    requires c == q || Text.HasPrefix(c, q + ".")
    ensures c == p || Text.HasPrefix(c, p + ".")
  {
    PrefixIsSegmentPrefix(p, q);
    PrefixIsSegmentPrefix(q, c);
    PrefixIsSegmentPrefix(p, c);
  }

  // A code with a wildcard that starts below `p` has its stem at or below `p`.
  lemma StemBelow(p: string, q: string)
    requires Text.HasPrefix(q + WILD, p + ".")
    ensures q == p || Text.HasPrefix(q, p + ".")
  {
    var h := q + WILD;
    assert h[|p|] == (p + ".")[|p|] == '.';
    assert h[|q| + 1] == '*';
    assert p == h[..|p|] && q == h[..|q|];
  }

  lemma WildMatch(p: string, r: string)
    requires r != ""
    ensures Matches(p + WILD, r) <==> r == p + WILD || r == p || Text.HasPrefix(r, p + ".")
  {
    var g := p + WILD;
    assert g[..|g| - 2] == p && Text.HasSuffix(g, WILD);
  }

  // A match that is neither by "*" nor by equality comes from a stem.
  lemma Stem(g: string, r: string) returns (p: string)
    requires Matches(g, r) && g != "*" && g != r
    ensures g == p + WILD && (r == p || Text.HasPrefix(r, p + "."))
  {
    p := g[..|g| - 2];
  }

  lemma NothingBelowLetter(x: char, p: string)
    requires x != '.'
    ensures !Text.HasPrefix([x], p + ".")
  {
    assert (p + ".")[|p|] == '.';
  }

  lemma MatchTrans(g: string, h: string, c: string)
    requires Matches(g, h) && Matches(h, c)
    requires !(Wildcard(h) && g == h + WILD)
    ensures Matches(g, c)
  {
    if g != "*" && g != h && h != c {
      var p := Stem(g, h);
      NothingBelowLetter('*', p);
      if h != "*" {
        var q := Stem(h, c);
        StemBelow(p, q);
        BelowTrans(p, q, c);
        WildMatch(p, c);
      }
    }
  }

  // A code below `h` that `h + ".*"` does not allow.
  function Escapee(h: string): string
    requires Wildcard(h)
  {
    if h == "*" then "a" else h[..|h| - 2] + ".a"
  }

  lemma QuotingFails(h: string)
    requires Wildcard(h)
    ensures Matches(h + WILD, h) && Matches(h, Escapee(h)) && !Matches(h + WILD, Escapee(h))
  {
    var g := h + WILD;
    assert g[..|g| - 2] == h && Text.HasSuffix(g, WILD);
    if h != "*" {
      var q := h[..|h| - 2];
      assert h == q + WILD;
      assert Escapee(h)[|q| + 1] == 'a' && h[|q| + 1] == '*';
      assert |Escapee(h)| == |h|;
    }
  }

  lemma EscapeeTrimmed(h: string)
    requires Wildcard(h) && Text.Trimmed(h)
    ensures Text.TrimSpace(Escapee(h)) == Escapee(h)
  {
    assert Text.Trimmed(Escapee(h)) by {
      if h != "*" {
        assert h == h[..|h| - 2] + WILD;
        assert Escapee(h)[0] == h[0];
      }
    }
    Text.TrimTrimmed(Escapee(h));
  }

  /**
   A grant that matches another grant's text allows everything that one allows, if and
   only if it does not merely quote that grant's wildcard, as "a.*.*" quotes "a.*".
   */
  lemma MatchMeansInclusionIff(g: string, h: string)
    requires PermissionMatches(g, h)
    ensures (forall c :: PermissionMatches(h, c) ==> PermissionMatches(g, c)) <==> !QuotesWildcard(g, h)
  {
    var tg, th := Text.TrimSpace(g), Text.TrimSpace(h);
    if QuotesWildcard(g, h) {
      QuotingFails(th);
      var _, _ := Text.TrimSplits(h);
      EscapeeTrimmed(th);
      assert PermissionMatches(h, Escapee(th)) && !PermissionMatches(g, Escapee(th));
    } else {
      forall c | PermissionMatches(h, c)
        ensures PermissionMatches(g, c)
      {
        MatchTrans(tg, th, Text.TrimSpace(c));
      }
    }
  }

  lemma WellformedNeverQuotes(g: string, h: string)
    requires Wellformed(g)
    ensures !QuotesWildcard(g, h)
  {
    var tg, th := Text.TrimSpace(g), Text.TrimSpace(h);
    assert tg == th + WILD ==> tg[|tg| - 1] == '*' && tg[..|tg| - 2] == th;
    assert Wildcard(th) ==> th[|th| - 1] == '*';
  }

  /** Matching is transitive on well-formed grants. */
  lemma MatchingIsTransitive(g: string, h: string, c: string)
    requires Wellformed(g) && PermissionMatches(g, h) && PermissionMatches(h, c)
    ensures PermissionMatches(g, c)
  {
    WellformedNeverQuotes(g, h);
    MatchTrans(Text.TrimSpace(g), Text.TrimSpace(h), Text.TrimSpace(c));
  }

  // ---------- Inclusion on star-free codes is matching ----------

  // Every star-free code `h` allows is allowed by `g`.
  ghost predicate Includes(g: string, h: string) {
    forall c | StarFree(c) && PermissionMatches(h, c) :: PermissionMatches(g, c)
  }

  lemma IncludedCode(g: string, h: string, q: string, x: char)
    requires Includes(g, h) && Text.TrimSpace(h) == q + WILD && StarFree(q)
    requires x != '*' && !Text.IsSpace(x)
    ensures Matches(Text.TrimSpace(g), q + "." + [x])
  {
    var c := q + "." + [x];
    var _, _ := Text.TrimSplits(h);
    assert Text.Trimmed(c) by {
      assert q != [] ==> (q + WILD)[0] == q[0] == c[0];
    }
    Text.TrimTrimmed(c);
    WildMatch(q, c);
    assert StarFree(c) && PermissionMatches(h, c);
  }

  lemma InclusionGivesBelow(g: string, h: string, q: string)
    requires Includes(g, h) && Text.TrimSpace(h) == q + WILD && StarFree(q)
    ensures Matches(Text.TrimSpace(g), q + WILD)
  {
    var tg := Text.TrimSpace(g);
    IncludedCode(g, h, q, 'a');
    IncludedCode(g, h, q, 'b');
    var a, b := q + "." + ['a'], q + "." + ['b'];
    assert a[|q| + 1] == 'a' && b[|q| + 1] == 'b';
    if tg != "*" {
      assert Text.HasSuffix(tg, WILD);
      var p := tg[..|tg| - 2];
      assert tg == p + WILD && tg[|tg| - 1] == '*';
      WildMatch(p, a);
      WildMatch(p, b);
      WildMatch(p, q + WILD);
      BelowBoth(p, q);
    }
  }

  // Above both q.a and q.b means at or above q.
  lemma BelowBoth(p: string, q: string)
    requires
      var a := q + "." + ['a'];
      a == p || Text.HasPrefix(a, p + ".")
    requires
      var b := q + "." + ['b'];
      b == p || Text.HasPrefix(b, p + ".")
    ensures q + WILD == p + WILD || Text.HasPrefix(q + WILD, p + ".")
  {
    var a, b := q + "." + ['a'], q + "." + ['b'];
    assert a[|q| + 1] == 'a' && b[|q| + 1] == 'b';
    assert Text.HasPrefix(a, p + ".") ==> a[|p|] == (p + ".")[|p|] == '.';
    assert Text.HasPrefix(b, p + ".") ==> b[|p|] == (p + ".")[|p|] == '.';
    assert (q + WILD)[..|q| + 1] == a[..|q| + 1];
    assert p + "." == a[..|p| + 1];
  }

  /** A well-formed grant matches another one's text exactly when it allows every star-free code the other allows. */
  lemma MatchingIsInclusion(g: string, h: string)
    requires Wellformed(g) && Wellformed(h) && !Text.Blank(h)
    ensures PermissionMatches(g, h) <==> Includes(g, h)
  {
    var th := Text.TrimSpace(h);
    Text.TrimSpaceBlank(h);
    Text.TrimTrimmed(h);
    if PermissionMatches(g, h) {
      forall c | StarFree(c) && PermissionMatches(h, c)
        ensures PermissionMatches(g, c)
      {
        MatchingIsTransitive(g, h, c);
      }
    }
    if Includes(g, h) {
      if th == "*" {
        OnlyStarAllowsAll(g, h);
      } else if StarFree(th) {
        assert PermissionMatches(h, th);
      } else {
        assert th == th[..|th| - 2] + WILD;
        InclusionGivesBelow(g, h, th[..|th| - 2]);
      }
    }
  }

  // A grant that allows a one-letter code is "*" or begins with that letter.
  lemma LetterMatch(g: string, x: char)
    requires Matches(g, [x]) && x != '.'
    ensures g == "*" || (g != "" && g[0] == x)
  {
    if g != "*" && g != [x] {
      var p := Stem(g, [x]);
      NothingBelowLetter(x, p);
    }
  }

  lemma OnlyStarAllowsAll(g: string, h: string)
    requires Text.TrimSpace(h) == "*" && Includes(g, h)
    ensures Text.TrimSpace(g) == "*"
  {
    Text.TrimTrimmed(['a']);
    Text.TrimTrimmed(['b']);
    assert PermissionMatches(h, ['a']) && PermissionMatches(h, ['b']);
    LetterMatch(Text.TrimSpace(g), 'a');
    LetterMatch(Text.TrimSpace(g), 'b');
  }

  // The grants without the j-th.
  function Without(grants: seq<string>, j: nat): seq<string>
    requires j < |grants|
  {
    grants[..j] + grants[j + 1..]
  }

  lemma AllowedWithout(grants: seq<string>, j: nat, k: nat, requested: string)
    requires j < |grants| && k < |grants| && k != j && PermissionMatches(grants[k], requested)
    ensures IsAllowed(Without(grants, j), requested)
  {
    var rest := Without(grants, j);
    var l := if k < j then k else k - 1;
    assert rest[l] == grants[k];
  }

  /** Dropping a grant that another one matches, and not only quotes, changes no decision. */
  lemma SubsumedGrantIsRedundant(grants: seq<string>, i: nat, j: nat, requested: string)
    requires i < |grants| && j < |grants| && i != j
    requires PermissionMatches(grants[i], grants[j]) && !QuotesWildcard(grants[i], grants[j])
    ensures IsAllowed(grants, requested) <==> IsAllowed(Without(grants, j), requested)
  {
    if IsAllowed(grants, requested) {
      var k :| 0 <= k < |grants| && PermissionMatches(grants[k], requested);
      if k == j {
        MatchMeansInclusionIff(grants[i], grants[j]);
        AllowedWithout(grants, j, i, requested);
      } else {
        AllowedWithout(grants, j, k, requested);
      }
    }
    if IsAllowed(Without(grants, j), requested) {
      var rest := Without(grants, j);
      var k :| 0 <= k < |rest| && PermissionMatches(rest[k], requested);
      assert rest[k] == grants[if k < j then k else k + 1];
    }
  }
}
