/** The `LIKE` patterns the server builds, against SQLite's `LIKE`: what an escaped pattern
    matches, and what the one unescaped pattern matches. */
module LikePattern {
  import Paths

  datatype Option<+T> = None | Some(value: T)

  /** `LIKE` ignores the case of ASCII letters. */
  function Fold(c: char): char
  {
    if 'A' <= c <= 'Z' then c - 'A' + 'a' else c
  }

  function FoldText(s: string): string
  {
    seq(|s|, i requires 0 <= i < |s| => Fold(s[i]))
  }

  /** SQLite's `s LIKE p`, with an `ESCAPE` character or without. */
  predicate Like(p: string, s: string, escape: Option<char>)
    decreases |p| + |s|
  {
    if p == "" then s == ""
    else if escape == Some(p[0]) then
      |p| >= 2 && s != "" && Fold(p[1]) == Fold(s[0]) && Like(p[2..], s[1..], escape)
    else if p[0] == '%' then Like(p[1..], s, escape) || (s != "" && Like(p, s[1..], escape))
    else if p[0] == '_' then s != "" && Like(p[1..], s[1..], escape)
    else s != "" && Fold(p[0]) == Fold(s[0]) && Like(p[1..], s[1..], escape)
  }

  predicate Special(c: char)
  {
    c == '\\' || c == '%' || c == '_'
  }

  const BACKSLASH := Some('\\')

  /** `escapeLike`, rune by rune. */
  method EscapeLike(value: string) returns (b: string)
    ensures b == Escaped(value)
  {
    b := "";
    for i := 0 to |value|
      invariant b + Escaped(value[i..]) == Escaped(value)
    {
      assert value[i..][0] == value[i] && value[i..][1..] == value[i + 1..];
      if Special(value[i]) {
        b := b + "\\";
      }
      b := b + [value[i]];
    }
  }

  function Escaped(value: string): string
  {
    if value == "" then ""
    else if Special(value[0]) then "\\" + [value[0]] + Escaped(value[1..])
    else [value[0]] + Escaped(value[1..])
  }

  lemma {:induction false} AnythingLeft(s: string, escape: Option<char>)
    requires escape != Some('%')
    ensures Like("%", s, escape)
  {
    if s != "" {
      AnythingLeft(s[1..], escape);
    }
  }

  lemma FoldTextCons(s: string)
    requires s != ""
    ensures FoldText(s) == [Fold(s[0])] + FoldText(s[1..])
  {
  }

  /** An escaped text matches just that text, up to case, and the pattern goes on behind it. */
  lemma {:induction false} EscapedMatchesItself(value: string, rest: string, s: string)
    ensures Like(Escaped(value) + rest, s, BACKSLASH) <==>
            FoldText(value) <= FoldText(s) && Like(rest, s[|value|..], BACKSLASH)
    decreases |value|
  {
    if value == "" {
      assert Escaped(value) + rest == rest && s[0..] == s && FoldText(value) == [];
    } else {
      var p := Escaped(value) + rest;
      var tail := Escaped(value[1..]) + rest;
      FoldTextCons(value);
      if Special(value[0]) {
        assert p == "\\" + [value[0]] + tail;
        assert p[2..] == tail;
      } else {
        assert p == [value[0]] + tail;
        assert p[1..] == tail;
      }
      if s != "" {
        FoldTextCons(s);
        EscapedMatchesItself(value[1..], rest, s[1..]);
        assert |s| >= |value| ==> s[1..][|value| - 1..] == s[|value|..];
        ConsPrefix(Fold(value[0]), FoldText(value[1..]), Fold(s[0]), FoldText(s[1..]));
      }
    }
  }

  lemma ConsPrefix(a: char, x: string, b: char, y: string)
    ensures [a] + x <= [b] + y <==> a == b && x <= y
  {
    if a == b && x <= y {
      assert y == x + y[|x|..];
    }
    if [a] + x <= [b] + y {
      assert ([a] + x)[0] == ([b] + y)[0];
      assert x == ([a] + x)[1..] && y == ([b] + y)[1..];
    }
  }

  ghost predicate Contains(s: string, part: string)
  {
    exists k :: ContainsAt(s, part, k)
  }

  ghost predicate ContainsAt(s: string, part: string, k: int)
  {
    0 <= k <= |s| && part <= s[k..]
  }

  lemma {:induction false} LeadingWildcard(p: string, s: string, escape: Option<char>)
    requires escape != Some('%')
    ensures Like("%" + p, s, escape) <==> exists k :: 0 <= k <= |s| && Like(p, s[k..], escape)
    decreases |s|
  {
    assert ("%" + p)[1..] == p;
    assert s[0..] == s;
    if s != "" {
      LeadingWildcard(p, s[1..], escape);
      forall k | 1 <= k <= |s| ensures s[k..] == s[1..][k - 1..] {}
      if k :| 0 <= k <= |s[1..]| && Like(p, s[1..][k..], escape) {
        assert s[1..][k..] == s[k + 1..];
      }
      if k :| 0 <= k <= |s| && Like(p, s[k..], escape) {
        assert k > 0 ==> s[k..] == s[1..][k - 1..];
      }
    }
  }

  lemma FoldTextDrop(s: string, k: nat)
    requires k <= |s|
    ensures FoldText(s[k..]) == FoldText(s)[k..]
  {
  }

  /** The query's pattern matches a name exactly when the name contains the query. */
  lemma QueryPatternMeansContains(query: string, name: string)
    ensures Like("%" + Escaped(query) + "%", name, BACKSLASH) <==> Contains(FoldText(name), FoldText(query))
  {
    var p := Escaped(query) + "%";
    assert "%" + Escaped(query) + "%" == "%" + p;
    LeadingWildcard(p, name, BACKSLASH);
    forall k | 0 <= k <= |name|
      ensures Like(p, name[k..], BACKSLASH) <==> ContainsAt(FoldText(name), FoldText(query), k)
    {
      EscapedMatchesItself(query, "%", name[k..]);
      FoldTextDrop(name, k);
      if |query| <= |name[k..]| {
        AnythingLeft(name[k..][|query|..], BACKSLASH);
      }
    }
  }

  lemma FoldTextAppend(a: string, b: string)
    ensures FoldText(a + b) == FoldText(a) + FoldText(b)
  {
  }

  lemma SlashAnything(s: string, escape: Option<char>)
    requires escape != Some('%') && escape != Some('/')
    ensures Like("/%", s, escape) <==> "/" <= s
  {
    assert "/%"[1..] == "%";
    if s != "" {
      AnythingLeft(s[1..], escape);
    }
  }

  /** The boundary's pattern matches a path exactly when it lies beneath the boundary, up to case,
      whatever characters the boundary holds. */
  lemma BoundaryPatternMeansBeneath(boundary: string, path: string)
    ensures Like(Escaped(boundary) + "/%", path, BACKSLASH) <==> FoldText(boundary) + "/" <= FoldText(path)
  {
    EscapedMatchesItself(boundary, "/%", path);
    if |boundary| <= |path| {
      SlashAnything(path[|boundary|..], BACKSLASH);
      FoldTextDrop(path, |boundary|);
      PrefixThen(FoldText(boundary), FoldText(path));
      SlashFolds(path[|boundary|..]);
    }
  }

  lemma SlashFolds(s: string)
    ensures "/" <= FoldText(s) <==> "/" <= s
  {
  }

  lemma DotSlashFolds(s: string)
    ensures "./" <= FoldText(s) ==> "./" <= s
  {
    if "./" <= FoldText(s) {
      assert FoldText(s)[0] == '.' && FoldText(s)[1] == '/';
    }
  }

  lemma PrefixThen(a: string, s: string)
    requires |a| <= |s|
    ensures a + "/" <= s <==> a <= s && "/" <= s[|a|..]
  {
    if a <= s && "/" <= s[|a|..] {
      assert s == a + s[|a|..];
    }
    if a + "/" <= s {
      assert a == s[..|a|];
      assert s[|a|] == (a + "/")[|a|];
    }
  }

  /** One clause of the search restricts it to a boundary: the path itself, or the pattern. */
  predicate BoundaryClause(boundary: string, path: string)
  {
    boundary == "" || path == boundary || Like(Escaped(boundary) + "/%", path, BACKSLASH)
  }

  /** It lets through all that lies at or below the boundary by components, and nothing that does
      not at least up to case. */
  lemma BoundaryClauseIsComponentTest(boundary: string, path: string)
    ensures boundary != "" && Paths.AtOrBelow(boundary, path) ==> BoundaryClause(boundary, path)
    ensures boundary != "" && BoundaryClause(boundary, path) ==> Paths.AtOrBelow(FoldText(boundary), FoldText(path))
    ensures boundary != "" && path == FoldText(path) && boundary == FoldText(boundary) ==>
              (BoundaryClause(boundary, path) <==> Paths.AtOrBelow(boundary, path))
  {
    BoundaryPatternMeansBeneath(boundary, path);
    if boundary + "/" <= path {
      FoldTextAppend(boundary + "/", path[|boundary| + 1..]);
      FoldTextAppend(boundary, "/");
      assert path == boundary + "/" + path[|boundary| + 1..];
    }
  }

  // ---- The other case of a letter ----

  predicate Letter(c: char)
  {
    'a' <= c <= 'z' || 'A' <= c <= 'Z'
  }

  function OtherCase(c: char): (r: char)
    requires Letter(c)
    ensures r != c && Fold(r) == Fold(c)
  {
    if c <= 'Z' then c - 'A' + 'a' else c - 'a' + 'A'
  }

  /** A text differs from another that folds to the same only in letters. */
  lemma FoldedPrefix(path: string, s: string)
    requires forall c :: c in path ==> !Letter(c)
    requires FoldText(path) + "/" <= FoldText(s)
    ensures path + "/" <= s
  {
    var whole := path + "/";
    FoldTextAppend(path, "/");
    assert FoldText("/") == "/";
    forall i | 0 <= i < |whole| ensures s[i] == whole[i]
    {
      PrefixAgrees(FoldText(whole), FoldText(s), i);
      assert i < |path| ==> whole[i] in path;
    }
  }

  /** A path outside `path` that differs from one beneath it in the case of one letter. */
  function Lookalike(path: string, k: nat): (s: string)
    requires k < |path| && Letter(path[k])
    ensures !Paths.AtOrBelow(path, s)
  {
    var s := path[k := OtherCase(path[k])] + "/" + "x";
    assert s[k] != path[k];
    PrefixAgrees(path + "/", s, k);
    s
  }

  lemma LookalikeFoldsBeneath(path: string, k: nat)
    requires k < |path| && Letter(path[k])
    ensures Beneath(path, Lookalike(path, k))
  {
    var other := path[k := OtherCase(path[k])];
    assert FoldText(other) == FoldText(path);
    FoldTextAppend(other + "/", "x");
    FoldTextAppend(other, "/");
  }

  /** For a boundary there is a path outside it that it lets through exactly when it has an ASCII
      letter. */
  lemma BoundaryClauseExactIff(boundary: string)
    requires boundary != ""
    ensures (forall path :: BoundaryClause(boundary, path) ==> Paths.AtOrBelow(boundary, path)) <==>
            forall c :: c in boundary ==> !Letter(c)
  {
    if c :| c in boundary && Letter(c) {
      var k :| 0 <= k < |boundary| && boundary[k] == c;
      LookalikeFoldsBeneath(boundary, k);
      BoundaryPatternMeansBeneath(boundary, Lookalike(boundary, k));
      assert BoundaryClause(boundary, Lookalike(boundary, k));
    } else {
      forall path | BoundaryClause(boundary, path) ensures Paths.AtOrBelow(boundary, path)
      {
        BoundaryPatternMeansBeneath(boundary, path);
        if path != boundary {
          FoldedPrefix(boundary, path);
        }
      }
    }
  }

  /** A boundary `docs` lets through what lies in `Docs`. */
  lemma BoundaryReachesOtherCase()
    ensures BoundaryClause("docs", "Docs/x") && !Paths.AtOrBelow("docs", "Docs/x")
  {
    assert "docs"[0 := OtherCase('d')] == "Docs";
    assert Lookalike("docs", 0) == "Docs/x";
    LookalikeFoldsBeneath("docs", 0);
    BoundaryPatternMeansBeneath("docs", "Docs/x");
  }

  // ---- The pattern of `revokeSharesForPath`, which is not escaped ----

  predicate Wildcard(c: char)
  {
    c == '%' || c == '_'
  }

  /** Character by character, equal up to case or covered by a wildcard. */
  ghost predicate Covered(value: string, s: string)
  {
    |s| == |value| && forall i :: 0 <= i < |s| ==> Fold(value[i]) == Fold(s[i]) || Wildcard(value[i])
  }

  lemma {:induction false} CoveredMatches(value: string, s: string, rest: string, tail: string)
    requires Covered(value, s) && Like(rest, tail, None)
    ensures Like(value + rest, s + tail, None)
    decreases |value|
  {
    if value == "" {
      assert value + rest == rest && s + tail == tail;
    } else {
      CoveredMatches(value[1..], s[1..], rest, tail);
      assert (value + rest)[1..] == value[1..] + rest && (s + tail)[1..] == s[1..] + tail;
      assert Like((value + rest)[1..], (s + tail)[1..], None);
    }
  }

  lemma BeneathMatchesUnescaped(path: string, below: string, s: string)
    requires Covered(path, s)
    ensures Like(path + "/%", s + "/" + below, None)
  {
    SlashAnything("/" + below, None);
    CoveredMatches(path, s, "/%", "/" + below);
    assert s + "/" + below == s + ("/" + below);
  }

  lemma {:induction false} PlainMatchesItself(value: string, rest: string, s: string)
    requires forall c :: c in value ==> !Wildcard(c)
    ensures Like(value + rest, s, None) <==> FoldText(value) <= FoldText(s) && Like(rest, s[|value|..], None)
    decreases |value|
  {
    if value == "" {
      assert value + rest == rest && s[0..] == s && FoldText(value) == [];
    } else {
      assert value + rest == [value[0]] + (value[1..] + rest);
      assert (value + rest)[1..] == value[1..] + rest;
      FoldTextCons(value);
      assert !Wildcard(value[0]);
      if s != "" {
        FoldTextCons(s);
        PlainMatchesItself(value[1..], rest, s[1..]);
        assert |s| >= |value| ==> s[1..][|value| - 1..] == s[|value|..];
        ConsPrefix(Fold(value[0]), FoldText(value[1..]), Fold(s[0]), FoldText(s[1..]));
      }
    }
  }

  ghost predicate Beneath(path: string, s: string)
  {
    FoldText(path) + "/" <= FoldText(s)
  }

  lemma UnescapedMissesNothing(path: string, s: string)
    requires Beneath(path, s)
    ensures Like(path + "/%", s, None)
  {
    var n := |path|;
    assert s == s[..n] + "/" + s[n + 1..] by {
      assert FoldText(s)[n] == (FoldText(path) + "/")[n];
      SlashFolds(s[n..]);
    }
    assert Covered(path, s[..n]) by {
      forall i | 0 <= i < n ensures Fold(path[i]) == Fold(s[..n][i])
      {
        assert FoldText(s)[i] == (FoldText(path) + "/")[i];
      }
    }
    BeneathMatchesUnescaped(path, s[n + 1..], s[..n]);
  }

  lemma PlainPatternIsExact(path: string, s: string)
    requires forall c :: c in path ==> !Wildcard(c)
    ensures Like(path + "/%", s, None) ==> Beneath(path, s)
  {
    PlainMatchesItself(path, "/%", s);
    if |path| <= |s| {
      SlashAnything(s[|path|..], None);
      FoldTextDrop(s, |path|);
      PrefixThen(FoldText(path), FoldText(s));
      SlashFolds(s[|path|..]);
    }
  }

  lemma PrefixAgrees(a: string, b: string, k: nat)
    requires k < |a|
    ensures a <= b ==> |a| <= |b| && a[k] == b[k]
  {
  }

  lemma WildcardReachesOut(path: string, k: nat) returns (s: string)
    requires k < |path| && Wildcard(path[k])
    ensures Like(path + "/%", s, None) && !Beneath(path, s) && !Paths.AtOrBelow(path, s)
  {
    var other := path[k := 'x'];
    s := other + "/" + "x";
    BeneathMatchesUnescaped(path, "x", other);
    assert FoldText(s)[k] == 'x' && FoldText(path)[k] == path[k];
    PrefixAgrees(FoldText(path) + "/", FoldText(s), k);
  }

  /** Up to case, the pattern never misses a path beneath the target, and matches no other exactly
      when the target has no wildcard in it. */
  lemma UnescapedUpToCaseIff(path: string)
    ensures forall s :: Beneath(path, s) ==> Like(path + "/%", s, None)
    ensures (forall s :: Like(path + "/%", s, None) ==> Beneath(path, s)) <==> forall c :: c in path ==> !Wildcard(c)
  {
    forall s | Beneath(path, s) ensures Like(path + "/%", s, None)
    {
      UnescapedMissesNothing(path, s);
    }
    if c :| c in path && Wildcard(c) {
      var k :| 0 <= k < |path| && path[k] == c;
      var s := WildcardReachesOut(path, k);
      assert Like(path + "/%", s, None);
    } else {
      forall s | Like(path + "/%", s, None) ensures Beneath(path, s)
      {
        PlainPatternIsExact(path, s);
      }
    }
  }

  /** `relative_path = ? OR relative_path LIKE ?`, as `revokeSharesForPath` asks for it. */
  predicate RevokeClause(path: string, s: string)
  {
    s == path || Like(path + "/%", s, None)
  }

  lemma BeneathLiterally(path: string, s: string)
    requires path + "/" <= s
    ensures Beneath(path, s)
  {
    FoldTextAppend(path + "/", s[|path| + 1..]);
    FoldTextAppend(path, "/");
    assert s == path + "/" + s[|path| + 1..];
  }

  /** Revoking the shares of a path never misses one at or beneath it; it spares all others exactly
      when the path has neither a wildcard nor an ASCII letter in it. */
  lemma UnescapedPatternExactIff(path: string)
    ensures forall s :: Paths.AtOrBelow(path, s) ==> RevokeClause(path, s)
    ensures (forall s :: RevokeClause(path, s) ==> Paths.AtOrBelow(path, s)) <==>
            forall c :: c in path ==> !Wildcard(c) && !Letter(c)
  {
    forall s | Paths.AtOrBelow(path, s) ensures RevokeClause(path, s)
    {
      if s != path {
        BeneathLiterally(path, s);
        UnescapedMissesNothing(path, s);
      }
    }
    if c :| c in path && Wildcard(c) {
      var k :| 0 <= k < |path| && path[k] == c;
      var s := WildcardReachesOut(path, k);
      assert RevokeClause(path, s);
    } else if c :| c in path && Letter(c) {
      var k :| 0 <= k < |path| && path[k] == c;
      LookalikeFoldsBeneath(path, k);
      UnescapedMissesNothing(path, Lookalike(path, k));
      assert RevokeClause(path, Lookalike(path, k));
    } else {
      forall s | RevokeClause(path, s) ensures Paths.AtOrBelow(path, s)
      {
        if s != path {
          PlainPatternIsExact(path, s);
          FoldedPrefix(path, s);
        }
      }
    }
  }

  /** Deleting `docs` also revokes the shares in `Docs`, though `docs` has no wildcard. */
  lemma RevocationReachesOtherCase()
    ensures RevokeClause("docs", "Docs/x") && !Paths.AtOrBelow("docs", "Docs/x")
    ensures forall c :: c in "docs" ==> !Wildcard(c)
  {
    assert "docs"[0 := OtherCase('d')] == "Docs";
    assert Lookalike("docs", 0) == "Docs/x";
    LookalikeFoldsBeneath("docs", 0);
    UnescapedMissesNothing("docs", "Docs/x");
  }
}
