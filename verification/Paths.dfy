/** Slash-separated paths as the Go code sees them: `strings.Split`, `strings.Join`,
    `path.Clean` and `storage.CleanRelativePath`, and the component reading of the
    string-prefix tests that the rest of the system relies on. */
module Paths {

  datatype Result<+T> = Ok(value: T) | Err(error: PathError)
  datatype PathError = Absolute | Traversal | Reserved

  const RESERVED_NAMESPACE := ".omnora"

  // ---- Splitting and joining ----

  /** `strings.Split(s, "/")`. */
  function Split(s: string): (parts: seq<string>)
    ensures |parts| >= 1
  {
    if s == "" then [""]
    else if s[0] == '/' then [""] + Split(s[1..])
    else
      var rest := Split(s[1..]);
      [[s[0]] + rest[0]] + rest[1..]
  }

  /** `strings.Join(parts, "/")`. */
  function Join(parts: seq<string>): string
  {
    if parts == [] then ""
    else if |parts| == 1 then parts[0]
    else parts[0] + "/" + Join(parts[1..])
  }

  lemma {:induction false} SplitParts(s: string)
    ensures forall part :: part in Split(s) ==> '/' !in part
  {
    if s != "" {
      SplitParts(s[1..]);
      var rest := Split(s[1..]);
      assert forall part :: part in rest[1..] ==> part in rest;
      assert rest[0] in rest;
    }
  }

  lemma {:induction false} JoinAppend(a: seq<string>, b: seq<string>)
    requires a != [] && b != []
    ensures Join(a + b) == Join(a) + "/" + Join(b)
  {
    if |a| == 1 {
      assert (a + b)[1..] == b;
    } else {
      JoinAppend(a[1..], b);
      assert (a + b)[1..] == a[1..] + b;
    }
  }

  lemma SplitCons(c: char, s: string, a: seq<string>, b: seq<string>)
    requires a != [] && Split(s) == a + b
    ensures Split([c] + s) == (if c == '/' then [""] + a else [[c] + a[0]] + a[1..]) + b
  {
    assert ([c] + s)[1..] == s;
    assert (a + b)[1..] == a[1..] + b;
  }

  lemma {:induction false} SplitAppend(a: string, b: string)
    ensures Split(a + "/" + b) == Split(a) + Split(b)
  {
    assert a + "/" + b == a + ("/" + b);
    if a == "" {
      assert a + ("/" + b) == "/" + b;
      assert ("/" + b)[1..] == b;
    } else {
      var rest := a[1..];
      SplitAppend(rest, b);
      assert rest + "/" + b == rest + ("/" + b);
      SplitCons(a[0], rest + ("/" + b), Split(rest), Split(b));
      assert [a[0]] + (rest + ("/" + b)) == a + ("/" + b);
    }
  }

  lemma {:induction false} JoinSplit(s: string)
    ensures Join(Split(s)) == s
  {
    if s != "" {
      JoinSplit(s[1..]);
      var rest := Split(s[1..]);
      if s[0] == '/' {
        assert ([""] + rest)[1..] == rest;
      } else {
        assert Split(s)[1..] == rest[1..];
      }
    }
  }

  lemma {:induction false} SplitSingle(s: string)
    requires '/' !in s
    ensures Split(s) == [s]
  {
    if s != "" {
      assert s[0] in s;
      SplitSingle(s[1..]);
      assert [s[0]] + s[1..] == s;
    }
  }

  lemma {:induction false} SplitJoin(parts: seq<string>)
    requires parts != []
    requires forall part :: part in parts ==> '/' !in part
    ensures Split(Join(parts)) == parts
  {
    if |parts| == 1 {
      SplitSingle(parts[0]);
    } else {
      SplitJoin(parts[1..]);
      SplitSingle(parts[0]);
      SplitAppend(parts[0], Join(parts[1..]));
      assert Join(parts) == parts[0] + "/" + Join(parts[1..]);
      assert [parts[0]] + parts[1..] == parts;
    }
  }

  /** The test `b == a || strings.HasPrefix(b, a + "/")`, used for share roots, token
      boundaries and mount roots. */
  predicate AtOrBelow(a: string, b: string)
  {
    b == a || a + "/" <= b
  }

  /** The string test means exactly that the components of `a` are a prefix of those of `b`. */
  lemma AtOrBelowIsComponentPrefix(a: string, b: string)
    ensures AtOrBelow(a, b) <==> Split(a) <= Split(b)
  {
    if a + "/" <= b {
      var tail := b[|a| + 1..];
      assert b == a + "/" + tail;
      SplitAppend(a, tail);
    }
    if Split(a) <= Split(b) {
      var tail := Split(b)[|Split(a)|..];
      assert Split(b) == Split(a) + tail;
      JoinSplit(a);
      JoinSplit(b);
      if tail == [] {
        assert Split(b) == Split(a);
      } else {
        JoinAppend(Split(a), tail);
      }
    }
  }

  // ---- path.Clean ----

  /** One pass of `path.Clean` over the components: empty and "." components vanish, ".."
      removes the component before it, and is kept only at the front of a relative path. */
  function Reduce(parts: seq<string>, rooted: bool, kept: seq<string>): seq<string>
  {
    if parts == [] then kept
    else Reduce(parts[1..], rooted, Push(kept, parts[0], rooted))
  }

  function Push(kept: seq<string>, part: string, rooted: bool): seq<string>
  {
    if part == "" || part == "." then kept
    else if part != ".." then kept + [part]
    else if kept != [] && kept[|kept| - 1] != ".." then kept[..|kept| - 1]
    else if rooted then kept
    else kept + [".."]
  }

  /** `path.Clean` (and, on Unix, `filepath.Clean`). */
  function Clean(s: string): string
  {
    if s == "" then "."
    else
      var rooted := s[0] == '/';
      var kept := Reduce(Split(s), rooted, []);
      if rooted then "/" + Join(kept)
      else if kept == [] then "."
      else Join(kept)
  }

  /** A component list that `path.Clean` leaves alone. */
  ghost predicate Canonical(kept: seq<string>, rooted: bool)
  {
    && (forall part :: part in kept ==> part != "" && part != "." && '/' !in part)
    && (forall i :: 0 <= i < |kept| && kept[i] == ".." ==>
          !rooted && forall j :: 0 <= j < i ==> kept[j] == "..")
  }

  lemma {:induction false} ReduceCanonical(parts: seq<string>, rooted: bool, kept: seq<string>)
    requires forall part :: part in parts ==> '/' !in part
    requires Canonical(kept, rooted)
    ensures Canonical(Reduce(parts, rooted, kept), rooted)
  {
    if parts != [] {
      var next := Push(kept, parts[0], rooted);
      assert Canonical(next, rooted) by {
        assert parts[0] in parts;
        if parts[0] == ".." && (kept == [] || kept[|kept| - 1] == "..") && !rooted {
          assert forall j :: 0 <= j < |kept| ==> kept[j] == "..";
        }
      }
      ReduceCanonical(parts[1..], rooted, next);
    }
  }

  lemma {:induction false} ReduceFixed(parts: seq<string>, rooted: bool, kept: seq<string>)
    requires Canonical(kept + parts, rooted)
    ensures Reduce(parts, rooted, kept) == kept + parts
  {
    if parts == [] {
      assert kept + parts == kept;
    } else {
      assert (kept + parts)[|kept|] == parts[0];
      assert parts[0] in kept + parts;
      if parts[0] == ".." && kept != [] {
        assert (kept + parts)[|kept| - 1] == kept[|kept| - 1];
      }
      assert Push(kept, parts[0], rooted) == kept + [parts[0]];
      assert kept + [parts[0]] + parts[1..] == kept + parts;
      ReduceFixed(parts[1..], rooted, kept + [parts[0]]);
    }
  }

  /** The components of a relative path after cleaning; `[]` stands for ".". */
  ghost function Components(s: string): seq<string>
  {
    Reduce(Split(s), false, [])
  }

  lemma {:induction false} JoinNonEmpty(parts: seq<string>)
    requires parts != [] && forall part :: part in parts ==> part != "" && '/' !in part
    ensures Join(parts) != "" && Join(parts)[0] != '/'
  {
    assert parts[0] in parts;
  }

  lemma CleanRelative(s: string)
    requires s != "" && s[0] != '/'
    ensures Canonical(Components(s), false)
    ensures Clean(s) == if Components(s) == [] then "." else Join(Components(s))
    ensures Components(s) != [] ==>
              Split(Clean(s)) == Components(s) && Clean(s) != "" && Clean(s)[0] != '/'
  {
    SplitParts(s);
    ReduceCanonical(Split(s), false, []);
    if Components(s) != [] {
      SplitJoin(Components(s));
      JoinNonEmpty(Components(s));
    }
  }

  lemma CanonicalFixed(parts: seq<string>)
    requires parts != [] && Canonical(parts, false)
    ensures Clean(Join(parts)) == Join(parts) && Components(Join(parts)) == parts
  {
    JoinNonEmpty(parts);
    SplitJoin(parts);
    assert [] + parts == parts;
    ReduceFixed(parts, false, []);
  }

  lemma CleanIdempotent(s: string)
    ensures Clean(Clean(s)) == Clean(s)
  {
    if s == "" {
      assert Split(".") == ["."] by { SplitSingle("."); }
      assert Reduce(["."], false, []) == [];
    } else if s[0] == '/' {
      var kept := Reduce(Split(s), true, []);
      SplitParts(s);
      ReduceCanonical(Split(s), true, []);
      assert "/" + Join(kept) == "" + "/" + Join(kept);
      SplitAppend("", Join(kept));
      if kept == [] {
        assert Split("/") == ["", ""];
        assert Reduce(["", ""], true, []) == Reduce([""], true, []) == [];
      } else {
        SplitJoin(kept);
        assert ([""] + kept)[1..] == kept;
        assert [] + kept == kept;
        ReduceFixed(kept, true, []);
      }
    } else {
      CleanRelative(s);
      if Components(s) == [] {
        SplitSingle(".");
        assert Reduce(["."], false, []) == [];
      } else {
        CanonicalFixed(Components(s));
      }
    }
  }

  // ---- storage.CleanRelativePath ----

  /** `unicode.IsSpace`. */
  predicate IsSpace(c: char)
  {
    c in {'\t', '\n', '\U{0B}', '\U{0C}', '\r', ' ', '\U{85}', '\U{A0}', '\U{1680}',
          '\U{2028}', '\U{2029}', '\U{202F}', '\U{205F}', '\U{3000}'}
    || '\U{2000}' <= c <= '\U{200A}'
  }

  /** `strings.TrimSpace(s) == ""`. */
  predicate Blank(s: string)
  {
    forall i :: 0 <= i < |s| ==> IsSpace(s[i])
  }

  /** `strings.TrimSpace`. */
  function TrimSpace(s: string): string
  {
    if s == "" then ""
    else if IsSpace(s[0]) then TrimSpace(s[1..])
    else if IsSpace(s[|s| - 1]) then TrimSpace(s[..|s| - 1])
    else s
  }

  function CleanRelativePath(value: string): (r: Result<string>)
  {
    if Blank(value) then Ok(".")
    else if "/" <= value then Err(Absolute)
    else
      var cleaned := Clean(value);
      if AtOrBelow("..", cleaned) then Err(Traversal)
      else if AtOrBelow(RESERVED_NAMESPACE, cleaned) then Err(Reserved)
      else Ok(cleaned)
  }

  /** The components of a cleaned path. */
  function Parts(p: string): seq<string>
  {
    if p == "." || p == "" then [] else Split(p)
  }

  /** What a cleaned path looks like: ".", or proper names only, the first not reserved. */
  ghost predicate Cleaned(p: string)
  {
    p == "." || (CleanParts(Split(p)) && Split(p)[0] != RESERVED_NAMESPACE)
  }

  ghost predicate CleanParts(parts: seq<string>)
  {
    forall part :: part in parts ==> part != "" && part != "." && part != ".." && '/' !in part
  }

  lemma CleanPartsCanonical(parts: seq<string>)
    requires CleanParts(parts)
    ensures Canonical(parts, false)
  {
    forall i | 0 <= i < |parts| ensures parts[i] != ".." { assert parts[i] in parts; }
  }

  /** A single name is at or above a path exactly when it is the path's first component. */
  lemma FirstComponent(name: string, p: string)
    requires '/' !in name
    ensures AtOrBelow(name, p) <==> Split(p)[0] == name
  {
    AtOrBelowIsComponentPrefix(name, p);
    SplitSingle(name);
  }

  lemma CanonicalClean(kept: seq<string>)
    requires kept != [] && Canonical(kept, false) && kept[0] != ".."
    ensures CleanParts(kept)
  {
    forall part | part in kept ensures part != ".." {
      var i :| 0 <= i < |kept| && kept[i] == part;
    }
  }

  /** Every accepted path is in cleaned form, and its components are those left by the reduction. */
  lemma CleanRelativePathAccepts(value: string)
    requires CleanRelativePath(value).Ok?
    ensures Cleaned(CleanRelativePath(value).value)
    ensures !Blank(value) ==> Parts(CleanRelativePath(value).value) == Components(value)
  {
    if !Blank(value) {
      assert |value| > 0 && value[0] != '/' by {
        if value != "" && value[0] == '/' { assert false; }
      }
      CleanRelative(value);
      var kept := Components(value);
      if kept != [] {
        var cleaned := Clean(value);
        FirstComponent("..", cleaned);
        FirstComponent(RESERVED_NAMESPACE, cleaned);
        CanonicalClean(kept);
        SplitSingle(".");
      }
    }
  }

  /** Cleaning is a no-op on a cleaned path exactly when the path is not all white space. */
  lemma CleanedIsFixed(p: string)
    requires Cleaned(p)
    ensures CleanRelativePath(p) == Ok(p) <==> !Blank(p)
  {
    FirstComponent("..", p);
    FirstComponent(RESERVED_NAMESPACE, p);
    if p == "." {
      SplitSingle(".");
      assert Reduce(["."], false, []) == [];
      assert !IsSpace(p[0]);
    } else {
      CleanPartsCanonical(Split(p));
      JoinSplit(p);
      CanonicalFixed(Split(p));
      JoinNonEmpty(Split(p));
      assert Split(p)[0] in Split(p);
    }
  }

  // ---- Share portal and token boundaries ----

  /** `resolveShareBoundPath` without its error response. */
  function ResolveShareBoundPath(shareRoot: string, requested: string): Result<string>
  {
    match CleanRelativePath(requested)
    case Err(e) => Err(e)
    case Ok(cleaned) =>
      var root := if shareRoot == "" then "." else shareRoot;
      if cleaned == "." then Ok(root)
      else if root == "." then Ok(cleaned)
      else Ok(root + "/" + cleaned)
  }

  function TrimPrefix(s: string, prefix: string): string
  {
    if prefix <= s then s[|prefix|..] else s
  }

  function ShareRelativeDisplayPath(shareRoot: string, mountRelativePath: string): string
  {
    if shareRoot == "" || shareRoot == "." then mountRelativePath
    else
      var trimmed := TrimPrefix(TrimPrefix(mountRelativePath, shareRoot), "/");
      if trimmed == "" then "." else trimmed
  }

  lemma BoundBelowRoot(root: string, cleaned: string)
    requires Cleaned(root) && root != "."
    requires Cleaned(cleaned) && cleaned != "." && cleaned != ""
    ensures var bound := root + "/" + cleaned;
            && bound != "." && Split(bound) == Split(root) + Split(cleaned) && Cleaned(bound)
            && TrimPrefix(TrimPrefix(bound, root), "/") == cleaned
  {
    var bound := root + "/" + cleaned;
    SplitAppend(root, cleaned);
    assert bound[|root|] == '/';
    assert bound[|root|..] == "/" + cleaned;
  }

  /** A request never leaves the share: the bound path is the root's components followed by
      the request's own; it is again a cleaned path; and the display path undoes the binding. */
  lemma ShareBoundPathConfined(shareRoot: string, requested: string)
    requires shareRoot == "" || Cleaned(shareRoot)
    requires CleanRelativePath(requested).Ok?
    ensures var cleaned := CleanRelativePath(requested).value;
            var bound := ResolveShareBoundPath(shareRoot, requested).value;
            && Parts(bound) == Parts(shareRoot) + Parts(cleaned)
            && Cleaned(bound)
            && (CleanRelativePath(bound) == Ok(bound) <==> !Blank(bound))
            && ShareRelativeDisplayPath(shareRoot, bound) == cleaned
  {
    var cleaned := CleanRelativePath(requested).value;
    var bound := ResolveShareBoundPath(shareRoot, requested).value;
    CleanRelativePathAccepts(requested);
    assert Parts(shareRoot) + [] == Parts(shareRoot);
    assert [] + Parts(cleaned) == Parts(cleaned);
    if shareRoot != "" && shareRoot != "." {
      if cleaned == "." {
        assert shareRoot[|shareRoot|..] == "";
      } else {
        assert cleaned != "" by { assert Split("") == [""] && "" in [""]; }
        BoundBelowRoot(shareRoot, cleaned);
      }
    }
    CleanedIsFixed(bound);
  }

  /** `resolveAIPrincipalPath`'s boundary test (an empty boundary stands for the whole mount). */
  predicate WithinBoundary(boundary: string, cleaned: string)
  {
    var b := if boundary == "" then "." else boundary;
    b == "." || cleaned == b || b + "/" <= cleaned
  }

  lemma BoundaryTestIsExact(boundary: string, cleaned: string)
    requires boundary == "" || Cleaned(boundary)
    requires Cleaned(cleaned)
    ensures WithinBoundary(boundary, cleaned) <==> Parts(boundary) <= Parts(cleaned)
  {
    AtOrBelowIsComponentPrefix(boundary, cleaned);
    if cleaned == "." && boundary != "" && boundary != "." {
      SplitSingle(".");
      assert Split(boundary)[0] in Split(boundary);
    }
  }

  /** `normalizeRelativePath` of a token boundary; "" stands for the whole mount. (The test for an
      inner ".." is left out: a cleaned path has none.) */
  function NormalizeBoundaryPath(raw: string): Result<string>
  {
    var value := TrimSpace(raw);
    if value == "" || value == "." then Ok("")
    else if '\0' in value || "/" <= value then Err(Absolute)
    else
      var cleaned := Clean(value);
      if cleaned == "." then Ok("")
      else if AtOrBelow("..", cleaned) then Err(Traversal)
      else if RESERVED_NAMESPACE in Split(cleaned) then Err(Reserved)
      else Ok(cleaned)
  }

  lemma {:induction false} TrimmedIsNotBlank(s: string)
    ensures TrimSpace(s) != "" ==> !Blank(TrimSpace(s))
    decreases |s|
  {
    if s != "" {
      if IsSpace(s[0]) {
        TrimmedIsNotBlank(s[1..]);
      } else if IsSpace(s[|s| - 1]) {
        TrimmedIsNotBlank(s[..|s| - 1]);
      }
    }
  }

  /** A stored boundary is the mount itself or a cleaned path, which is what the test against it
      relies on. */
  lemma NormalizedBoundaryIsCleaned(raw: string)
    ensures NormalizeBoundaryPath(raw).Ok? && NormalizeBoundaryPath(raw).value != "" ==>
              Cleaned(NormalizeBoundaryPath(raw).value) && NormalizeBoundaryPath(raw).value != "."
  {
    var value := TrimSpace(raw);
    TrimmedIsNotBlank(raw);
    if NormalizeBoundaryPath(raw).Ok? && NormalizeBoundaryPath(raw).value != "" {
      FirstComponent(RESERVED_NAMESPACE, Clean(value));
      CleanRelativePathAccepts(value);
    }
  }

  /** Not only "." cleans to ".". */
  lemma SlashedDotIsDot()
    ensures Clean("./") == "."
  {
    SplitAppend(".", "");
    SplitSingle(".");
    assert "." + "/" + "" == "./" && ["."] + [""] == [".", ""];
    var parts := [".", ""];
    assert parts[1..] == [""] && parts[1..][1..] == [];
    assert Reduce(parts, false, []) == Reduce([""], false, []) == [];
  }

  lemma SlashedDotIsAccepted()
    ensures CleanRelativePath("./") == Ok(".") && TrimSpace("./") == "./"
  {
    SlashedDotIsDot();
    assert !IsSpace("./"[0]) && !IsSpace("./"[1]);
  }

  /** For two cleaned paths, the first of which is not the root, components and the string test
      agree. */
  lemma PartsMeanAtOrBelow(a: string, b: string)
    requires Cleaned(a) && a != "." && Cleaned(b)
    ensures Parts(a) <= Parts(b) <==> AtOrBelow(a, b)
  {
    BoundaryTestIsExact(a, b);
    assert Split("") == [""] && "" in [""];
  }

  lemma DotIsAccepted()
    ensures TrimSpace(".") == "." && CleanRelativePath("") == Ok(".") && CleanRelativePath(".") == Ok(".")
  {
    SplitSingle(".");
    assert Cleaned(".") && !IsSpace("."[0]);
    CleanedIsFixed(".");
  }
}
